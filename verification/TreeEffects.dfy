/** What each operation leaves: the new inode field by field, every lookup, every other inode, and every refusal. */
module TreeEffects {
  import opened Permission
  import opened Errors
  import opened Namespace
  import opened TreeInvariant
  import opened TreeRename
  import opened TreeSteps
  import opened TreeRuns

  // ---------- the new inode ----------

  lemma {:induction false} DropIds(perm: Mode)
    ensures Without(Without(perm, S_ISUID), S_ISGID) == perm & 0xF3FF
  {
  }

  lemma {:induction false} MaskedBits(perm: Mode)
    ensures (perm & 0xF3FF) & 0xF3FF == perm & 0xF3FF
    ensures (perm & 0xF3FF) & 0x0800 == 0
    ensures (perm & 0xF3FF) & 0x0400 == 0
  {
  }

  lemma {:induction false} AddSgid(m: Mode)
    ensures (m | S_ISGID) & 0xF3FF == m & 0xF3FF
    ensures (m | S_ISGID) & 0x0800 == m & 0x0800
    ensures (m | S_ISGID) & 0x0400 != 0
  {
  }

  // The mode of a new inode: type, sticky and permission bits as asked for, the set-user-id bit only for root, and the
  // set-group-id bit for root, or for any directory in a directory.

  lemma {:induction false} NewOtherBits(parent: Mode, perm: Mode, uid: nat)
    ensures NewMode(parent, perm, uid) & 0xF3FF == perm & 0xF3FF
  {
    var m := BaseMode(perm, uid);
    BaseBits(perm, uid, m);
    NewModeIs(parent, perm, uid, m);
    AddSgid(m);
  }

  lemma {:induction false} NewUserBit(parent: Mode, perm: Mode, uid: nat)
    ensures NewMode(parent, perm, uid) & 0x0800 != 0 <==> perm & 0x0800 != 0 && uid == 0
  {
    var m := BaseMode(perm, uid);
    BaseBits(perm, uid, m);
    NewModeIs(parent, perm, uid, m);
    AddSgid(m);
  }

  lemma {:induction false} NewGroupBit(parent: Mode, perm: Mode, uid: nat)
    ensures NewMode(parent, perm, uid) & 0x0400 != 0 <==>
            (perm & 0x0400 != 0 && uid == 0) || (perm & 0x4000 != 0 && parent & 0x4000 != 0)
  {
    var m := BaseMode(perm, uid);
    BaseBits(perm, uid, m);
    NewModeIs(parent, perm, uid, m);
    AddSgid(m);
  }

  lemma {:induction false} NewModeIs(parent: Mode, perm: Mode, uid: nat, m: Mode)
    requires m == BaseMode(perm, uid)
    ensures NewMode(parent, perm, uid) == if perm & 0x4000 != 0 && parent & 0x4000 != 0 then m | S_ISGID else m
  {
    SpecialBits(perm);
    SpecialBits(parent);
  }

  function BaseMode(perm: Mode, uid: nat): Mode {
    if uid != 0 then Without(Without(perm, S_ISUID), S_ISGID) else perm
  }

  lemma {:induction false} BaseBits(perm: Mode, uid: nat, m: Mode)
    requires m == BaseMode(perm, uid)
    ensures m & 0xF3FF == perm & 0xF3FF
    ensures m & 0x0800 != 0 <==> perm & 0x0800 != 0 && uid == 0
    ensures m & 0x0400 != 0 <==> perm & 0x0400 != 0 && uid == 0
  {
    if uid != 0 {
      DropIds(perm);
      MaskedBits(perm);
    }
  }

  lemma {:induction false} SpecialBits(perm: Mode)
    ensures IsSpecial(perm) <==> perm & 0xC000 == 0xC000 || perm & 0x3000 != 0
    ensures Contains(perm, S_IFDIR) <==> perm & 0x4000 != 0
    ensures Contains(perm, S_IFLNK) <==> perm & 0xA000 == 0xA000
    ensures Contains(perm, S_ISGID) <==> perm & 0x0400 != 0
  {
  }

  /** A successful create stores what was asked for: owner, group, mode, counts, symlink target, device number and the
      two entries of a directory; the directory it is in keeps its own mode, owner and group. */
  lemma {:induction false} CreateStores(t: Tree, next: nat, q: Request)
    requires Wf(t) && Below(t, next) && Legal(t, q.op) && q.op.Create? && Check(t, next, q) == Done
    ensures var t', dir, perm := After(t, next, q), q.op.dir, q.op.perm;
            && next in t' && dir in t && dir in t'
            && t'[next].uid == q.uid
            && t'[next].gid == (if perm & 0x0400 != 0 then t[dir].gid else q.gid)
            && t'[next].mode & 0xF3FF == perm & 0xF3FF
            && (t'[next].mode & 0x0800 != 0 <==> perm & 0x0800 != 0 && q.uid == 0)
            && (t'[next].mode & 0x0400 != 0 <==> (perm & 0x0400 != 0 && q.uid == 0) || perm & 0x4000 != 0)
            && t'[next].target == (if perm & 0xA000 == 0xA000 then q.op.target else None)
            && t'[next].dev == (if perm & 0xC000 == 0xC000 || perm & 0x3000 != 0 then q.op.dev else None)
            && (perm & 0x4000 == 0 ==> t'[next].links == 1 && t'[next].size == 0 && t'[next].entries == map[])
            && (perm & 0x4000 != 0 ==> t'[next].entries == map["." := next, ".." := dir])
            && (perm & 0x4000 != 0 ==> if Sound(t, q.op) then t'[next].links == 2 && t'[next].size == 2
                                       else t'[next].links == 1 && t'[next].size == 0)
            && t'[dir].mode == t[dir].mode && t'[dir].uid == t[dir].uid && t'[dir].gid == t[dir].gid
            && t'[dir].size == t[dir].size + 1
  {
    var parent := t[q.op.dir].mode;
    NewOtherBits(parent, q.op.perm, q.uid);
    NewUserBit(parent, q.op.perm, q.uid);
    NewGroupBit(parent, q.op.perm, q.uid);
    SpecialBits(q.op.perm);
    SpecialBits(t[q.op.dir].mode);
  }

  /** And its answer says so. It panics, after the commit, exactly for a permission without a type. */
  lemma {:induction false} CreateAnswers(t: Tree, next: nat, q: Request)
    requires Wf(t) && Below(t, next) && Legal(t, q.op) && q.op.Create? && Check(t, next, q) == Done
    ensures next in After(t, next, q)
    ensures match CreateReply(next, q.op.perm, After(t, next, q)[next])
            case None => q.op.perm & 0xF000 == 0
            case Some(a) =>
              && a.ino == next && a.uid == q.uid && a.perm == After(t, next, q)[next].mode
              && a.gid == (if q.op.perm & 0x0400 != 0 then t[q.op.dir].gid else q.gid)
              && KindOf(q.op.perm) == Some(a.kind)
              && (q.op.perm & 0x4000 == 0 ==> a.nlink == 1 && a.size == 0)
              && (Sound(t, q.op) && q.op.perm & 0x4000 != 0 ==> a.nlink == 2 && a.size == 2)
              && a.rdev == (if (q.op.perm & 0xC000 == 0xC000 || q.op.perm & 0x3000 != 0) && q.op.dev.Some?
                            then q.op.dev.value else 0)
  {
    CreateStores(t, next, q);
    NoKind(q.op.perm);
    ReplyFields(next, q.op.perm, After(t, next, q)[next]);
  }

  lemma {:induction false} ReplyFields(n: nat, perm: Mode, node: Node)
    ensures match CreateReply(n, perm, node)
            case None => KindOf(perm) == None
            case Some(a) =>
              && a.ino == n && a.uid == node.uid && a.gid == node.gid && a.perm == node.mode && a.size == node.size
              && a.nlink == node.links && KindOf(perm) == Some(a.kind)
              && a.rdev == if node.dev.Some? then node.dev.value else 0
  {
  }

  lemma {:induction false} NoKind(mode: Mode)
    ensures KindOf(mode) == None <==> mode & 0xF000 == 0
  {
    KindBits(mode);
  }

  // ---------- lookups ----------

  /** Every lookup after a create, a link, an unlink or an rmdir. */
  lemma {:induction false} PlainLookup(t: Tree, next: nat, q: Request, d: nat, x: string)
    requires Wf(t) && Below(t, next) && Legal(t, q.op) && !q.op.Rename? && (q.op.Unlink? ==> Sound(t, q.op))
    requires Check(t, next, q) == Done
    ensures var t', o := After(t, next, q), q.op;
            match o
            case Create(dir, name, perm, _, _) =>
              Lookup(t', d, x) ==
              if d == dir && x == name then Some(next)
              else if d == next then
                (if perm & 0x4000 == 0 then None else if x == "." then Some(next) else if x == ".." then Some(dir) else None)
              else Lookup(t, d, x)
            case Link(ino, dir, name) => Lookup(t', d, x) == if d == dir && x == name then Some(ino) else Lookup(t, d, x)
            case Unlink(dir, name, _) => Lookup(t', d, x) == if d == dir && x == name then None else Lookup(t, d, x)
            case Rmdir(dir, name) =>
              Lookup(t', d, x) ==
              if (d == dir && x == name) || Some(d) == Lookup(t, dir, name) then None else Lookup(t, d, x)
            case Rename(_, _, _, _, _) => true
  {
    match q.op
    case Create(dir, name, perm, target, dev) => SpecialBits(perm);
    case Link(ino, dir, name) =>
    case Unlink(dir, name, _) => Open(t, t[dir].entries[name]);
    case Rmdir(dir, name) => ChildDir(t, dir, name, t[dir].entries[name]);
  }

  /** Every lookup after an exchange: an old entry that is a directory gets the new parent as its ".". */
  lemma {:induction false} ExchangeEffect(t: Tree, next: nat, q: Request, d: nat, x: string)
    requires Wf(t) && q.op.Rename? && q.op.exchange && Legal(t, q.op) && Check(t, next, q) == Done
    ensures var t', o := After(t, next, q), q.op;
            var m, target := Lookup(t, o.od, o.on), Lookup(t, o.nd, o.nn);
            Lookup(t', d, x) ==
            if d == o.nd && x == o.nn then m
            else if d == o.od && x == o.on then target
            else if Some(d) == m && x == "." && IsDir(t, d) then Some(o.nd)
            else if Some(d) == target && x == ".." && IsDir(t, d) then Some(o.od)
            else Lookup(t, d, x)
  {
    var o := q.op;
    ExchangeApart(t, After(t, next, q), o.od, o.on, o.nd, o.nn, t[o.od].entries[o.on], Lookup(t, o.nd, o.nn).value);
  }

  // ---------- the other inodes ----------

  /** What an operation may change of an inode that stays: its entries, a directory's size, a file's link count. */
  ghost predicate Kept(a: Node, b: Node, isDir: bool) {
    && b.mode == a.mode && b.uid == a.uid && b.gid == a.gid && b.target == a.target && b.dev == a.dev
    && (if isDir then b.links == a.links else b.size == a.size)
  }

  lemma {:induction false} PlainKeeps(t: Tree, next: nat, q: Request, n: nat)
    requires Wf(t) && Below(t, next) && Legal(t, q.op) && !q.op.Rename? && (q.op.Unlink? ==> Sound(t, q.op))
    requires Check(t, next, q) == Done && n in t && n in After(t, next, q)
    ensures Kept(t[n], After(t, next, q)[n], IsDir(t, n))
  {
  }

  lemma {:induction false} MoveKept(t: Tree, od: nat, on: string, nd: nat, nn: string, m: nat, target: Option<nat>, n: nat)
    requires Wf(t) && Movable(t, od, on, nd, nn, m) && n in t
    requires target.Some? ==> target.value != od && target.value != nd && target.value != m
    requires n in MoveTree(t, od, on, nd, nn, m, target)
    ensures Kept(t[n], MoveTree(t, od, on, nd, nn, m, target)[n], IsDir(t, n))
  {
    Apart(t, od, on, nd, nn, m);
  }

  ghost predicate OnlyEntries(t: Tree, t': Tree) {
    t'.Keys == t.Keys && forall n :: n in t ==> t'[n] == t[n].(entries := t'[n].entries)
  }

  lemma {:induction false} PutOnly(t: Tree, t1: Tree, d: nat, x: string, n: nat)
    requires OnlyEntries(t, t1) && d in t1
    ensures OnlyEntries(t, Put(t1, d, x, n))
  {
  }

  lemma {:induction false} ExchangeKept(t: Tree, t': Tree, od: nat, on: string, nd: nat, nn: string, m: nat, target: nat,
                                        n: nat)
    requires Wf(t) && Exchanges(t, t', od, on, nd, nn, m, target) && n in t
    ensures n in t' && Kept(t[n], t'[n], IsDir(t, n)) && t'[n].size == t[n].size && t'[n].links == t[n].links
  {
    var t1 := Put(t, nd, nn, m);
    var t2 := Put(t1, od, on, target);
    var t3 := if IsDir(t, m) then Put(t2, m, ".", nd) else t2;
    PutOnly(t, t, nd, nn, m);
    PutOnly(t, t1, od, on, target);
    PutOnly(t, t2, m, ".", nd);
    PutOnly(t, t3, target, "..", od);
    assert OnlyEntries(t, t');
  }

  /** No operation changes mode, owner, group, symlink target or device number of an inode that stays, nor the link
      count of a directory, nor the size of a file. */
  lemma {:induction false} StepKept(t: Tree, next: nat, q: Request, n: nat)
    requires Wf(t) && Below(t, next) && Legal(t, q.op) && (q.op.Unlink? && Check(t, next, q) == Done ==> Sound(t, q.op))
    ensures Check(t, next, q) == Done ==> DeletesOther(t, q.op)
    ensures n in t && n in After(t, next, q) ==> Kept(t[n], After(t, next, q)[n], IsDir(t, n))
  {
    if Check(t, next, q) == Done {
      LegalDeletesOther(t, next, q);
      if n in t && n in After(t, next, q) {
        match q.op
        case Rename(od, on, nd, nn, exchange) =>
          var m := t[od].entries[on];
          if exchange {
            ExchangeKept(t, After(t, next, q), od, on, nd, nn, m, Lookup(t, nd, nn).value, n);
          } else {
            MoveKept(t, od, on, nd, nn, m, Target(t, nd, nn), n);
          }
        case _ => PlainKeeps(t, next, q, n);
      }
    }
  }

  /** The inodes that come and go. */
  lemma {:induction false} StepInodes(t: Tree, next: nat, q: Request, n: nat)
    requires Wf(t) && Below(t, next) && Legal(t, q.op) && Sound(t, q.op) && Check(t, next, q) == Done
    ensures DeletesOther(t, q.op)
    ensures n in After(t, next, q) && n !in t <==> q.op.Create? && n == next
    ensures n in t && n !in After(t, next, q) <==>
            match q.op
            case Unlink(dir, name, _) => Some(n) == Lookup(t, dir, name) && Refs(t, n) == {(dir, name)}
            case Rmdir(dir, name) => Some(n) == Lookup(t, dir, name)
            case Rename(_, _, nd, nn, false) => Some(n) == Lookup(t, nd, nn)
            case _ => false
  {
    LegalDeletesOther(t, next, q);
    match q.op
    case Create(dir, name, perm, target, dev) =>
    case Link(ino, dir, name) =>
    case Unlink(dir, name, _) => OneLink(t, dir, name, t[dir].entries[name]);
    case Rmdir(dir, name) => ChildDir(t, dir, name, t[dir].entries[name]);
    case Rename(od, on, nd, nn, exchange) => Open(t, nd);
  }

  lemma {:induction false} OneLink(t: Tree, dir: nat, name: string, n: nat)
    requires Wf(t) && n in t && !IsDir(t, n) && Named(name) && Holds(t, dir, name, n)
    ensures t[n].links == 1 <==> Refs(t, n) == {(dir, name)}
  {
    Open(t, n);
    InRefs(t, n, dir, name);
    var rest := Refs(t, n) - {(dir, name)};
    assert Refs(t, n) == rest + {(dir, name)} && |Refs(t, n)| == |rest| + 1;
  }

  // ---------- over runs ----------

  ghost predicate TwoLinks(t: Tree) { forall n :: IsDir(t, n) ==> t[n].links == 2 }

  lemma {:induction false} StepTwoLinks(t: Tree, next: nat, q: Request)
    requires Wf(t) && Below(t, next) && Legal(t, q.op) && (Check(t, next, q) == Done ==> Sound(t, q.op)) && TwoLinks(t)
    ensures Check(t, next, q) == Done ==> DeletesOther(t, q.op)
    ensures TwoLinks(After(t, next, q))
  {
    if Check(t, next, q) == Done {
      LegalDeletesOther(t, next, q);
      var t' := After(t, next, q);
      forall n | IsDir(t', n) ensures t'[n].links == 2 {
        if n in t {
          StepKept(t, next, q, n);
        } else {
          StepInodes(t, next, q, n);
          CreateStores(t, next, q);
          SpecialBits(t'[n].mode);
        }
      }
    }
  }

  /** Over every run the link count of a directory is 2, however many directories it holds. */
  lemma {:induction false} RunTwoLinks(r: Run)
    requires IsRun(r)
    ensures TwoLinks(TreeOf(r))
  {
    if r.Then? {
      RunWf(r.before);
      RunTwoLinks(r.before);
      StepTwoLinks(TreeOf(r.before), NextOf(r.before), r.q);
    }
  }

  /** Over every run an inode keeps its mode, owner, group, target and device number for as long as it lives. */
  lemma {:induction false} RunKept(r: Run, n: nat)
    requires IsRun(r) && r.Then? && n in TreeOf(r.before) && n in r.tree
    ensures Kept(TreeOf(r.before)[n], r.tree[n], IsDir(TreeOf(r.before), n))
  {
    RunWf(r.before);
    StepKept(TreeOf(r.before), NextOf(r.before), r.q, n);
  }

  /** The root that a first mount stores: a directory that everyone may read, write and search. */
  lemma {:induction false} RootStores(uid: nat, gid: nat)
    ensures var t := RootTree(uid, gid);
            && t.Keys == {1} && t[1].uid == uid && t[1].gid == gid && t[1].mode == 0x41FF
            && t[1].size == 1 && t[1].links == 2 && t[1].target == None && t[1].dev == None
            && t[1].entries == map["." := 1]
  {
  }

  // ---------- refusals ----------

  /** Which answer a refused create, link, unlink or rmdir gets. */
  lemma {:induction false} PlainRefusals(t: Tree, next: nat, q: Request)
    requires Wf(t) && Below(t, next) && Legal(t, q.op) && !q.op.Rename?
    ensures var c, there := Check(t, next, q), q.op.dir in t;
            match q.op
            case Create(dir, name, perm, target, _) =>
              && (c == Failed(NoData) <==> !there)
              && (c == Failed(AccessError) <==> there && !EntryPermitted(t, q, dir, name))
              && (c == Panicked <==> there && EntryPermitted(t, q, dir, name) && perm & 0xA000 == 0xA000 && target == None)
              && c in {Done, Failed(NoData), Failed(AccessError), Panicked}
            case Link(ino, dir, name) =>
              && (c == Failed(NotFound) <==> !there)
              && (c == Panicked <==> there && AttrOf(dir, t[dir]) == None)
              && (c == Failed(AccessError) <==> there && AttrOf(dir, t[dir]).Some? && !EntryPermitted(t, q, dir, name))
              && (c == Failed(NoData) <==>
                    there && AttrOf(dir, t[dir]).Some? && EntryPermitted(t, q, dir, name) && ino !in t)
              && c in {Done, Failed(NotFound), Failed(NoData), Failed(AccessError), Panicked}
            case Unlink(dir, name, given) =>
              && (c == Failed(NoData) <==> !there || (MayEdit(t, dir, q.uid, q.gid) && given.Some? && given.value !in t))
              && (given == None || given == Lookup(t, dir, name) ==>
                    (c == Failed(AccessError) <==> there && !EntryPermitted(t, q, dir, name)))
              && c in {Done, Failed(NoData), Failed(AccessError)}
            case Rmdir(dir, name) =>
              && (c == Failed(NoData) <==> !there)
              && (c == Failed(NotEmpty) <==> there && !EmptyDir(t, Lookup(t, dir, name).value))
              && (c == Failed(AccessError) <==>
                    there && EmptyDir(t, Lookup(t, dir, name).value) && !EntryPermitted(t, q, dir, name))
              && c in {Done, Failed(NoData), Failed(NotEmpty), Failed(AccessError)}
            case Rename(_, _, _, _, _) => true
  {
    if q.op.dir in t {
      Open(t, q.op.dir);
      StickyBit(t[q.op.dir].mode);
      match q.op
      case Create(dir, name, perm, target, dev) => SpecialBits(perm);
      case Link(ino, dir, name) =>
      case Unlink(dir, name, _) =>
      case Rmdir(dir, name) => EmptyDirIff(t, dir, name, t[dir].entries[name]);
    }
  }

  lemma {:induction false} StickyBit(mode: Mode)
    ensures Contains(mode, S_ISVTX) <==> mode & 0x0200 != 0
  {
  }

  /** The first of the two entries that a rename changes may be changed. */
  ghost predicate OldPermitted(t: Tree, q: Request)
    requires q.op.Rename?
  {
    q.op.od in t && Lookup(t, q.op.od, q.op.on).Some? && EntryPermitted(t, q, q.op.od, q.op.on)
  }

  ghost predicate BothPermitted(t: Tree, q: Request)
    requires q.op.Rename?
  {
    OldPermitted(t, q) && q.op.nd in t && EntryPermitted(t, q, q.op.nd, q.op.nn)
  }

  /** A directory that would get a new parent may not be written. */
  ghost predicate Pinned(t: Tree, q: Request)
    requires q.op.Rename?
  {
    var m := Lookup(t, q.op.od, q.op.on);
    m.Some? && IsDir(t, m.value) && q.op.od != q.op.nd && !MayEdit(t, m.value, q.uid, q.gid)
  }

  /** The target of a move, which is only looked at in a sticky directory. */
  ghost function Loaded(t: Tree, q: Request): Option<nat>
    requires q.op.Rename?
  {
    if q.op.nd in t && t[q.op.nd].mode & 0x0200 != 0 then Lookup(t, q.op.nd, q.op.nn) else None
  }

  ghost predicate Full(t: Tree, n: Option<nat>) { n.Some? && IsDir(t, n.value) && !EmptyDir(t, n.value) }

  lemma {:induction false} RefusedOld(t: Tree, next: nat, q: Request)
    requires Wf(t) && Legal(t, q.op) && q.op.Rename? && !OldPermitted(t, q)
    ensures Check(t, next, q) == if q.op.od !in t then Failed(NoData)
                                 else if Lookup(t, q.op.od, q.op.on) == None then Failed(NotFound)
                                 else Failed(AccessError)
  {
    if q.op.od in t {
      Open(t, q.op.od);
      StickyBit(t[q.op.od].mode);
    }
  }

  lemma {:induction false} OldPasses(t: Tree, next: nat, q: Request)
    requires Wf(t) && Legal(t, q.op) && q.op.Rename? && OldPermitted(t, q)
    ensures var o := q.op;
            var m := t[o.od].entries[o.on];
            && m in t
            && Check(t, next, q) == if o.nd !in t then Failed(NoData)
                                    else if !MayEdit(t, o.nd, q.uid, q.gid) then Failed(AccessError)
                                    else CheckTarget(t, q.uid, q.gid, o.od, o.nd, o.nn, m, o.exchange)
  {
    Open(t, q.op.od);
    StickyBit(t[q.op.od].mode);
  }

  lemma {:induction false} RefusedNew(t: Tree, next: nat, q: Request)
    requires Wf(t) && Legal(t, q.op) && q.op.Rename? && OldPermitted(t, q) && !BothPermitted(t, q)
    ensures Check(t, next, q) == if q.op.nd !in t then Failed(NoData) else Failed(AccessError)
  {
    OldPasses(t, next, q);
    if q.op.nd in t {
      Open(t, q.op.nd);
      StickyBit(t[q.op.nd].mode);
    }
  }

  lemma {:induction false} RefusedTarget(t: Tree, next: nat, q: Request)
    requires Wf(t) && Legal(t, q.op) && q.op.Rename? && BothPermitted(t, q)
    ensures var target := Loaded(t, q);
            Check(t, next, q) == if q.op.exchange then (if target == None then Failed(NotFound) else Done)
                                 else if Full(t, target) then Failed(NotEmpty)
                                 else if Pinned(t, q) then Failed(AccessError)
                                 else if target.Some? && !IsDir(t, target.value) then Panicked
                                 else Done
  {
    OldPasses(t, next, q);
    Open(t, q.op.nd);
    StickyBit(t[q.op.nd].mode);
    var target := Lookup(t, q.op.nd, q.op.nn);
    if target.Some? && IsDir(t, target.value) { EmptyDirIff(t, q.op.nd, q.op.nn, target.value); }
  }

  /** Which answer a refused rename gets. Only in a sticky directory is the target of a move looked at: a directory with
      entries is refused, a file panics. */
  lemma {:induction false} RenameRefusals(t: Tree, next: nat, q: Request)
    requires Wf(t) && Legal(t, q.op) && q.op.Rename?
    ensures var c, o, target := Check(t, next, q), q.op, Loaded(t, q);
            && (c == Failed(NoData) <==> o.od !in t || (OldPermitted(t, q) && o.nd !in t))
            && (c == Failed(NotFound) <==>
                  o.od in t && (Lookup(t, o.od, o.on) == None || (BothPermitted(t, q) && o.exchange && target == None)))
            && (c == Failed(AccessError) <==>
                  || (o.od in t && Lookup(t, o.od, o.on).Some? && !OldPermitted(t, q))
                  || (OldPermitted(t, q) && o.nd in t && !BothPermitted(t, q))
                  || (BothPermitted(t, q) && !o.exchange && !Full(t, target) && Pinned(t, q)))
            && (c == Failed(NotEmpty) <==> BothPermitted(t, q) && !o.exchange && Full(t, target))
            && (c == Panicked <==>
                  BothPermitted(t, q) && !o.exchange && target.Some? && !IsDir(t, target.value) && !Pinned(t, q))
            && c in {Done, Failed(NoData), Failed(NotFound), Failed(AccessError), Failed(NotEmpty), Panicked}
  {
    if !OldPermitted(t, q) {
      RefusedOld(t, next, q);
    } else if !BothPermitted(t, q) {
      RefusedNew(t, next, q);
    } else {
      RefusedTarget(t, next, q);
    }
  }
}
