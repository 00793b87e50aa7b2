/** Whole runs of namespace operations, from a fresh root directory. */
module TreeRuns {
  import opened Permission
  import opened Errors
  import opened Namespace
  import opened TreeInvariant
  import opened TreeRename
  import opened TreeSteps

  /** What dbfs_common_root_inode stores: a directory for everyone with ".", without "..", of size 1. */
  function RootTree(uid: nat, gid: nat): Tree {
    map[ROOT := Node(S_IFDIR | PERM_BITS, uid, gid, 1, 2, None, None, map["." := ROOT])]
  }

  /** A run, with the tree and the inode number counter after each request. */
  datatype Run = Begin(uid: nat, gid: nat) | Then(before: Run, q: Request, tree: Tree, next: nat)

  function TreeOf(r: Run): Tree {
    match r case Begin(uid, gid) => RootTree(uid, gid) case Then(_, _, t, _) => t
  }

  function NextOf(r: Run): nat {
    match r case Begin(_, _) => ROOT + 1 case Then(_, _, _, next) => next
  }

  ghost predicate IsRun(r: Run) {
    match r
    case Begin(_, _) => true
    case Then(b, q, t, next) =>
      && IsRun(b) && Legal(TreeOf(b), q.op) && (Check(TreeOf(b), NextOf(b), q) == Done ==> Sound(TreeOf(b), q.op))
      && ((Check(TreeOf(b), NextOf(b), q) == Done ==> DeletesOther(TreeOf(b), q.op)) ==> t == After(TreeOf(b), NextOf(b), q))
      && next == NextAfter(NextOf(b), q)
  }

  lemma {:induction false} RootWf(uid: nat, gid: nat)
    ensures Wf(RootTree(uid, gid)) && Below(RootTree(uid, gid), ROOT + 1)
  {
    var t := RootTree(uid, gid);
    assert Contains(S_IFDIR | PERM_BITS, S_IFDIR);
    SizeMore(map[], ".", ROOT);
    assert t[ROOT].entries == (map[])["." := ROOT];
    if r :| r in Refs(t, ROOT) { InRefs(t, ROOT, r.0, r.1); }
    assert Up(t, ROOT, 0);
    assert NodeOk(t, ROOT);
  }

  /** Over every run of legal, sound operations: every entry names a live inode, "." and ".." are what they should be,
      every directory has one named entry and a way up to the root, sizes and link counts count the entries, and the
      number that the next create takes is not in use. */
  lemma {:induction false} RunWf(r: Run)
    requires IsRun(r)
    ensures Wf(TreeOf(r)) && Below(TreeOf(r), NextOf(r))
  {
    match r
    case Begin(uid, gid) => RootWf(uid, gid);
    case Then(b, q, t, next) =>
      RunWf(b);
      StepKeepsIff(TreeOf(b), NextOf(b), q);
      StepBelow(TreeOf(b), NextOf(b), q);
  }

  /** No create of a run is refused for its number, and an inode goes exactly with its last named entry. */
  lemma {:induction false} RunReclaims(r: Run, n: nat)
    requires IsRun(r) && r.Then? && n != ROOT
    ensures n in TreeOf(r) <==> Refs(TreeOf(r), n) != {}
    ensures n in TreeOf(r.before) && n !in r.tree <==> Refs(TreeOf(r.before), n) != {} && Refs(r.tree, n) == {}
    ensures Check(TreeOf(r.before), NextOf(r.before), r.q) != Failed(FileExists)
  {
    RunWf(r);
    RunWf(r.before);
    LiveIffReferenced(TreeOf(r), n);
    LiveIffReferenced(TreeOf(r.before), n);
    StepBelow(TreeOf(r.before), NextOf(r.before), r.q);
  }

  // ---------- permissions ----------

  /** What it takes to change the entry x of directory d: the write bit of the requester's class on d, or being root;
      and, to take away or replace an entry of a sticky directory, owning the directory or the inode. */
  ghost predicate EntryPermitted(t: Tree, q: Request, d: nat, x: string)
    requires d in t
  {
    && MayEdit(t, d, q.uid, q.gid)
    && (Lookup(t, d, x).Some? && t[d].mode & 0x0200 != 0 && q.uid != 0 ==>
          q.uid == t[d].uid || (Lookup(t, d, x).value in t && q.uid == t[Lookup(t, d, x).value].uid))
  }

  ghost predicate Permitted(t: Tree, t': Tree, q: Request) {
    forall d: nat, x :: d in t && Named(x) && Lookup(t', d, x) != Lookup(t, d, x) ==> EntryPermitted(t, q, d, x)
  }

  lemma {:induction false} MoveNamed(t: Tree, od: nat, on: string, nd: nat, nn: string, m: nat, d: nat, x: string)
    requires Wf(t) && Movable(t, od, on, nd, nn, m) && Named(x)
    ensures Lookup(MoveTree(t, od, on, nd, nn, m, None), d, x) ==
            if d == nd && x == nn then Some(m) else if d == od && x == on then None else Lookup(t, d, x)
  {
    Apart(t, od, on, nd, nn, m);
  }

  lemma {:induction false} ExchangeNamed(t: Tree, t': Tree, od: nat, on: string, nd: nat, nn: string, m: nat,
                                         target: nat, d: nat, x: string)
    requires Wf(t) && Exchanges(t, t', od, on, nd, nn, m, target) && Named(x)
    ensures Lookup(t', d, x) ==
            if d == nd && x == nn then Some(m) else if d == od && x == on then Some(target) else Lookup(t, d, x)
  {
    ExchangeApart(t, t', od, on, nd, nn, m, target);
  }

  /** The named entries that a rename changes are its two. */
  lemma {:induction false} RenameChanges(t: Tree, q: Request, od: nat, on: string, nd: nat, nn: string,
                                         exchange: bool, d: nat, x: string)
    requires Wf(t) && q.op == Rename(od, on, nd, nn, exchange) && Legal(t, q.op) && Named(x)
    requires CheckRename(t, q.uid, q.gid, od, on, nd, nn, exchange) == Done && DeletesOther(t, q.op)
    requires Lookup(AfterRename(t, od, on, nd, nn, exchange, q.uid, q.gid), d, x) != Lookup(t, d, x)
    ensures (d == od && x == on) || (d == nd && x == nn)
  {
    var t' := AfterRename(t, od, on, nd, nn, exchange, q.uid, q.gid);
    var m, target := t[od].entries[on], Target(t, nd, nn);
    if exchange {
      ExchangeNamed(t, t', od, on, nd, nn, m, target.value, d, x);
    } else if target.Some? {
      TargetApart(t, od, on, nd, nn, m, target.value);
      MoveOverLookup(t, t', od, on, nd, nn, m, target.value, d, x);
      EmptyIff(t, target.value);
    } else {
      MoveNamed(t, od, on, nd, nn, m, d, x);
    }
  }

  lemma {:induction false} RenamePermitted(t: Tree, q: Request, d: nat, x: string)
    requires Wf(t) && q.op.Rename? && Legal(t, q.op) && Check(t, 0, q) == Done && d in t
    requires (d == q.op.od && x == q.op.on) || (d == q.op.nd && x == q.op.nn)
    ensures EntryPermitted(t, q, d, x)
  {
  }

  /** The named entries that any other operation changes are the one it names. */
  lemma {:induction false} PlainChanges(t: Tree, next: nat, q: Request, d: nat, x: string)
    requires Wf(t) && Below(t, next) && Legal(t, q.op) && !q.op.Rename? && (q.op.Unlink? ==> Sound(t, q.op))
    requires Named(x) && Check(t, next, q) == Done && d in t
    requires Lookup(After(t, next, q), d, x) != Lookup(t, d, x)
    ensures d == q.op.dir && x == q.op.name
  {
    match q.op
    case Create(dir, name, perm, target, dev) =>
    case Link(ino, dir, name) =>
    case Unlink(dir, name, _) => Open(t, t[dir].entries[name]);
    case Rmdir(dir, name) =>
      ChildDir(t, dir, name, t[dir].entries[name]);
      EmptyIff(t, t[dir].entries[name]);
  }

  lemma {:induction false} PlainPermitted(t: Tree, next: nat, q: Request)
    requires Wf(t) && Legal(t, q.op) && !q.op.Rename? && (q.op.Unlink? ==> Sound(t, q.op)) && Check(t, next, q) == Done
    ensures EntryPermitted(t, q, q.op.dir, q.op.name)
  {
  }

  lemma {:induction false} StepPermitted(t: Tree, next: nat, q: Request)
    requires Wf(t) && Below(t, next) && Legal(t, q.op)
    requires q.op.Unlink? && Check(t, next, q) == Done ==> Sound(t, q.op)
    ensures Check(t, next, q) == Done ==> DeletesOther(t, q.op)
    ensures Permitted(t, After(t, next, q), q)
  {
    if Check(t, next, q) == Done { LegalDeletesOther(t, next, q); }
    var t' := After(t, next, q);
    forall d: nat, x | d in t && Named(x) && Lookup(t', d, x) != Lookup(t, d, x) ensures EntryPermitted(t, q, d, x) {
      if q.op.Rename? {
        RenameChanges(t, q, q.op.od, q.op.on, q.op.nd, q.op.nn, q.op.exchange, d, x);
        RenamePermitted(t, q, d, x);
      } else {
        PlainChanges(t, next, q, d, x);
        PlainPermitted(t, next, q);
      }
    }
  }

  /** Every step of every run changes only entries that its requester may change. */
  lemma {:induction false} RunPermitted(r: Run)
    requires IsRun(r) && r.Then?
    ensures Permitted(TreeOf(r.before), r.tree, r.q)
  {
    RunWf(r.before);
    StepPermitted(TreeOf(r.before), NextOf(r.before), r.q);
  }

  // ---------- what a move does ----------

  /** After a successful move the new name stands for the moved inode, the old one for nothing, and every other lookup
      in a directory that is still there gives what it gave, except the ".." of a moved directory. */
  lemma {:induction false} MoveEffect(t: Tree, next: nat, q: Request, d: nat, x: string)
    requires Wf(t) && q.op.Rename? && !q.op.exchange && Legal(t, q.op) && Sound(t, q.op) && Check(t, next, q) == Done
    ensures DeletesOther(t, q.op)
    ensures var t', m := After(t, next, q), Lookup(t, q.op.od, q.op.on);
            && Lookup(t', q.op.nd, q.op.nn) == m
            && Lookup(t', q.op.od, q.op.on) == None
            && (d in t' && (d, x) != (q.op.nd, q.op.nn) && (d, x) != (q.op.od, q.op.on) ==>
                  Lookup(t', d, x) == if Some(d) == m && x == ".." && IsDir(t, d) then Some(q.op.nd) else Lookup(t, d, x))
  {
    LegalDeletesOther(t, next, q);
    var o, t' := q.op, After(t, next, q);
    var m, target := t[o.od].entries[o.on], Target(t, o.nd, o.nn);
    if target.Some? {
      TargetApart(t, o.od, o.on, o.nd, o.nn, m, target.value);
      MoveOverLookup(t, t', o.od, o.on, o.nd, o.nn, m, target.value, d, x);
      MoveOverLookup(t, t', o.od, o.on, o.nd, o.nn, m, target.value, o.nd, o.nn);
      MoveOverLookup(t, t', o.od, o.on, o.nd, o.nn, m, target.value, o.od, o.on);
    } else {
      MoveLookup(t, t', o.od, o.on, o.nd, o.nn, m, d, x);
      MoveLookup(t, t', o.od, o.on, o.nd, o.nn, m, o.nd, o.nn);
      MoveLookup(t, t', o.od, o.on, o.nd, o.nn, m, o.od, o.on);
    }
  }

  // ---------- exchanging back ----------

  /** A second exchange of two files that is not refused restores every inode and every entry. */
  lemma {:induction false} ExchangeBack(t: Tree, next: nat, q: Request)
    requires Wf(t) && q.op.Rename? && q.op.exchange && Legal(t, q.op) && Check(t, next, q) == Done
    requires !IsDir(t, Lookup(t, q.op.od, q.op.on).value) && !IsDir(t, Lookup(t, q.op.nd, q.op.nn).value)
    ensures var t' := After(t, next, q);
            (Check(t', next, q) == Done ==> After(t', next, q) == t) && (q.uid == 0 ==> Check(t', next, q) == Done)
  {
    var o := q.op;
    var t' := After(t, next, q);
    var m, target := t[o.od].entries[o.on], Lookup(t, o.nd, o.nn).value;
    ExchangeApart(t, t', o.od, o.on, o.nd, o.nn, m, target);
    ExchangeTwice(t, t', o.od, o.on, o.nd, o.nn, m, target);
    ExchangeLookup(t, t', o.od, o.on, o.nd, o.nn, m, target, ROOT, ".");
  }

  // ---------- what is refused ----------

  /** The directories and inodes that a request speaks of are there. */
  ghost predicate Present(t: Tree, op: Op) {
    match op
    case Create(dir, _, _, _, _) => dir in t
    case Link(ino, dir, _) => dir in t && ino in t
    case Unlink(dir, _, _) => dir in t
    case Rmdir(dir, _) => dir in t
    case Rename(od, on, nd, _, _) => od in t && nd in t && Lookup(t, od, on).Some?
  }

  ghost predicate EmptyDir(t: Tree, n: nat) {
    IsDir(t, n) && forall x :: Named(x) ==> x !in t[n].entries
  }

  /** What a request needs, said entry by entry. A target that a move would replace has to be an empty directory if
      its directory is sticky; otherwise it is not looked at. */
  ghost predicate Allowed(t: Tree, q: Request)
    requires Present(t, q.op)
  {
    match q.op
    case Create(dir, name, perm, target, _) => EntryPermitted(t, q, dir, name) && (Contains(perm, S_IFLNK) ==> target.Some?)
    case Link(_, dir, name) => EntryPermitted(t, q, dir, name) && AttrOf(dir, t[dir]).Some?
    case Unlink(dir, name, _) => EntryPermitted(t, q, dir, name)
    case Rmdir(dir, name) => EntryPermitted(t, q, dir, name) && Lookup(t, dir, name).Some? && EmptyDir(t, Lookup(t, dir, name).value)
    case Rename(od, on, nd, nn, exchange) =>
      && EntryPermitted(t, q, od, on) && EntryPermitted(t, q, nd, nn)
      && if exchange then Target(t, nd, nn).Some?
         else && (Target(t, nd, nn).Some? ==> EmptyDir(t, Target(t, nd, nn).value))
              && (IsDir(t, Lookup(t, od, on).value) && od != nd ==> MayEdit(t, Lookup(t, od, on).value, q.uid, q.gid))
  }

  lemma {:induction false} EmptyDirIff(t: Tree, d: nat, x: string, n: nat)
    requires Wf(t) && Named(x) && Holds(t, d, x, n) && IsDir(t, n)
    ensures EmptyDir(t, n) <==> t[n].size <= 2
  {
    ChildDir(t, d, x, n);
    EmptyIff(t, n);
  }

  /** A legal request is carried out exactly if it is allowed, and a directory is refused as NotEmpty only if it has
      named entries. */
  lemma {:induction false} DoneIffAllowed(t: Tree, next: nat, q: Request)
    requires Wf(t) && Below(t, next) && Legal(t, q.op) && Present(t, q.op) && (q.op.Unlink? ==> Sound(t, q.op))
    ensures Check(t, next, q) == Done <==> Allowed(t, q)
    ensures q.op.Rmdir? ==> (Check(t, next, q) == Failed(NotEmpty) <==> !EmptyDir(t, Lookup(t, q.op.dir, q.op.name).value))
    ensures q.op.Create? || q.op.Unlink? || (q.op.Link? && AttrOf(q.op.dir, t[q.op.dir]).Some?) ==>
              (Check(t, next, q) == Failed(AccessError) <==> !EntryPermitted(t, q, q.op.dir, q.op.name))
  {
    match q.op
    case Create(dir, name, _, _, _) =>
    case Link(ino, dir, name) =>
    case Unlink(dir, name, _) => Open(t, dir);
    case Rmdir(dir, name) =>
      Open(t, dir);
      EmptyDirIff(t, dir, name, t[dir].entries[name]);
    case Rename(od, on, nd, nn, exchange) =>
      Open(t, od);
      Open(t, nd);
      RenameDoneIff(t, next, q);
  }

  lemma {:induction false} RenameDoneIff(t: Tree, next: nat, q: Request)
    requires Wf(t) && Legal(t, q.op) && Present(t, q.op) && q.op.Rename?
    ensures Check(t, next, q) == Done <==> Allowed(t, q)
  {
    var o := q.op;
    Open(t, o.od);
    Open(t, o.nd);
    var target := Target(t, o.nd, o.nn);
    if target.Some? && IsDir(t, target.value) { EmptyDirIff(t, o.nd, o.nn, target.value); }
  }
}
