/** The namespace operations as steps: what they check, in which order, and what each step keeps. */
module TreeSteps {
  import opened Permission
  import opened Errors
  import opened Namespace
  import opened TreeInvariant
  import opened TreeRename

  datatype Op =
    | Create(dir: nat, name: string, perm: Mode, target: Option<string>, dev: Option<nat>)
    | Link(ino: nat, dir: nat, name: string)
    | Unlink(dir: nat, name: string, given: Option<nat>)
    | Rmdir(dir: nat, name: string)
    | Rename(od: nat, on: string, nd: nat, nn: string, exchange: bool)

  /** An operation and who asks for it. */
  datatype Request = Request(uid: nat, gid: nat, op: Op)

  // ---------- the checks ----------

  /** A symlink without a target panics. */
  function CheckCreate(t: Tree, next: nat, uid: nat, gid: nat, dir: nat, perm: Mode, target: Option<string>): Result {
    if dir !in t then Failed(NoData)
    else if !MayEdit(t, dir, uid, gid) then Failed(AccessError)
    else if next in t then Failed(FileExists)
    else if Contains(perm, S_IFLNK) && target.None? then Panicked
    else Done
  }

  function CheckLink(t: Tree, uid: nat, gid: nat, ino: nat, dir: nat): Result {
    if dir !in t then Failed(NotFound)
    else if AttrOf(dir, t[dir]).None? then Panicked
    else if !MayEdit(t, dir, uid, gid) then Failed(AccessError)
    else if ino !in t then Failed(NoData)
    else Done
  }

  /** The inode that an unlink works on: the caller's, if it gives one, or the entry's. */
  function UnlinkNumber(t: Tree, dir: nat, name: string, ino: Option<nat>): nat
    requires dir in t && name in t[dir].entries
  {
    if ino.Some? then ino.value else t[dir].entries[name]
  }

  function CheckUnlink(t: Tree, uid: nat, gid: nat, dir: nat, name: string, ino: Option<nat>): Result {
    if dir !in t then Failed(NoData)
    else if name !in t[dir].entries then Panicked
    else if !MayEdit(t, dir, uid, gid) then Failed(AccessError)
    else if UnlinkNumber(t, dir, name, ino) !in t then (if ino.Some? then Failed(NoData) else Failed(NotFound))
    else if !MayRemove(t, dir, UnlinkNumber(t, dir, name, ino), uid) then Failed(AccessError)
    else Done
  }

  function CheckRmdir(t: Tree, uid: nat, gid: nat, dir: nat, name: string): Result {
    if dir !in t then Failed(NoData)
    else if name !in t[dir].entries || t[dir].entries[name] !in t then Panicked
    else if t[t[dir].entries[name]].size > 2 then Failed(NotEmpty)
    else if !MayEdit(t, dir, uid, gid) then Failed(AccessError)
    else if !MayRemove(t, dir, t[dir].entries[name], uid) then Failed(AccessError)
    else Done
  }

  /** The target of a rename is only looked at if its directory is sticky. */
  function Target(t: Tree, nd: nat, nn: string): Option<nat> {
    if nd in t && Sticky(t, nd) then Lookup(t, nd, nn) else None
  }

  /** Moving a directory to a new parent changes its ".." and needs the write permission on it. */
  predicate MayReparent(t: Tree, m: nat, od: nat, nd: nat, uid: nat, gid: nat)
    requires m in t
  {
    IsDir(t, m) && od != nd ==> MayEdit(t, m, uid, gid)
  }

  function CheckRename(t: Tree, uid: nat, gid: nat, od: nat, on: string, nd: nat, nn: string, exchange: bool): Result {
    if od !in t then Failed(NoData)
    else if on !in t[od].entries then Failed(NotFound)
    else if !MayEdit(t, od, uid, gid) then Failed(AccessError)
    else
      var m := t[od].entries[on];
      if m !in t then Panicked
      else if !MayRemove(t, od, m, uid) then Failed(AccessError)
      else if nd !in t then Failed(NoData)
      else if !MayEdit(t, nd, uid, gid) then Failed(AccessError)
      else CheckTarget(t, uid, gid, od, nd, nn, m, exchange)
  }

  /** A target that is no directory has its link count read as a usize, from four bytes: that panics. */
  function CheckTarget(t: Tree, uid: nat, gid: nat, od: nat, nd: nat, nn: string, m: nat, exchange: bool): Result
    requires nd in t && m in t
  {
    match Target(t, nd, nn)
    case None =>
      if exchange then Failed(NotFound)
      else if !MayReparent(t, m, od, nd, uid, gid) then Failed(AccessError)
      else Done
    case Some(target) =>
      if target !in t then Panicked
      else if !MayRemove(t, nd, target, uid) then Failed(AccessError)
      else if exchange then Done
      else if IsDir(t, target) && t[target].size > 2 then Failed(NotEmpty)
      else if !MayReparent(t, m, od, nd, uid, gid) then Failed(AccessError)
      else if !IsDir(t, target) then Panicked
      else Done
  }

  function Check(t: Tree, next: nat, q: Request): Result {
    match q.op
    case Create(dir, _, perm, target, _) => CheckCreate(t, next, q.uid, q.gid, dir, perm, target)
    case Link(ino, dir, _) => CheckLink(t, q.uid, q.gid, ino, dir)
    case Unlink(dir, name, ino) => CheckUnlink(t, q.uid, q.gid, dir, name, ino)
    case Rmdir(dir, name) => CheckRmdir(t, q.uid, q.gid, dir, name)
    case Rename(od, on, nd, nn, exchange) => CheckRename(t, q.uid, q.gid, od, on, nd, nn, exchange)
  }

  // ---------- the steps ----------

  ghost predicate DirIfThere(t: Tree, d: nat) { d in t ==> IsDir(t, d) }

  /** What the virtual file system above guarantees of its calls. */
  ghost predicate Legal(t: Tree, op: Op) {
    match op
    case Create(dir, name, _, _, _) => Named(name) && DirIfThere(t, dir) && Lookup(t, dir, name) == None
    case Link(ino, dir, name) => Named(name) && DirIfThere(t, dir) && Lookup(t, dir, name) == None && !IsDir(t, ino)
    case Unlink(dir, name, _) =>
      Named(name) && DirIfThere(t, dir) && (dir in t ==> Lookup(t, dir, name).Some? && !IsDir(t, Lookup(t, dir, name).value))
    case Rmdir(dir, name) =>
      Named(name) && DirIfThere(t, dir) && (dir in t ==> Lookup(t, dir, name).Some? && IsDir(t, Lookup(t, dir, name).value))
    case Rename(od, on, nd, nn, exchange) =>
      && Named(on) && Named(nn) && DirIfThere(t, od) && DirIfThere(t, nd) && (od, on) != (nd, nn)
      && NotUnder(t, nd, Lookup(t, od, on)) && (exchange ==> NotUnder(t, od, Lookup(t, nd, nn)))
  }

  /** d is not inside the directory m. */
  ghost predicate NotUnder(t: Tree, d: nat, m: Option<nat>) {
    m.Some? && IsDir(t, m.value) ==> !Inside(t, d, m.value)
  }

  /** The cases in which a legal operation keeps the tree well-formed. */
  ghost predicate Sound(t: Tree, op: Op) {
    match op
    case Create(_, _, perm, _, _) => !(IsSpecial(perm) && Contains(perm, S_IFDIR))
    case Unlink(dir, name, ino) => ino.Some? ==> Lookup(t, dir, name) == ino
    case Rename(od, on, nd, nn, true) => Lookup(t, od, on).Some? ==> !IsDir(t, Lookup(t, od, on).value)
    case Rename(od, on, nd, nn, false) => nd in t ==> Sticky(t, nd) || Lookup(t, nd, nn) == None
    case _ => true
  }

  /** The directory that a move deletes is none of the others that it works on. In a well-formed tree it never is. */
  predicate DeletesOther(t: Tree, op: Op) {
    match op
    case Rename(od, on, nd, nn, false) =>
      var target := Target(t, nd, nn);
      target.Some? ==> target.value != od && target.value != nd && target != Lookup(t, od, on)
    case _ => true
  }

  lemma {:induction false} LegalDeletesOther(t: Tree, next: nat, q: Request)
    requires Wf(t) && Legal(t, q.op) && Check(t, next, q) == Done
    ensures DeletesOther(t, q.op)
  {
    match q.op
    case Rename(od, on, nd, nn, false) =>
      var target := Target(t, nd, nn);
      if target.Some? { TargetApart(t, od, on, nd, nn, t[od].entries[on], target.value); }
    case _ =>
  }

  function AfterRename(t: Tree, od: nat, on: string, nd: nat, nn: string, exchange: bool, uid: nat, gid: nat): Tree
    requires CheckRename(t, uid, gid, od, on, nd, nn, exchange) == Done && DeletesOther(t, Rename(od, on, nd, nn, exchange))
  {
    var m, target := t[od].entries[on], Target(t, nd, nn);
    if exchange then ExchangeTree(t, od, on, nd, nn, m, target.value) else MoveTree(t, od, on, nd, nn, m, target)
  }

  /** The tree after the operation: only a successful one commits its transaction. */
  function After(t: Tree, next: nat, q: Request): Tree
    requires Check(t, next, q) == Done ==> DeletesOther(t, q.op)
  {
    if Check(t, next, q) != Done then t
    else
      match q.op
      case Create(dir, name, perm, target, dev) => CreateTree(t, dir, name, next, perm, q.uid, q.gid, target, dev)
      case Link(ino, dir, name) => LinkTree(t, ino, dir, name)
      case Unlink(dir, name, ino) => UnlinkTree(t, dir, name, UnlinkNumber(t, dir, name, ino))
      case Rmdir(dir, name) => RmdirTree(t, dir, name, t[dir].entries[name])
      case Rename(od, on, nd, nn, exchange) => AfterRename(t, od, on, nd, nn, exchange, q.uid, q.gid)
  }

  /** A create takes its number before it looks at anything, and keeps it if it fails. */
  function NextAfter(next: nat, q: Request): nat { if q.op.Create? then next + 1 else next }

  // ---------- what a step keeps ----------

  lemma {:induction false} RenameSoundIff(t: Tree, od: nat, on: string, nd: nat, nn: string, exchange: bool,
                                          uid: nat, gid: nat)
    requires Wf(t) && Legal(t, Rename(od, on, nd, nn, exchange)) && CheckRename(t, uid, gid, od, on, nd, nn, exchange) == Done
    ensures DeletesOther(t, Rename(od, on, nd, nn, exchange))
    ensures Wf(AfterRename(t, od, on, nd, nn, exchange, uid, gid)) <==> Sound(t, Rename(od, on, nd, nn, exchange))
  {
    LegalDeletesOther(t, 0, Request(uid, gid, Rename(od, on, nd, nn, exchange)));
    var t' := AfterRename(t, od, on, nd, nn, exchange, uid, gid);
    var m, target := t[od].entries[on], Target(t, nd, nn);
    if exchange {
      if IsDir(t, m) {
        ExchangeBreaks(t, t', od, on, nd, nn, m, target.value);
      } else {
        ExchangeKeeps(t, t', od, on, nd, nn, m, target.value);
      }
    } else if target.Some? {
      TargetApart(t, od, on, nd, nn, m, target.value);
      MoveOverKeeps(t, t', od, on, nd, nn, m, target.value);
    } else if nn in t[nd].entries {
      MoveBreaks(t, od, on, nd, nn, m);
    } else {
      MoveKeeps(t, t', od, on, nd, nn, m);
    }
  }

  /** A successful legal operation keeps the tree well-formed exactly in the sound cases; a failed one keeps it always. */
  lemma {:induction false} StepKeepsIff(t: Tree, next: nat, q: Request)
    requires Wf(t) && Legal(t, q.op)
    ensures Check(t, next, q) == Done ==> DeletesOther(t, q.op)
    ensures Wf(After(t, next, q)) <==> (Check(t, next, q) == Done ==> Sound(t, q.op))
  {
    if Check(t, next, q) == Done {
      LegalDeletesOther(t, next, q);
      var t' := After(t, next, q);
      match q.op
      case Create(dir, name, perm, target, dev) =>
        CreateKeepsIff(t, dir, name, next, perm, q.uid, q.gid, target, dev);
      case Link(ino, dir, name) => LinkKeeps(t, t', ino, dir, name);
      case Unlink(dir, name, ino) =>
        var n, number := t[dir].entries[name], UnlinkNumber(t, dir, name, ino);
        Open(t, dir);
        if number == n { UnlinkKeeps(t, t', dir, name, n); } else { UnlinkBreaks(t, dir, name, n, number); }
      case Rmdir(dir, name) => RmdirKeeps(t, t', dir, name, t[dir].entries[name]);
      case Rename(od, on, nd, nn, exchange) => RenameSoundIff(t, od, on, nd, nn, exchange, q.uid, q.gid);
    }
  }

  lemma {:induction false} StepBelow(t: Tree, next: nat, q: Request)
    requires Wf(t) && Legal(t, q.op) && Below(t, next)
    ensures Check(t, next, q) == Done ==> DeletesOther(t, q.op)
    ensures Below(After(t, next, q), NextAfter(next, q))
    ensures q.op.Create? ==> Check(t, next, q) != Failed(FileExists)
  {
    if Check(t, next, q) == Done { LegalDeletesOther(t, next, q); }
  }

  /** Apart from the root, an inode is there exactly as long as a named entry refers to it. */
  lemma {:induction false} LiveIffReferenced(t: Tree, n: nat)
    requires Wf(t) && n != ROOT
    ensures n in t <==> Refs(t, n) != {}
  {
    if n in t { Open(t, n); } else { NoRefs(t, n); }
  }
}
