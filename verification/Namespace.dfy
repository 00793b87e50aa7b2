/** The directory tree: inodes, their named entries, and what create, link, unlink, rmdir and rename do to them. */
module Namespace {
  import opened Permission
  import opened Errors

  /** An inode's bucket; `target` is its `data` key, `entries` are its `data:` keys. */
  datatype Node = Node(mode: Mode, uid: nat, gid: nat, size: nat, links: nat, target: Option<string>, dev: Option<nat>,
                       entries: map<string, nat>)

  type Tree = map<nat, Node>

  const ROOT: nat := 1

  predicate IsDir(t: Tree, n: nat) { n in t && Contains(t[n].mode, S_IFDIR) }

  predicate Named(x: string) { x != "." && x != ".." }

  predicate Holds(t: Tree, d: nat, x: string, n: nat) { d in t && x in t[d].entries && t[d].entries[x] == n }

  function Lookup(t: Tree, d: nat, x: string): Option<nat> {
    if d in t && x in t[d].entries then Some(t[d].entries[x]) else None
  }

  /** The named entries of the whole tree that refer to n. */
  ghost function Refs(t: Tree, n: nat): set<(nat, string)> {
    set d, x | d in t && x in t[d].entries && Named(x) && t[d].entries[x] == n :: (d, x)
  }

  /** Following ".." from n reaches the root within k steps. */
  ghost predicate Up(t: Tree, n: nat, k: nat)
    decreases k
  {
    n == ROOT || (k > 0 && Lookup(t, n, "..").Some? && Up(t, Lookup(t, n, "..").value, k - 1))
  }

  ghost predicate Climbs(t: Tree, n: nat, a: nat, k: nat)
    decreases k
  {
    n == a || (k > 0 && Lookup(t, n, "..").Some? && Climbs(t, Lookup(t, n, "..").value, a, k - 1))
  }

  /** n is a or somewhere below it. */
  ghost predicate Inside(t: Tree, n: nat, a: nat) { exists k :: Climbs(t, n, a, k) }

  // ---------- well-formed trees ----------

  ghost predicate LiveEntries(t: Tree, n: nat)
    requires n in t
  {
    forall x :: x in t[n].entries ==> t[n].entries[x] in t
  }

  ghost predicate Rooted(t: Tree, n: nat) { exists k :: Up(t, n, k) }

  /** The one named entry that refers to directory n is in p. */
  ghost predicate OnlyIn(t: Tree, n: nat, p: nat) { exists x :: Refs(t, n) == {(p, x)} }

  ghost predicate DirOk(t: Tree, n: nat)
    requires n in t
  {
    && Lookup(t, n, ".") == Some(n)
    && t[n].size == |t[n].entries|
    && Rooted(t, n)
    && (if n == ROOT then Lookup(t, n, "..") == None && Refs(t, n) == {}
        else Lookup(t, n, "..").Some? && OnlyIn(t, n, Lookup(t, n, "..").value))
  }

  ghost predicate FileOk(t: Tree, n: nat)
    requires n in t
  {
    t[n].entries == map[] && t[n].links == |Refs(t, n)| && t[n].links > 0
  }

  ghost predicate NodeOk(t: Tree, n: nat) {
    n in t && LiveEntries(t, n) && if IsDir(t, n) then DirOk(t, n) else FileOk(t, n)
  }

  ghost function Good(t: Tree): iset<nat> { iset n: nat | NodeOk(t, n) }

  ghost predicate Wf(t: Tree) {
    IsDir(t, ROOT) && forall n {:trigger n in Good(t)} :: n in t ==> n in Good(t)
  }

  /** No inode has a number that is still to be handed out. */
  ghost predicate Below(t: Tree, next: nat) { forall n :: n in t ==> n < next }

  // ---------- what the operations do ----------

  /** Panicked: an unwrap failed; as with an error, the transaction is dropped and nothing changes. */
  datatype Result = Done | Failed(error: DbfsError) | Panicked

  function Less1(size: nat): nat { if size == 0 then 0 else size - 1 }

  function Attach(t: Tree, d: nat, x: string, n: nat): Tree
    requires d in t
  {
    t[d := t[d].(entries := t[d].entries[x := n], size := t[d].size + 1)]
  }

  function Detach(t: Tree, d: nat, x: string): Tree
    requires d in t
  {
    t[d := t[d].(entries := t[d].entries - {x}, size := Less1(t[d].size))]
  }

  function Put(t: Tree, d: nat, x: string, n: nat): Tree
    requires d in t
  {
    t[d := t[d].(entries := t[d].entries[x := n])]
  }

  /** The write check on a directory. */
  predicate MayEdit(t: Tree, d: nat, uid: nat, gid: nat)
    requires d in t
  {
    MayWrite(t[d].uid, t[d].gid, t[d].mode, uid, gid)
  }

  predicate Sticky(t: Tree, d: nat)
    requires d in t
  {
    Contains(t[d].mode, S_ISVTX)
  }

  /** Who may take inode n out of directory d, or put something in its place, if d is sticky. */
  predicate MayRemove(t: Tree, d: nat, n: nat, uid: nat)
    requires d in t && n in t
  {
    Sticky(t, d) && uid != 0 && uid != t[d].uid ==> uid == t[n].uid
  }

  predicate IsSpecial(perm: Mode) {
    Contains(perm, S_IFSOCK) || Contains(perm, S_IFCHR) || Contains(perm, S_IFBLK) || Contains(perm, S_IFIFO)
  }

  function NewMode(parent: Mode, perm: Mode, uid: nat): Mode {
    var mode := if uid != 0 then Without(Without(perm, S_ISUID), S_ISGID) else perm;
    if Contains(perm, S_IFDIR) && Contains(parent, S_IFDIR) then mode | S_ISGID else mode
  }

  /** hard_links and size of a new inode. The branch for symlinks is never reached: their code holds that of a
      character device. */
  function NewCounts(perm: Mode): (nat, nat) {
    if IsSpecial(perm) then (1, 0) else if Contains(perm, S_IFDIR) then (2, 2) else (1, 0)
  }

  function NewNode(parent: Node, dir: nat, ino: nat, perm: Mode, uid: nat, gid: nat, target: Option<string>,
                   dev: Option<nat>): Node
  {
    Node(NewMode(parent.mode, perm, uid), uid, if Contains(perm, S_ISGID) then parent.gid else gid,
         NewCounts(perm).1, NewCounts(perm).0,
         if Contains(perm, S_IFLNK) then target else None, if IsSpecial(perm) then dev else None,
         if Contains(perm, S_IFDIR) then map["." := ino, ".." := dir] else map[])
  }

  function CreateTree(t: Tree, dir: nat, name: string, ino: nat, perm: Mode, uid: nat, gid: nat, target: Option<string>,
                      dev: Option<nat>): Tree
    requires dir in t
  {
    Attach(t, dir, name, ino)[ino := NewNode(t[dir], dir, ino, perm, uid, gid, target, dev)]
  }

  function LinkTree(t: Tree, ino: nat, dir: nat, name: string): Tree
    requires dir in t && ino in t
  {
    var t1 := Attach(t, dir, name, ino);
    t1[ino := t1[ino].(links := t1[ino].links + 1)]
  }

  function UnlinkTree(t: Tree, dir: nat, name: string, n: nat): Tree
    requires dir in t && n in t
  {
    var t1 := Detach(t, dir, name);
    if t[n].links == 1 then t1 - {n} else t1[n := t1[n].(links := Less1(t1[n].links))]
  }

  function RmdirTree(t: Tree, dir: nat, name: string, n: nat): Tree
    requires dir in t
  {
    Detach(t, dir, name) - {n}
  }

  function ExchangeTree(t: Tree, od: nat, on: string, nd: nat, nn: string, m: nat, target: nat): Tree
    requires od in t && nd in t && m in t && target in t
  {
    var t1 := Put(Put(t, nd, nn, m), od, on, target);
    var t2 := if IsDir(t, m) then Put(t1, m, ".", nd) else t1;
    if IsDir(t, target) then Put(t2, target, "..", od) else t2
  }

  function MoveTree(t: Tree, od: nat, on: string, nd: nat, nn: string, m: nat, target: Option<nat>): Tree
    requires od in t && nd in t && m in t
    requires target.Some? ==> target.value != od && target.value != nd && target.value != m
  {
    var newSize := if target.Some? then Less1(t[nd].size) else t[nd].size;
    var t1 := if target.Some? then t[nd := t[nd].(entries := t[nd].entries - {nn})] - {target.value} else t;
    var t2 := Detach(t1, od, on);
    var t3 := t2[nd := t2[nd].(entries := t2[nd].entries[nn := m], size := if od == nd then newSize else newSize + 1)];
    if IsDir(t, m) then Put(t3, m, "..", nd) else t3
  }

  // ---------- attributes ----------

  datatype Attr = Attr(ino: nat, size: nat, kind: FileKind, perm: Mode, nlink: nat, uid: nat, gid: nat, rdev: nat)

  predicate IsDevice(kind: FileKind) { kind == CharDevice || kind == BlockDevice }

  /** dbfs_common_attr. It panics for a mode without a type, and for a device without a device number. */
  function AttrOf(n: nat, node: Node): Option<Attr> {
    match KindOf(node.mode)
    case None => None
    case Some(kind) =>
      if IsDevice(kind) && node.dev.None? then None
      else Some(Attr(n, node.size, kind, node.mode, node.links, node.uid, node.gid,
                     if IsDevice(kind) then node.dev.value else 0))
  }

  /** What a create answers after its commit, from the permission that it was given. */
  function CreateReply(n: nat, perm: Mode, node: Node): Option<Attr> {
    match KindOf(perm)
    case None => None
    case Some(kind) =>
      Some(Attr(n, node.size, kind, node.mode, node.links, node.uid, node.gid, if node.dev.Some? then node.dev.value else 0))
  }
}
