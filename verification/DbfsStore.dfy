/** The inode buckets as they are stored, entries holding printed inode numbers, and the operations that edit them. */
module DbfsStore {
  import opened Permission
  import opened Errors
  import opened Decimal
  import opened Namespace
  import opened TreeInvariant
  import opened TreeRename
  import opened TreeSteps
  import opened TreeRuns

  datatype Inode = Inode(mode: Mode, uid: nat, gid: nat, size: nat, links: nat, target: Option<string>, dev: Option<nat>,
                         entries: map<string, string>)

  type Store = map<nat, Inode>

  // ---------- the tree that a store holds ----------

  /** Marks the inodes and names that a proof looks at. */
  predicate Seen<T>(x: T) { true }

  ghost predicate SameEntries(e: map<string, string>, f: map<string, nat>) {
    e.Keys == f.Keys && forall x: string {:trigger Seen<string>(x)} :: Seen<string>(x) && x in e ==> Parse(e[x]) == Some(f[x])
  }

  ghost predicate SameNode(i: Inode, n: Node) {
    && i.mode == n.mode && i.uid == n.uid && i.gid == n.gid && i.size == n.size && i.links == n.links
    && i.target == n.target && i.dev == n.dev
    && SameEntries(i.entries, n.entries)
  }

  ghost predicate Encodes(st: Store, t: Tree) {
    st.Keys == t.Keys && forall n: nat {:trigger Seen<nat>(n)} :: Seen<nat>(n) && n in st ==> SameNode(st[n], t[n])
  }

  /** The stores that hold the tree t: every value reads back as the number of the inode it names. */
  ghost function Stores(t: Tree): iset<Store> { iset st | Encodes(st, t) }

  /** A store holds one tree. */
  lemma {:induction false} OneTree(st: Store, t: Tree, t': Tree)
    requires st in Stores(t) && st in Stores(t')
    ensures t == t'
  {
    forall n: nat | n in st ensures t[n] == t'[n] {
      assert Seen<nat>(n);
      forall x: string | x in st[n].entries ensures t[n].entries[x] == t'[n].entries[x] { assert Seen<string>(x); }
      assert t[n].entries == t'[n].entries;
    }
  }

  lemma {:induction false} NodeAt(st: Store, t: Tree, n: nat)
    requires st in Stores(t)
    ensures n in t <==> n in st
    ensures n in st ==> SameNode(st[n], t[n])
  {
    assert Seen<nat>(n);
  }

  lemma {:induction false} EntryAt(st: Store, t: Tree, d: nat, x: string)
    requires st in Stores(t) && d in st && x in st[d].entries
    ensures d in t && x in t[d].entries && Parse(st[d].entries[x]) == Some(t[d].entries[x])
  {
    assert Seen<nat>(d) && Seen<string>(x);
  }

  lemma {:induction false} PutSame(e: map<string, string>, f: map<string, nat>, x: string, n: nat)
    requires SameEntries(e, f)
    ensures SameEntries(e[x := Print(n)], f[x := n])
  {
    RoundTrip(n);
  }

  lemma {:induction false} BucketSame(st: Store, t: Tree, n: nat, i: Inode, m: Node)
    requires st in Stores(t) && SameNode(i, m)
    ensures st[n := i] in Stores(t[n := m])
  {
    assert Encodes(st[n := i], t[n := m]);
  }

  // ---------- edits of one node ----------

  function Dropped(t: Tree, d: nat, x: string): Tree
    requires d in t
  {
    t[d := t[d].(entries := t[d].entries - {x})]
  }

  function Sized(t: Tree, d: nat, size: nat): Tree
    requires d in t
  {
    t[d := t[d].(size := size)]
  }

  function Linked(t: Tree, n: nat, links: nat): Tree
    requires n in t
  {
    t[n := t[n].(links := links)]
  }

  // ---------- writes to one bucket inside a transaction ----------

  /** bucket.put(generate_data_key(x), format!("{}", n)) */
  method PutEntry(tx: Store, ghost t: Tree, d: nat, x: string, n: nat) returns (tx': Store)
    requires tx in Stores(t) && d in t
    ensures tx' in Stores(Put(t, d, x, n))
  {
    NodeAt(tx, t, d);
    tx' := tx[d := tx[d].(entries := tx[d].entries[x := Print(n)])];
    PutSame(tx[d].entries, t[d].entries, x, n);
    BucketSame(tx, t, d, tx'[d], Put(t, d, x, n)[d]);
  }

  /** bucket.delete(generate_data_key(x)) */
  method DeleteEntry(tx: Store, ghost t: Tree, d: nat, x: string) returns (tx': Store)
    requires tx in Stores(t) && d in t
    ensures tx' in Stores(Dropped(t, d, x))
  {
    NodeAt(tx, t, d);
    tx' := tx[d := tx[d].(entries := tx[d].entries - {x})];
    BucketSame(tx, t, d, tx'[d], Dropped(t, d, x)[d]);
  }

  method PutSize(tx: Store, ghost t: Tree, d: nat, size: nat) returns (tx': Store)
    requires tx in Stores(t) && d in t
    ensures tx' in Stores(Sized(t, d, size))
  {
    NodeAt(tx, t, d);
    tx' := tx[d := tx[d].(size := size)];
    BucketSame(tx, t, d, tx'[d], Sized(t, d, size)[d]);
  }

  method PutLinks(tx: Store, ghost t: Tree, n: nat, links: nat) returns (tx': Store)
    requires tx in Stores(t) && n in t
    ensures tx' in Stores(Linked(t, n, links))
  {
    NodeAt(tx, t, n);
    tx' := tx[n := tx[n].(links := links)];
    BucketSame(tx, t, n, tx'[n], Linked(t, n, links)[n]);
  }

  method DeleteBucket(tx: Store, ghost t: Tree, n: nat) returns (tx': Store)
    requires tx in Stores(t)
    ensures tx' in Stores(t - {n})
  {
    tx' := tx - {n};
    assert Encodes(tx', t - {n});
  }

  method MayWriteTo(i: Inode, uid: nat, gid: nat) returns (ok: bool)
    ensures ok == MayWrite(i.uid, i.gid, i.mode, uid, gid)
  {
    ok := CheckoutAccess(i.uid, i.gid, i.mode & PERM_BITS, uid, gid, ACCESS_W_OK);
    WriteAccess(i.uid, i.gid, i.mode, uid, gid);
  }

  /** The sticky bit: who may not remove a file of owner `fileUid` from directory `dir` */
  predicate StickyDenies(dir: Inode, fileUid: nat, uid: nat) {
    Contains(dir.mode, S_ISVTX) && uid != 0 && uid != dir.uid && uid != fileUid
  }

  /** dbfs_common_attr on a bucket */
  method ReadAttr(n: nat, i: Inode, ghost node: Node) returns (attr: Option<Attr>)
    requires SameNode(i, node)
    ensures attr == AttrOf(n, node)
  {
    var kind := KindOf(i.mode);
    if kind.None? { return None; }
    var rdev := 0;
    if IsDevice(kind.value) {
      if i.dev.None? { return None; }
      rdev := i.dev.value;
    }
    attr := Some(Attr(n, i.size, kind.value, i.mode, i.links, i.uid, i.gid, rdev));
  }

  // ---------- the checks of each transaction ----------
  // They read the store as the transaction finds it; the first that fails ends the transaction without a commit.

  method RefuseCreate(st: Store, ghost t: Tree, ino: nat, uid: nat, gid: nat, dir: nat, perm: Mode,
                      target: Option<string>) returns (r: Result)
    requires st in Stores(t)
    ensures r == CheckCreate(t, ino, uid, gid, dir, perm, target)
  {
    NodeAt(st, t, dir);
    if dir !in st { return Failed(NoData); }
    var ok := MayWriteTo(st[dir], uid, gid);
    if !ok { return Failed(AccessError); }
    NodeAt(st, t, ino);
    if ino in st { return Failed(FileExists); }
    if Contains(perm, S_IFLNK) && target.None? { return Panicked; }
    r := Done;
  }

  method RefuseLink(st: Store, ghost t: Tree, uid: nat, gid: nat, ino: nat, dir: nat) returns (r: Result)
    requires st in Stores(t)
    ensures r == CheckLink(t, uid, gid, ino, dir)
  {
    NodeAt(st, t, dir);
    if dir !in st { return Failed(NotFound); }
    var attr := ReadAttr(dir, st[dir], t[dir]);
    if attr.None? { return Panicked; }
    var ok := MayWriteTo(st[dir], uid, gid);
    if !ok { return Failed(AccessError); }
    NodeAt(st, t, ino);
    if ino !in st { return Failed(NoData); }
    r := Done;
  }

  method RefuseUnlink(st: Store, ghost t: Tree, uid: nat, gid: nat, dir: nat, name: string, given: Option<nat>)
    returns (r: Result)
    requires st in Stores(t)
    ensures r == CheckUnlink(t, uid, gid, dir, name, given)
  {
    NodeAt(st, t, dir);
    if dir !in st { return Failed(NoData); }
    var p := st[dir];
    if name !in p.entries { return Panicked; }
    var ok := MayWriteTo(p, uid, gid);
    if !ok { return Failed(AccessError); }
    EntryAt(st, t, dir, name);
    var ino := if given.Some? then given.value else Parse(p.entries[name]).value;
    NodeAt(st, t, ino);
    if ino !in st { return if given.Some? then Failed(NoData) else Failed(NotFound); }
    if StickyDenies(p, st[ino].uid, uid) { return Failed(AccessError); }
    r := Done;
  }

  method RefuseRmdir(st: Store, ghost t: Tree, uid: nat, gid: nat, dir: nat, name: string) returns (r: Result)
    requires st in Stores(t)
    ensures r == CheckRmdir(t, uid, gid, dir, name)
  {
    NodeAt(st, t, dir);
    if dir !in st { return Failed(NoData); }
    var p := st[dir];
    if name !in p.entries { return Panicked; }
    EntryAt(st, t, dir, name);
    var number := Parse(p.entries[name]).value;
    NodeAt(st, t, number);
    if number !in st { return Panicked; }
    if st[number].size > 2 { return Failed(NotEmpty); }
    var ok := MayWriteTo(p, uid, gid);
    if !ok { return Failed(AccessError); }
    if StickyDenies(p, st[number].uid, uid) { return Failed(AccessError); }
    r := Done;
  }

  method RefuseRename(st: Store, ghost t: Tree, uid: nat, gid: nat, od: nat, on: string, nd: nat, nn: string,
                      exchange: bool) returns (r: Result)
    requires st in Stores(t)
    ensures r == CheckRename(t, uid, gid, od, on, nd, nn, exchange)
  {
    NodeAt(st, t, od);
    if od !in st { return Failed(NoData); }
    var oldDir := st[od];
    if on !in oldDir.entries { return Failed(NotFound); }
    var ok := MayWriteTo(oldDir, uid, gid);
    if !ok { return Failed(AccessError); }
    EntryAt(st, t, od, on);
    var number := Parse(oldDir.entries[on]).value;
    NodeAt(st, t, number);
    if number !in st { return Panicked; }
    if StickyDenies(oldDir, st[number].uid, uid) { return Failed(AccessError); }
    NodeAt(st, t, nd);
    if nd !in st { return Failed(NoData); }
    var newDir := st[nd];
    ok := MayWriteTo(newDir, uid, gid);
    if !ok { return Failed(AccessError); }
    r := RefuseTarget(st, t, uid, gid, od, nd, nn, number, exchange);
  }

  method LoadTarget(st: Store, ghost t: Tree, nd: nat, nn: string) returns (target: Option<nat>)
    requires st in Stores(t)
    requires nd in st
    ensures target == Target(t, nd, nn)
  {
    NodeAt(st, t, nd);
    if nn in st[nd].entries && Contains(st[nd].mode, S_ISVTX) {
      EntryAt(st, t, nd, nn);
      target := Some(Parse(st[nd].entries[nn]).value);
    } else {
      target := None;
    }
  }

  method RefuseTarget(st: Store, ghost t: Tree, uid: nat, gid: nat, od: nat, nd: nat, nn: string, m: nat,
                      exchange: bool) returns (r: Result)
    requires st in Stores(t)
    requires nd in st && m in st
    ensures r == CheckTarget(t, uid, gid, od, nd, nn, m, exchange)
  {
    NodeAt(st, t, nd);
    NodeAt(st, t, m);
    var target := LoadTarget(st, t, nd, nn);
    if target.Some? {
      NodeAt(st, t, target.value);
      if target.value !in st { return Panicked; }
      if StickyDenies(st[nd], st[target.value].uid, uid) { return Failed(AccessError); }
    }
    if exchange { return if target.None? then Failed(NotFound) else Done; }
    if target.Some? {
      if Contains(st[target.value].mode, S_IFDIR) && st[target.value].size > 2 { return Failed(NotEmpty); }
    }
    if Contains(st[m].mode, S_IFDIR) && od != nd {
      var ok := MayWriteTo(st[m], uid, gid);
      if !ok { return Failed(AccessError); }
    }
    if target.Some? {
      if !Contains(st[target.value].mode, S_IFDIR) { return Panicked; }
    }
    r := Done;
  }

  // ---------- what each transaction writes ----------
  // Counts are decremented with Less1: in a well-formed tree they are never 0.

  method NewInode(parent: Inode, ghost p: Node, dir: nat, ino: nat, perm: Mode, uid: nat, gid: nat,
                  target: Option<string>, dev: Option<nat>)
    returns (node: Inode)
    requires SameNode(parent, p)
    ensures SameNode(node, NewNode(p, dir, ino, perm, uid, gid, target, dev))
  {
    var counts := NewCounts(perm);
    var entries: map<string, string> := map[];
    if Contains(perm, S_IFDIR) {
      PutSame(entries, map[], ".", ino);
      entries := entries["." := Print(ino)];
      PutSame(entries, map["." := ino], "..", dir);
      entries := entries[".." := Print(dir)];
    }
    node := Inode(NewMode(parent.mode, perm, uid), uid, if Contains(perm, S_ISGID) then parent.gid else gid,
                  counts.1, counts.0, if Contains(perm, S_IFLNK) then target else None,
                  if IsSpecial(perm) then dev else None, entries);
  }

  method WriteCreate(st: Store, ghost t: Tree, ino: nat, uid: nat, gid: nat, dir: nat, name: string, perm: Mode,
                     target: Option<string>, dev: Option<nat>)
    returns (tx: Store)
    requires st in Stores(t) && dir in t
    ensures tx in Stores(CreateTree(t, dir, name, ino, perm, uid, gid, target, dev))
  {
    NodeAt(st, t, dir);
    var parent := st[dir];
    tx := PutSize(st, t, dir, parent.size + 1);
    ghost var t1 := Sized(t, dir, parent.size + 1);
    tx := PutEntry(tx, t1, dir, name, ino);
    ghost var t2 := Put(t1, dir, name, ino);
    assert t2 == Attach(t, dir, name, ino);
    var node := NewInode(parent, t[dir], dir, ino, perm, uid, gid, target, dev);
    BucketSame(tx, t2, ino, node, NewNode(t[dir], dir, ino, perm, uid, gid, target, dev));
    tx := tx[ino := node];
  }

  method WriteLink(st: Store, ghost t: Tree, ino: nat, dir: nat, name: string) returns (tx: Store)
    requires st in Stores(t) && dir in t && ino in t
    ensures tx in Stores(LinkTree(t, ino, dir, name))
  {
    tx := PutEntry(st, t, dir, name, ino);
    ghost var t1 := Put(t, dir, name, ino);
    NodeAt(tx, t1, dir);
    var size := tx[dir].size + 1;
    tx := PutSize(tx, t1, dir, size);
    ghost var t2 := Sized(t1, dir, size);
    assert t2 == Attach(t, dir, name, ino);
    NodeAt(tx, t2, ino);
    tx := PutLinks(tx, t2, ino, tx[ino].links + 1);
  }

  method WriteUnlink(st: Store, ghost t: Tree, dir: nat, name: string, ino: nat) returns (tx: Store)
    requires st in Stores(t) && dir in t && ino in t
    ensures tx in Stores(UnlinkTree(t, dir, name, ino))
  {
    ghost var t2 := Detach(t, dir, name);
    tx := WriteDetach(st, t, dir, name);
    NodeAt(tx, t2, ino);
    var links := tx[ino].links;
    if links == 1 {
      tx := DeleteBucket(tx, t2, ino);
    } else {
      tx := PutLinks(tx, t2, ino, Less1(links));
    }
  }

  method WriteDetach(st: Store, ghost t: Tree, dir: nat, name: string) returns (tx: Store)
    requires st in Stores(t) && dir in t
    ensures tx in Stores(Detach(t, dir, name))
  {
    tx := DeleteEntry(st, t, dir, name);
    ghost var t1 := Dropped(t, dir, name);
    NodeAt(tx, t1, dir);
    var size := Less1(tx[dir].size);
    tx := PutSize(tx, t1, dir, size);
    assert Sized(t1, dir, size) == Detach(t, dir, name);
  }

  method WriteRmdir(st: Store, ghost t: Tree, dir: nat, name: string, number: nat) returns (tx: Store)
    requires st in Stores(t) && dir in t
    ensures tx in Stores(RmdirTree(t, dir, name, number))
  {
    tx := WriteDetach(st, t, dir, name);
    tx := DeleteBucket(tx, Detach(t, dir, name), number);
  }

  method WriteExchange(st: Store, ghost t: Tree, od: nat, on: string, nd: nat, nn: string, m: nat, target: nat)
    returns (tx: Store)
    requires st in Stores(t) && od in t && nd in t && m in t && target in t
    ensures tx in Stores(ExchangeTree(t, od, on, nd, nn, m, target))
  {
    NodeAt(st, t, m);
    NodeAt(st, t, target);
    tx := PutEntry(st, t, nd, nn, m);
    ghost var t1 := Put(t, nd, nn, m);
    tx := PutEntry(tx, t1, od, on, target);
    t1 := Put(t1, od, on, target);
    if Contains(st[m].mode, S_IFDIR) {
      tx := PutEntry(tx, t1, m, ".", nd);
      t1 := Put(t1, m, ".", nd);
    }
    if Contains(st[target].mode, S_IFDIR) {
      tx := PutEntry(tx, t1, target, "..", od);
    }
  }

  method WriteMove(st: Store, ghost t: Tree, od: nat, on: string, nd: nat, nn: string, m: nat, target: Option<nat>)
    returns (tx: Store)
    requires st in Stores(t) && od in t && nd in t && m in t
    requires target.Some? ==> target.value != od && target.value != nd && target.value != m
    ensures tx in Stores(MoveTree(t, od, on, nd, nn, m, target))
  {
    NodeAt(st, t, m);
    NodeAt(st, t, nd);
    tx := st;
    ghost var t1 := t;
    var newDirSize := tx[nd].size;
    if target.Some? {
      tx := DeleteEntry(tx, t1, nd, nn);
      newDirSize := Less1(newDirSize);
      tx := DeleteBucket(tx, Dropped(t1, nd, nn), target.value);
      t1 := Dropped(t1, nd, nn) - {target.value};
    }
    tx := WriteDetach(tx, t1, od, on);
    ghost var t2 := Detach(t1, od, on);
    tx := WriteMoved(tx, t2, od, nd, nn, m, if od == nd then newDirSize else newDirSize + 1, Contains(st[m].mode, S_IFDIR));
  }

  method WriteMoved(st: Store, ghost t: Tree, od: nat, nd: nat, nn: string, m: nat, size: nat, isDir: bool)
    returns (tx: Store)
    requires st in Stores(t) && nd in t && m in t
    ensures var t3 := t[nd := t[nd].(entries := t[nd].entries[nn := m], size := size)];
            tx in Stores(if isDir then Put(t3, m, "..", nd) else t3)
  {
    tx := PutEntry(st, t, nd, nn, m);
    ghost var t1 := Put(t, nd, nn, m);
    tx := PutSize(tx, t1, nd, size);
    ghost var t3 := t[nd := t[nd].(entries := t[nd].entries[nn := m], size := size)];
    assert Sized(t1, nd, size) == t3;
    if isDir { tx := PutEntry(tx, t3, m, "..", nd); }
  }

  // ---------- the file system ----------

  /** The committed store and DBFS_INODE_NUMBER. `tree` is the tree that the store holds (OneTree). */
  class Dbfs {
    var inodes: Store
    var next: nat
    ghost var tree: Tree

    ghost predicate Valid()
      reads this
    {
      inodes in Stores(tree) && Wf(tree) && Below(tree, next)
    }

    /** dbfs_common_root_inode on an empty store, whose counter stands at 1 */
    constructor (uid: nat, gid: nat)
      ensures Valid() && tree == RootTree(uid, gid) && next == ROOT + 1
    {
      var root := Inode(S_IFDIR | PERM_BITS, uid, gid, 1, 2, None, None, map["." := Print(ROOT)]);
      inodes, next, tree := map[ROOT := root], ROOT + 1, RootTree(uid, gid);
      new;
      RoundTrip(ROOT);
      assert Encodes(inodes, tree);
      RootWf(uid, gid);
    }

    /** The attributes of the inode that a name stands for; Ok(None) if reading them panics. */
    method LookupName(dir: nat, name: string) returns (r: Outcome<Option<Attr>>)
      requires Valid()
      ensures r == if dir !in tree then Err(NoData)
                   else match Lookup(tree, dir, name)
                     case None => Err(NotFound)
                     case Some(n) => if n in tree then Ok(AttrOf(n, tree[n])) else Err(NoData)
      ensures r == Err(NoData) <==> dir !in tree
      ensures r.Ok? && r.value.Some? ==> Describes(tree, Lookup(tree, dir, name).value, r.value.value)
    {
      NodeAt(inodes, tree, dir);
      if dir !in inodes { return Err(NoData); }
      if name !in inodes[dir].entries { return Err(NotFound); }
      EntryAt(inodes, tree, dir, name);
      var number := Parse(inodes[dir].entries[name]).value;
      Open(tree, dir);
      NodeAt(inodes, tree, number);
      if number !in inodes { return Err(NoData); }
      AttrDescribes(tree, number);
      var attr := ReadAttr(number, inodes[number], tree[number]);
      r := Ok(attr);
    }

    /** What an operation is to do, and when the invariant survives it. */
    twostate predicate Stepped(q: Request, r: Result)
      reads this
    {
      var t, n := old(tree), old(next);
      && (!q.op.Create? ==> next == n)
      && r == Check(t, n, q) && (r == Done ==> DeletesOther(t, q.op)) && tree == After(t, n, q)
      && next == NextAfter(n, q) && inodes in Stores(tree)
      && (Valid() <==> (r == Done ==> Sound(t, q.op)))
    }

    /** The answer is put together after the commit; it is None if the permission has no type, which panics. */
    method CreateNode(uid: nat, gid: nat, dir: nat, name: string, perm: Mode, target: Option<string>, dev: Option<nat>)
      returns (r: Result, reply: Option<Attr>)
      requires Valid() && Legal(tree, Create(dir, name, perm, target, dev))
      modifies this
      ensures Stepped(Request(uid, gid, Create(dir, name, perm, target, dev)), r) && next == old(next) + 1
      ensures r == Done ==> old(next) in tree && reply == CreateReply(old(next), perm, tree[old(next)])
      ensures r != Done ==> reply == None
    {
      ghost var q := Request(uid, gid, Create(dir, name, perm, target, dev));
      StepKeepsIff(tree, next, q);
      StepBelow(tree, next, q);
      var newNumber := next;
      next, reply := next + 1, None;
      r := RefuseCreate(inodes, tree, newNumber, uid, gid, dir, perm, target);
      if r == Done {
        inodes := WriteCreate(inodes, tree, newNumber, uid, gid, dir, name, perm, target, dev);
        tree := CreateTree(tree, dir, name, newNumber, perm, uid, gid, target, dev);
        NodeAt(inodes, tree, newNumber);
        var i, kind := inodes[newNumber], KindOf(perm);
        if kind.Some? {
          var rdev := if i.dev.Some? then i.dev.value else 0;
          reply := Some(Attr(newNumber, i.size, kind.value, i.mode, i.links, i.uid, i.gid, rdev));
        }
      }
    }

    /** The answer is read back after the commit. */
    method LinkNode(uid: nat, gid: nat, ino: nat, dir: nat, name: string) returns (r: Result, reply: Option<Attr>)
      requires Valid() && Legal(tree, Link(ino, dir, name))
      modifies this
      ensures Stepped(Request(uid, gid, Link(ino, dir, name)), r)
      ensures r == Done ==> ino in tree && reply == AttrOf(ino, tree[ino])
      ensures reply.Some? ==> Describes(tree, ino, reply.value)
      ensures r != Done ==> reply == None
    {
      ghost var q := Request(uid, gid, Link(ino, dir, name));
      StepKeepsIff(tree, next, q);
      StepBelow(tree, next, q);
      reply := None;
      r := RefuseLink(inodes, tree, uid, gid, ino, dir);
      if r == Done {
        inodes := WriteLink(inodes, tree, ino, dir, name);
        tree := LinkTree(tree, ino, dir, name);
        NodeAt(inodes, tree, ino);
        AttrDescribes(tree, ino);
        reply := ReadAttr(ino, inodes[ino], tree[ino]);
      }
    }

    method UnlinkNode(uid: nat, gid: nat, dir: nat, name: string, given: Option<nat>) returns (r: Result)
      requires Valid() && Legal(tree, Unlink(dir, name, given))
      modifies this
      ensures Stepped(Request(uid, gid, Unlink(dir, name, given)), r)
    {
      ghost var q := Request(uid, gid, Unlink(dir, name, given));
      StepKeepsIff(tree, next, q);
      StepBelow(tree, next, q);
      r := RefuseUnlink(inodes, tree, uid, gid, dir, name, given);
      if r == Done {
        NodeAt(inodes, tree, dir);
        EntryAt(inodes, tree, dir, name);
        var ino := if given.Some? then given.value else Parse(inodes[dir].entries[name]).value;
        inodes := WriteUnlink(inodes, tree, dir, name, ino);
        tree := UnlinkTree(tree, dir, name, ino);
      }
    }

    method RemoveDir(uid: nat, gid: nat, dir: nat, name: string) returns (r: Result)
      requires Valid() && Legal(tree, Rmdir(dir, name))
      modifies this
      ensures Stepped(Request(uid, gid, Rmdir(dir, name)), r)
    {
      ghost var q := Request(uid, gid, Rmdir(dir, name));
      StepKeepsIff(tree, next, q);
      StepBelow(tree, next, q);
      r := RefuseRmdir(inodes, tree, uid, gid, dir, name);
      if r == Done {
        NodeAt(inodes, tree, dir);
        EntryAt(inodes, tree, dir, name);
        var number := Parse(inodes[dir].entries[name]).value;
        inodes := WriteRmdir(inodes, tree, dir, name, number);
        tree := RmdirTree(tree, dir, name, number);
      }
    }

    method RenameNode(uid: nat, gid: nat, od: nat, on: string, nd: nat, nn: string, exchange: bool) returns (r: Result)
      requires Valid() && Legal(tree, Rename(od, on, nd, nn, exchange))
      modifies this
      ensures Stepped(Request(uid, gid, Rename(od, on, nd, nn, exchange)), r)
    {
      ghost var q := Request(uid, gid, Rename(od, on, nd, nn, exchange));
      StepKeepsIff(tree, next, q);
      StepBelow(tree, next, q);
      r := RefuseRename(inodes, tree, uid, gid, od, on, nd, nn, exchange);
      if r == Done {
        inodes := WriteRename(inodes, tree, uid, gid, od, on, nd, nn, exchange);
        tree := AfterRename(tree, od, on, nd, nn, exchange, uid, gid);
      }
    }
  }

  method WriteRename(st: Store, ghost t: Tree, ghost uid: nat, ghost gid: nat, od: nat, on: string, nd: nat,
                     nn: string, exchange: bool)
    returns (tx: Store)
    requires st in Stores(t) && DeletesOther(t, Rename(od, on, nd, nn, exchange))
    requires CheckRename(t, uid, gid, od, on, nd, nn, exchange) == Done
    ensures tx in Stores(AfterRename(t, od, on, nd, nn, exchange, uid, gid))
  {
    NodeAt(st, t, od);
    NodeAt(st, t, nd);
    EntryAt(st, t, od, on);
    var oldNumber := Parse(st[od].entries[on]).value;
    var target := LoadTarget(st, t, nd, nn);
    if exchange {
      tx := WriteExchange(st, t, od, on, nd, nn, oldNumber, target.value);
    } else {
      tx := WriteMove(st, t, od, on, nd, nn, oldNumber, target);
    }
  }
}
