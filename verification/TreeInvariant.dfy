/** Create, link, unlink and rmdir keep the tree well-formed. */
module TreeInvariant {
  import opened Permission
  import opened Errors
  import opened Namespace

  // ---------- references ----------

  lemma {:induction false} InRefs(t: Tree, n: nat, d: nat, x: string)
    ensures (d, x) in Refs(t, n) <==> Named(x) && Holds(t, d, x, n)
  {
  }

  lemma {:induction false} Open(t: Tree, n: nat)
    requires Wf(t) && n in t
    ensures NodeOk(t, n)
  {
    assert n in Good(t);
  }

  ghost predicate SameRefs(t: Tree, t': Tree, n: nat) {
    forall d: nat, x :: Named(x) ==> (Holds(t, d, x, n) <==> Holds(t', d, x, n))
  }

  lemma {:induction false} RefsSame(t: Tree, t': Tree, n: nat)
    requires SameRefs(t, t', n)
    ensures Refs(t', n) == Refs(t, n)
  {
    forall r | r in Refs(t, n) + Refs(t', n) ensures r in Refs(t, n) <==> r in Refs(t', n) {
      InRefs(t, n, r.0, r.1);
      InRefs(t', n, r.0, r.1);
    }
  }

  ghost predicate OneMore(t: Tree, t': Tree, n: nat, d: nat, x: string) {
    && Named(x) && !Holds(t, d, x, n) && Holds(t', d, x, n)
    && forall d': nat, x' :: Named(x') && (d', x') != (d, x) ==> (Holds(t, d', x', n) <==> Holds(t', d', x', n))
  }

  lemma {:induction false} RefsMore(t: Tree, t': Tree, n: nat, d: nat, x: string)
    requires OneMore(t, t', n, d, x)
    ensures Refs(t', n) == Refs(t, n) + {(d, x)} && (d, x) !in Refs(t, n) && |Refs(t', n)| == |Refs(t, n)| + 1
  {
    InRefs(t, n, d, x);
    forall r: (nat, string) ensures r in Refs(t', n) <==> r in Refs(t, n) + {(d, x)} {
      InRefs(t, n, r.0, r.1);
      InRefs(t', n, r.0, r.1);
    }
  }

  lemma {:induction false} RefsLess(t: Tree, t': Tree, n: nat, d: nat, x: string)
    requires OneMore(t', t, n, d, x)
    ensures Refs(t', n) == Refs(t, n) - {(d, x)} && (d, x) in Refs(t, n) && |Refs(t', n)| == |Refs(t, n)| - 1
  {
    RefsMore(t', t, n, d, x);
  }

  /** Nothing refers to what is not there. */
  lemma {:induction false} NoRefs(t: Tree, n: nat)
    requires Wf(t) && n !in t
    ensures Refs(t, n) == {}
  {
    if r :| r in Refs(t, n) {
      InRefs(t, n, r.0, r.1);
      Open(t, r.0);
    }
  }

  // ---------- the way up ----------

  /** t' keeps the way up of every directory but those in `gone`, and it leads through none of these. */
  ghost predicate SameUp(t: Tree, t': Tree, gone: set<nat>) {
    forall d: nat {:trigger Lookup(t, d, "..")} :: d !in gone && Lookup(t, d, "..").Some? ==>
      Lookup(t, d, "..").value !in gone && Lookup(t', d, "..") == Lookup(t, d, "..")
  }

  lemma {:induction false} UpSame(t: Tree, t': Tree, gone: set<nat>, n: nat, k: nat)
    requires SameUp(t, t', gone) && n !in gone && Up(t, n, k)
    ensures Up(t', n, k)
    decreases k
  {
    if n != ROOT { UpSame(t, t', gone, Lookup(t, n, "..").value, k - 1); }
  }

  lemma {:induction false} RootedSame(t: Tree, t': Tree, gone: set<nat>, n: nat)
    requires SameUp(t, t', gone) && n !in gone && Rooted(t, n)
    ensures Rooted(t', n)
  {
    var k: nat :| Up(t, n, k);
    UpSame(t, t', gone, n, k);
  }

  lemma {:induction false} RootedAbove(t: Tree, n: nat, p: nat)
    requires Rooted(t, p) && Lookup(t, n, "..") == Some(p)
    ensures Rooted(t, n)
  {
    var k: nat :| Up(t, p, k);
    assert Up(t, n, k + 1);
  }

  /** A node that an operation leaves alone stays as it should be. */
  lemma {:induction false} Unchanged(t: Tree, t': Tree, n: nat)
    requires Wf(t) && n in t && n in t' && t'[n] == t[n] && (IsDir(t, n) ==> Rooted(t', n))
    requires SameRefs(t, t', n) && LiveEntries(t', n)
    ensures n in Good(t')
  {
    Open(t, n);
    RefsSame(t, t', n);
    assert NodeOk(t', n);
  }

  lemma {:induction false} Untouched(t: Tree, t': Tree, gone: set<nat>, n: nat)
    requires Wf(t) && n in t && n in t' && t'[n] == t[n] && n !in gone
    requires SameUp(t, t', gone) && SameRefs(t, t', n) && LiveEntries(t', n)
    ensures n in Good(t')
  {
    Open(t, n);
    if IsDir(t, n) { RootedSame(t, t', gone, n); }
    Unchanged(t, t', n);
  }

  /** A directory whose named entries, and with them its size, have changed. */
  lemma {:induction false} Edited(t: Tree, t': Tree, d: nat)
    requires Wf(t) && IsDir(t, d) && IsDir(t', d) && Rooted(t', d)
    requires Lookup(t', d, ".") == Lookup(t, d, ".") && Lookup(t', d, "..") == Lookup(t, d, "..")
    requires t'[d].size == |t'[d].entries|
    requires SameRefs(t, t', d) && LiveEntries(t', d)
    ensures d in Good(t')
  {
    Open(t, d);
    RefsSame(t, t', d);
    assert NodeOk(t', d);
  }

  lemma {:induction false} SizeMore(e: map<string, nat>, x: string, n: nat)
    requires x !in e
    ensures |e[x := n]| == |e| + 1
  {
    assert e[x := n].Keys == e.Keys + {x};
  }

  lemma {:induction false} SizeLess(e: map<string, nat>, x: string)
    requires x in e
    ensures |e - {x}| == |e| - 1
  {
    assert (e - {x}).Keys == e.Keys - {x};
  }

  // ---------- create ----------

  lemma {:induction false} NewKind(parent: Mode, perm: Mode, uid: nat)
    ensures Contains(NewMode(parent, perm, uid), S_IFDIR) <==> Contains(perm, S_IFDIR)
    ensures KindOf(NewMode(parent, perm, uid)) == KindOf(perm)
  {
  }

  lemma {:induction false} CreateHolds(t: Tree, t': Tree, dir: nat, name: string, ino: nat, node: Node, d: nat,
                                       x: string, n: nat)
    requires Creates(t, t', dir, name, ino, node) && Named(x)
    ensures Holds(t', d, x, n) <==> Holds(t, d, x, n) || (d == dir && x == name && n == ino)
  {
  }

  lemma {:induction false} CreateRefs(t: Tree, t': Tree, dir: nat, name: string, ino: nat, node: Node, n: nat)
    requires Creates(t, t', dir, name, ino, node)
    ensures if n == ino then OneMore(t, t', n, dir, name) else SameRefs(t, t', n)
  {
    forall d, x | Named(x)
      ensures Holds(t', d, x, n) <==> Holds(t, d, x, n) || (d == dir && x == name && n == ino)
    {
      CreateHolds(t, t', dir, name, ino, node, d, x, n);
    }
  }

  /** The new inode itself. */
  lemma {:induction false} NewNodeOk(t': Tree, dir: nat, name: string, ino: nat, node: Node)
    requires ino in t' && t'[ino] == node && dir in t' && Rooted(t', dir) && ino != ROOT
    requires Refs(t', ino) == {(dir, name)}
    requires Contains(node.mode, S_IFDIR) ==> node.entries == map["." := ino, ".." := dir] && node.size == 2
    requires !Contains(node.mode, S_IFDIR) ==> node.entries == map[] && node.links == 1
    ensures ino in Good(t')
  {
    if IsDir(t', ino) {
      var e: map<string, nat> := map["." := ino];
      SizeMore(map[], ".", ino);
      SizeMore(e, "..", dir);
      assert node.entries == e[".." := dir];
      RootedAbove(t', ino, dir);
    }
    assert NodeOk(t', ino);
  }

  ghost predicate Creates(t: Tree, t': Tree, dir: nat, name: string, ino: nat, node: Node) {
    && IsDir(t, dir) && ino !in t && Named(name) && name !in t[dir].entries
    && t' == Attach(t, dir, name, ino)[ino := node]
    && node.entries == if Contains(node.mode, S_IFDIR) then map["." := ino, ".." := dir] else map[]
  }

  lemma {:induction false} CreateFrame(t: Tree, t': Tree, dir: nat, name: string, ino: nat, node: Node)
    requires Wf(t) && Creates(t, t', dir, name, ino, node)
    ensures SameUp(t, t', {})
    ensures forall n :: n in t' <==> n in t || n == ino
    ensures forall n :: n in t && n != dir ==> t'[n] == t[n]
    ensures t'[ino] == node
  {
  }

  lemma {:induction false} CreatedDir(t: Tree, t': Tree, dir: nat, name: string, ino: nat, node: Node)
    requires Wf(t) && Creates(t, t', dir, name, ino, node)
    ensures dir in Good(t')
  {
    Open(t, dir);
    CreateFrame(t, t', dir, name, ino, node);
    CreateRefs(t, t', dir, name, ino, node, dir);
    SizeMore(t[dir].entries, name, ino);
    RootedSame(t, t', {}, dir);
    Edited(t, t', dir);
  }

  lemma {:induction false} CreatedNode(t: Tree, t': Tree, dir: nat, name: string, ino: nat, node: Node)
    requires Wf(t) && Creates(t, t', dir, name, ino, node)
    requires if Contains(node.mode, S_IFDIR) then node.size == 2 else node.links == 1
    ensures ino in Good(t')
  {
    Open(t, dir);
    CreateFrame(t, t', dir, name, ino, node);
    NoRefs(t, ino);
    CreateRefs(t, t', dir, name, ino, node, ino);
    RefsMore(t, t', ino, dir, name);
    RootedSame(t, t', {}, dir);
    NewNodeOk(t', dir, name, ino, node);
  }

  lemma {:induction false} CreatedOther(t: Tree, t': Tree, dir: nat, name: string, ino: nat, node: Node, n: nat)
    requires Wf(t) && Creates(t, t', dir, name, ino, node) && n in t && n != dir
    ensures n in Good(t')
  {
    Open(t, n);
    CreateFrame(t, t', dir, name, ino, node);
    CreateRefs(t, t', dir, name, ino, node, n);
    Untouched(t, t', {}, n);
  }

  lemma {:induction false} CreateKeeps(t: Tree, t': Tree, dir: nat, name: string, ino: nat, node: Node)
    requires Wf(t) && Creates(t, t', dir, name, ino, node)
    requires if Contains(node.mode, S_IFDIR) then node.size == 2 else node.links == 1
    ensures Wf(t')
  {
    CreateFrame(t, t', dir, name, ino, node);
    forall n | n in t' ensures n in Good(t') {
      if n == ino {
        CreatedNode(t, t', dir, name, ino, node);
      } else if n == dir {
        CreatedDir(t, t', dir, name, ino, node);
      } else {
        CreatedOther(t, t', dir, name, ino, node, n);
      }
    }
  }

  lemma {:induction false} WrongSize(t: Tree, n: nat)
    requires n in t && IsDir(t, n) && t[n].size == 0
    ensures !Wf(t)
  {
    if Wf(t) { Open(t, n); }
  }

  /** A new inode keeps the tree well-formed, unless its type code holds both the directory bit and the bits of a
      special file, as those of block devices and sockets do: it then gets the two entries of a directory, but the
      size of a special file. */
  lemma {:induction false} CreateKeepsIff(t: Tree, dir: nat, name: string, ino: nat, perm: Mode, uid: nat, gid: nat,
                                          target: Option<string>, dev: Option<nat>)
    requires Wf(t) && IsDir(t, dir) && Named(name) && name !in t[dir].entries && ino !in t
    ensures Wf(CreateTree(t, dir, name, ino, perm, uid, gid, target, dev)) <==> !(IsSpecial(perm) && Contains(perm, S_IFDIR))
  {
    var node := NewNode(t[dir], dir, ino, perm, uid, gid, target, dev);
    var t' := CreateTree(t, dir, name, ino, perm, uid, gid, target, dev);
    NewKind(t[dir].mode, perm, uid);
    if IsSpecial(perm) && Contains(perm, S_IFDIR) {
      WrongSize(t', ino);
    } else {
      CreateKeeps(t, t', dir, name, ino, node);
    }
  }

  /** A create answers what a lookup of the new name answers, unless a device number is missing, or is given for
      something that is no device. */
  lemma {:induction false} ReplyIff(parent: Node, dir: nat, ino: nat, perm: Mode, uid: nat, gid: nat,
                                    target: Option<string>, dev: Option<nat>)
    ensures var node := NewNode(parent, dir, ino, perm, uid, gid, target, dev);
            AttrOf(ino, node) == CreateReply(ino, perm, node) <==>
            match KindOf(perm)
            case None => true
            case Some(kind) => if IsDevice(kind) then dev.Some? else !IsSpecial(perm) || dev == None || dev == Some(0)
  {
    NewKind(parent.mode, perm, uid);
  }

  // ---------- attributes ----------

  /** The answer a is about inode n: its fields are n's, a directory's size is the number of its entries, and the link
      count of anything else is the number of named entries that refer to it. */
  ghost predicate Describes(t: Tree, n: nat, a: Attr) {
    && n in t && a.ino == n
    && a.size == t[n].size && a.perm == t[n].mode && a.uid == t[n].uid && a.gid == t[n].gid
    && (if IsDir(t, n) then a.size == |t[n].entries| && a.nlink == t[n].links else a.nlink == |Refs(t, n)|)
    && KindOf(t[n].mode) == Some(a.kind)
    && (if a.kind == CharDevice || a.kind == BlockDevice then t[n].dev == Some(a.rdev) else a.rdev == 0)
  }

  /** The attributes that are read describe the inode; there are none exactly if its mode has no type or it is a device
      without a number. */
  lemma {:induction false} AttrDescribes(t: Tree, n: nat)
    requires Wf(t) && n in t
    ensures match AttrOf(n, t[n])
            case Some(a) => Describes(t, n, a)
            case None => match KindOf(t[n].mode)
              case None => true
              case Some(kind) => (kind == CharDevice || kind == BlockDevice) && t[n].dev == None
  {
    Open(t, n);
  }

  // ---------- link ----------

  ghost predicate Links(t: Tree, t': Tree, ino: nat, dir: nat, name: string) {
    && IsDir(t, dir) && Named(name) && name !in t[dir].entries && ino in t && !IsDir(t, ino)
    && t' == LinkTree(t, ino, dir, name)
  }

  lemma {:induction false} LinkFrame(t: Tree, t': Tree, ino: nat, dir: nat, name: string)
    requires Wf(t) && Links(t, t', ino, dir, name)
    ensures SameUp(t, t', {}) && t'.Keys == t.Keys
    ensures forall n :: n in t && n != dir && n != ino ==> t'[n] == t[n]
  {
  }

  lemma {:induction false} LinkRefs(t: Tree, t': Tree, ino: nat, dir: nat, name: string, n: nat)
    requires Links(t, t', ino, dir, name)
    ensures if n == ino then OneMore(t, t', n, dir, name) else SameRefs(t, t', n)
  {
    forall d: nat, x | Named(x)
      ensures Holds(t', d, x, n) <==> Holds(t, d, x, n) || (d == dir && x == name && n == ino)
    {
      LinkHolds(t, t', ino, dir, name, d, x, n);
    }
  }

  lemma {:induction false} LinkHolds(t: Tree, t': Tree, ino: nat, dir: nat, name: string, d: nat, x: string, n: nat)
    requires Links(t, t', ino, dir, name)
    ensures Holds(t', d, x, n) <==> Holds(t, d, x, n) || (d == dir && x == name && n == ino)
  {
  }

  lemma {:induction false} LinkedDir(t: Tree, t': Tree, ino: nat, dir: nat, name: string)
    requires Wf(t) && Links(t, t', ino, dir, name)
    ensures dir in Good(t')
  {
    Open(t, dir);
    LinkFrame(t, t', ino, dir, name);
    LinkRefs(t, t', ino, dir, name, dir);
    SizeMore(t[dir].entries, name, ino);
    RootedSame(t, t', {}, dir);
    Edited(t, t', dir);
  }

  lemma {:induction false} LinkedFile(t: Tree, t': Tree, ino: nat, dir: nat, name: string)
    requires Wf(t) && Links(t, t', ino, dir, name)
    ensures ino in Good(t')
  {
    Open(t, ino);
    LinkRefs(t, t', ino, dir, name, ino);
    RefsMore(t, t', ino, dir, name);
    assert NodeOk(t', ino);
  }

  lemma {:induction false} LinkedOther(t: Tree, t': Tree, ino: nat, dir: nat, name: string, n: nat)
    requires Wf(t) && Links(t, t', ino, dir, name) && n in t && n != dir && n != ino
    ensures n in Good(t')
  {
    Open(t, n);
    LinkFrame(t, t', ino, dir, name);
    LinkRefs(t, t', ino, dir, name, n);
    Untouched(t, t', {}, n);
  }

  lemma {:induction false} LinkKeeps(t: Tree, t': Tree, ino: nat, dir: nat, name: string)
    requires Wf(t) && Links(t, t', ino, dir, name)
    ensures Wf(t')
  {
    LinkFrame(t, t', ino, dir, name);
    forall n | n in t' ensures n in Good(t') {
      if n == ino {
        LinkedFile(t, t', ino, dir, name);
      } else if n == dir {
        LinkedDir(t, t', ino, dir, name);
      } else {
        LinkedOther(t, t', ino, dir, name, n);
      }
    }
  }

  // ---------- unlink ----------

  ghost predicate Unlinks(t: Tree, t': Tree, dir: nat, name: string, n: nat) {
    && IsDir(t, dir) && Named(name) && Holds(t, dir, name, n) && n in t && !IsDir(t, n)
    && t' == UnlinkTree(t, dir, name, n)
  }

  lemma {:induction false} UnlinkFrame(t: Tree, t': Tree, dir: nat, name: string, n: nat)
    requires Wf(t) && Unlinks(t, t', dir, name, n)
    ensures SameUp(t, t', {})
    ensures forall m :: m in t' <==> m in t && (m == n ==> t[n].links != 1)
    ensures forall m :: m in t' && m != dir && m != n ==> t'[m] == t[m]
  {
    Open(t, n);
  }

  lemma {:induction false} UnlinkHolds(t: Tree, t': Tree, dir: nat, name: string, n: nat, d: nat, x: string, m: nat)
    requires Wf(t) && Unlinks(t, t', dir, name, n)
    ensures Holds(t', d, x, m) <==> Holds(t, d, x, m) && !(d == dir && x == name)
  {
    Open(t, n);
  }

  lemma {:induction false} UnlinkRefs(t: Tree, t': Tree, dir: nat, name: string, n: nat, m: nat)
    requires Wf(t) && Unlinks(t, t', dir, name, n)
    ensures if m == n then OneMore(t', t, n, dir, name) else SameRefs(t, t', m)
  {
    forall d: nat, x ensures Holds(t', d, x, m) <==> Holds(t, d, x, m) && !(d == dir && x == name) {
      UnlinkHolds(t, t', dir, name, n, d, x, m);
    }
  }

  lemma {:induction false} DotsAreDirs(t: Tree, d: nat, x: string)
    requires Wf(t) && d in t && x in t[d].entries && !Named(x)
    ensures IsDir(t, d) && IsDir(t, t[d].entries[x])
  {
    Open(t, d);
    if x == ".." {
      var p := t[d].entries[".."];
      var y :| Refs(t, d) == {(p, y)};
      InRefs(t, d, p, y);
      Open(t, p);
    }
  }

  /** Nothing refers to an inode whose last link is gone. */
  lemma {:induction false} LastLink(t: Tree, t': Tree, dir: nat, name: string, n: nat, d: nat, x: string)
    requires Wf(t) && Unlinks(t, t', dir, name, n) && t[n].links == 1
    ensures !Holds(t', d, x, n)
  {
    Open(t, n);
    UnlinkRefs(t, t', dir, name, n, n);
    RefsLess(t, t', n, dir, name);
    InRefs(t', n, d, x);
    UnlinkHolds(t, t', dir, name, n, d, x, n);
    if Holds(t, d, x, n) && !Named(x) { DotsAreDirs(t, d, x); }
  }

  lemma {:induction false} UnlinkLive(t: Tree, t': Tree, dir: nat, name: string, n: nat, m: nat)
    requires Wf(t) && Unlinks(t, t', dir, name, n) && m in t'
    ensures LiveEntries(t', m)
  {
    UnlinkFrame(t, t', dir, name, n);
    Open(t, m);
    forall x | x in t'[m].entries ensures t'[m].entries[x] in t' {
      UnlinkHolds(t, t', dir, name, n, m, x, t'[m].entries[x]);
      if t[n].links == 1 { LastLink(t, t', dir, name, n, m, x); }
    }
  }

  lemma {:induction false} UnlinkedDir(t: Tree, t': Tree, dir: nat, name: string, n: nat)
    requires Wf(t) && Unlinks(t, t', dir, name, n)
    ensures dir in Good(t')
  {
    Open(t, dir);
    UnlinkFrame(t, t', dir, name, n);
    UnlinkRefs(t, t', dir, name, n, dir);
    UnlinkLive(t, t', dir, name, n, dir);
    SizeLess(t[dir].entries, name);
    RootedSame(t, t', {}, dir);
    Edited(t, t', dir);
  }

  lemma {:induction false} UnlinkedFile(t: Tree, t': Tree, dir: nat, name: string, n: nat)
    requires Wf(t) && Unlinks(t, t', dir, name, n) && n in t'
    ensures n in Good(t')
  {
    Open(t, n);
    UnlinkFrame(t, t', dir, name, n);
    UnlinkRefs(t, t', dir, name, n, n);
    RefsLess(t, t', n, dir, name);
    assert NodeOk(t', n);
  }

  lemma {:induction false} UnlinkedOther(t: Tree, t': Tree, dir: nat, name: string, n: nat, m: nat)
    requires Wf(t) && Unlinks(t, t', dir, name, n) && m in t' && m != dir && m != n
    ensures m in Good(t')
  {
    UnlinkFrame(t, t', dir, name, n);
    UnlinkRefs(t, t', dir, name, n, m);
    UnlinkLive(t, t', dir, name, n, m);
    Untouched(t, t', {}, m);
  }

  lemma {:induction false} UnlinkKeeps(t: Tree, t': Tree, dir: nat, name: string, n: nat)
    requires Wf(t) && Unlinks(t, t', dir, name, n)
    ensures Wf(t')
  {
    UnlinkFrame(t, t', dir, name, n);
    UnlinkedDir(t, t', dir, name, n);
    forall m | m in t' ensures m in Good(t') {
      if m == n {
        UnlinkedFile(t, t', dir, name, n);
      } else if m != dir {
        UnlinkedOther(t, t', dir, name, n, m);
      }
    }
    RootStays(t, t', dir, name, n);
  }

  lemma {:induction false} RootStays(t: Tree, t': Tree, dir: nat, name: string, n: nat)
    requires Wf(t) && Unlinks(t, t', dir, name, n)
    ensures IsDir(t', ROOT)
  {
  }

  /** With another inode's number an unlink leaves the link count of the one it removes too high. */
  lemma {:induction false} UnlinkBreaks(t: Tree, dir: nat, name: string, n: nat, other: nat)
    requires Wf(t) && IsDir(t, dir) && Named(name) && Holds(t, dir, name, n) && n in t && !IsDir(t, n)
    requires other in t && other != n
    ensures !Wf(UnlinkTree(t, dir, name, other))
  {
    var t' := UnlinkTree(t, dir, name, other);
    Open(t, n);
    InRefs(t, n, dir, name);
    forall r | r in Refs(t', n) ensures r in Refs(t, n) - {(dir, name)} {
      InRefs(t', n, r.0, r.1);
      InRefs(t, n, r.0, r.1);
    }
    SubsetSize(Refs(t', n), Refs(t, n) - {(dir, name)});
    if Wf(t') { Open(t', n); }
  }

  lemma {:induction false} SubsetSize<T>(a: set<T>, b: set<T>)
    requires a <= b
    ensures |a| <= |b|
  {
    assert b == a + (b - a);
  }

  // ---------- rmdir ----------

  /** size > 2 refuses exactly the directories, other than the root, that have a named entry. */
  lemma {:induction false} EmptyIff(t: Tree, n: nat)
    requires Wf(t) && IsDir(t, n) && n != ROOT
    ensures t[n].size > 2 <==> exists x :: Named(x) && x in t[n].entries
  {
    Open(t, n);
    var e := t[n].entries;
    var e1 := e - {"."};
    var e2 := e1 - {".."};
    SizeLess(e, ".");
    SizeLess(e1, "..");
    if e2 != map[] {
      var x :| x in e2;
      assert Named(x) && x in e;
    }
  }

  ghost predicate Removes(t: Tree, t': Tree, dir: nat, name: string, n: nat) {
    && IsDir(t, dir) && Named(name) && Holds(t, dir, name, n) && IsDir(t, n) && t[n].size <= 2
    && t' == RmdirTree(t, dir, name, n)
  }

  /** The directory that a named entry refers to is neither the root nor the one that holds the entry. */
  lemma {:induction false} ChildDir(t: Tree, d: nat, x: string, n: nat)
    requires Wf(t) && IsDir(t, n) && Named(x) && Holds(t, d, x, n)
    ensures n != ROOT && n != d && Lookup(t, n, "..") == Some(d) && Refs(t, n) == {(d, x)}
  {
    Open(t, n);
    InRefs(t, n, d, x);
    assert Refs(t, n) != {};
    var p := Lookup(t, n, "..").value;
    var y :| Refs(t, n) == {(p, y)};
    assert (d, x) == (p, y);
    if n == d {
      var k: nat :| Up(t, n, k);
      SelfParent(t, n, k);
    }
  }

  lemma {:induction false} SelfParent(t: Tree, n: nat, k: nat)
    requires n != ROOT && Lookup(t, n, "..") == Some(n)
    ensures !Up(t, n, k)
  {
    if k > 0 { SelfParent(t, n, k - 1); }
  }

  lemma {:induction false} NothingUnder(t: Tree, n: nat, d: nat)
    requires Wf(t) && IsDir(t, n) && n != ROOT && t[n].size <= 2 && d in t && d != n
    ensures Lookup(t, d, "..") != Some(n)
  {
    if Lookup(t, d, "..") == Some(n) {
      Open(t, d);
      var y :| Refs(t, d) == {(n, y)};
      InRefs(t, d, n, y);
      EmptyIff(t, n);
    }
  }

  lemma {:induction false} RemoveFrame(t: Tree, t': Tree, dir: nat, name: string, n: nat)
    requires Wf(t) && Removes(t, t', dir, name, n)
    ensures SameUp(t, t', {n}) && n != ROOT && n != dir
    ensures forall m :: m in t' <==> m in t && m != n
    ensures forall m :: m in t' && m != dir ==> t'[m] == t[m]
  {
    ChildDir(t, dir, name, n);
    forall d: nat | d != n && Lookup(t, d, "..").Some?
      ensures Lookup(t, d, "..").value != n && Lookup(t', d, "..") == Lookup(t, d, "..")
    {
      NothingUnder(t, n, d);
    }
  }

  lemma {:induction false} RemoveHolds(t: Tree, t': Tree, dir: nat, name: string, n: nat, d: nat, x: string, m: nat)
    requires Wf(t) && Removes(t, t', dir, name, n) && Named(x)
    ensures Holds(t', d, x, m) <==> Holds(t, d, x, m) && !(d == dir && x == name)
  {
    ChildDir(t, dir, name, n);
    EmptyIff(t, n);
  }

  lemma {:induction false} RemoveRefs(t: Tree, t': Tree, dir: nat, name: string, n: nat, m: nat)
    requires Wf(t) && Removes(t, t', dir, name, n)
    ensures if m == n then OneMore(t', t, n, dir, name) else SameRefs(t, t', m)
  {
    forall d: nat, x | Named(x) ensures Holds(t', d, x, m) <==> Holds(t, d, x, m) && !(d == dir && x == name) {
      RemoveHolds(t, t', dir, name, n, d, x, m);
    }
  }

  lemma {:induction false} RemoveLive(t: Tree, t': Tree, dir: nat, name: string, n: nat, m: nat)
    requires Wf(t) && Removes(t, t', dir, name, n) && m in t'
    ensures LiveEntries(t', m)
  {
    RemoveFrame(t, t', dir, name, n);
    ChildDir(t, dir, name, n);
    Open(t, m);
    forall x | x in t'[m].entries ensures t'[m].entries[x] in t' {
      if t[m].entries[x] == n {
        InRefs(t, n, m, x);
        if x == ".." { NothingUnder(t, n, m); }
      }
    }
  }

  lemma {:induction false} RemovedDir(t: Tree, t': Tree, dir: nat, name: string, n: nat)
    requires Wf(t) && Removes(t, t', dir, name, n)
    ensures dir in Good(t')
  {
    Open(t, dir);
    RemoveFrame(t, t', dir, name, n);
    RemoveRefs(t, t', dir, name, n, dir);
    RemoveLive(t, t', dir, name, n, dir);
    SizeLess(t[dir].entries, name);
    RootedSame(t, t', {n}, dir);
    Edited(t, t', dir);
  }

  lemma {:induction false} RmdirKeeps(t: Tree, t': Tree, dir: nat, name: string, n: nat)
    requires Wf(t) && Removes(t, t', dir, name, n)
    ensures Wf(t')
  {
    RemoveFrame(t, t', dir, name, n);
    RemovedDir(t, t', dir, name, n);
    forall m | m in t' ensures m in Good(t') {
      if m != dir {
        RemoveRefs(t, t', dir, name, n, m);
        RemoveLive(t, t', dir, name, n, m);
        Untouched(t, t', {n}, m);
      }
    }
    assert IsDir(t', ROOT);
  }
}
