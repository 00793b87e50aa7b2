/** Rename: when it keeps the tree well-formed, and what it does to lookups. */
module TreeRename {
  import opened Permission
  import opened Errors
  import opened Namespace
  import opened TreeInvariant

  // ---------- references and ways up ----------

  /** Among the references to n, (d, x) has become (d', x'). */
  ghost predicate Swapped(t: Tree, t': Tree, n: nat, d: nat, x: string, d': nat, x': string) {
    && Named(x) && Named(x') && (d, x) != (d', x')
    && Holds(t, d, x, n) && !Holds(t, d', x', n) && Holds(t', d', x', n) && !Holds(t', d, x, n)
    && forall e: nat, y :: Named(y) && (e, y) != (d, x) && (e, y) != (d', x') ==> (Holds(t, e, y, n) <==> Holds(t', e, y, n))
  }

  lemma {:induction false} RefsSwap(t: Tree, t': Tree, n: nat, d: nat, x: string, d': nat, x': string)
    requires Swapped(t, t', n, d, x, d', x')
    ensures Refs(t', n) == Refs(t, n) - {(d, x)} + {(d', x')} && |Refs(t', n)| == |Refs(t, n)|
    ensures (d, x) in Refs(t, n) && (d', x') in Refs(t', n)
  {
    var s := Refs(t, n) - {(d, x)};
    InRefs(t, n, d, x);
    InRefs(t, n, d', x');
    forall r: (nat, string) ensures r in Refs(t', n) <==> r in s + {(d', x')} {
      InRefs(t, n, r.0, r.1);
      InRefs(t', n, r.0, r.1);
    }
    assert Refs(t', n) == s + {(d', x')};
  }

  /** Directory m has got a new parent p; every other way up is as it was. */
  ghost predicate Reparented(t: Tree, t': Tree, m: nat, p: nat) {
    && Lookup(t', m, "..") == Some(p)
    && forall d: nat {:trigger Lookup(t, d, "..")} :: d != m ==> Lookup(t', d, "..") == Lookup(t, d, "..")
  }

  lemma {:induction false} UpAvoiding(t: Tree, t': Tree, m: nat, p: nat, n: nat, k: nat)
    requires Reparented(t, t', m, p) && Up(t, n, k) && !Inside(t, n, m)
    ensures Up(t', n, k)
    decreases k
  {
    assert !Climbs(t, n, m, 0);
    if n != ROOT {
      var q := Lookup(t, n, "..").value;
      if j: nat :| Climbs(t, q, m, j) { assert Climbs(t, n, m, j + 1); }
      UpAvoiding(t, t', m, p, q, k - 1);
    }
  }

  lemma {:induction false} UpMoved(t: Tree, t': Tree, m: nat, p: nat, n: nat, k: nat)
    requires Reparented(t, t', m, p) && Rooted(t', p) && Up(t, n, k)
    ensures Rooted(t', n)
    decreases k
  {
    if n == ROOT {
      assert Up(t', n, 0);
    } else if n == m {
      RootedAbove(t', m, p);
    } else {
      var q := Lookup(t, n, "..").value;
      UpMoved(t, t', m, p, q, k - 1);
      RootedAbove(t', n, q);
    }
  }

  /** Moving a directory below one that is not inside it leaves every directory connected to the root. */
  lemma {:induction false} StillRooted(t: Tree, t': Tree, m: nat, p: nat, n: nat)
    requires Reparented(t, t', m, p) && !Inside(t, p, m) && Rooted(t, p) && Rooted(t, n)
    ensures Rooted(t', n)
  {
    var j: nat :| Up(t, p, j);
    UpAvoiding(t, t', m, p, p, j);
    var k: nat :| Up(t, n, k);
    UpMoved(t, t', m, p, n, k);
  }

  lemma {:induction false} NotItself(t: Tree, n: nat, m: nat)
    requires !Inside(t, n, m)
    ensures n != m
  {
    assert !Climbs(t, n, m, 0);
  }

  // ---------- move ----------

  ghost predicate Movable(t: Tree, od: nat, on: string, nd: nat, nn: string, m: nat) {
    && IsDir(t, od) && IsDir(t, nd) && Named(on) && Named(nn) && m in t && Holds(t, od, on, m) && (od, on) != (nd, nn)
    && (IsDir(t, m) ==> !Inside(t, nd, m))
  }

  ghost predicate Moves(t: Tree, t': Tree, od: nat, on: string, nd: nat, nn: string, m: nat) {
    && Movable(t, od, on, nd, nn, m) && nn !in t[nd].entries
    && t' == MoveTree(t, od, on, nd, nn, m, None)
  }

  /** A moved directory is neither the one it leaves nor the one it enters. */
  lemma {:induction false} Apart(t: Tree, od: nat, on: string, nd: nat, nn: string, m: nat)
    requires Wf(t) && Movable(t, od, on, nd, nn, m)
    ensures m != od && m != nd
    ensures IsDir(t, m) ==> m != ROOT && Lookup(t, m, "..") == Some(od) && Refs(t, m) == {(od, on)}
  {
    Open(t, m);
    if IsDir(t, m) {
      ChildDir(t, od, on, m);
      NotItself(t, nd, m);
    }
  }

  lemma {:induction false} MoveNodes(t: Tree, t': Tree, od: nat, on: string, nd: nat, nn: string, m: nat)
    requires Wf(t) && Moves(t, t', od, on, nd, nn, m)
    ensures t'.Keys == t.Keys
    ensures forall n :: n in t && n != od && n != nd && n != m ==> t'[n] == t[n]
    ensures t'[m] == if IsDir(t, m) then t[m].(entries := t[m].entries[".." := nd]) else t[m]
    ensures od != nd ==> t'[od] == t[od].(entries := t[od].entries - {on}, size := Less1(t[od].size))
    ensures od != nd ==> t'[nd] == t[nd].(entries := t[nd].entries[nn := m], size := t[nd].size + 1)
    ensures od == nd ==> t'[nd] == t[nd].(entries := (t[nd].entries - {on})[nn := m])
  {
    Apart(t, od, on, nd, nn, m);
  }

  /** What a move does to lookups: the new name is found, the old one is not, a moved directory's ".." leads to its
      new parent, and no other lookup changes. */
  lemma {:induction false} MoveLookup(t: Tree, t': Tree, od: nat, on: string, nd: nat, nn: string, m: nat, d: nat,
                                      x: string)
    requires Wf(t) && Moves(t, t', od, on, nd, nn, m)
    ensures Lookup(t', d, x) ==
            if d == nd && x == nn then Some(m)
            else if d == od && x == on then None
            else if d == m && x == ".." && IsDir(t, m) then Some(nd)
            else Lookup(t, d, x)
  {
    Apart(t, od, on, nd, nn, m);
    MoveNodes(t, t', od, on, nd, nn, m);
  }

  lemma {:induction false} MoveHolds(t: Tree, t': Tree, od: nat, on: string, nd: nat, nn: string, m: nat, d: nat,
                                     x: string, n: nat)
    requires Wf(t) && Moves(t, t', od, on, nd, nn, m) && Named(x)
    ensures Holds(t', d, x, n) <==>
            if d == nd && x == nn then n == m else Holds(t, d, x, n) && !(d == od && x == on)
  {
    MoveLookup(t, t', od, on, nd, nn, m, d, x);
    assert Holds(t', d, x, n) <==> Lookup(t', d, x) == Some(n);
    assert Holds(t, d, x, n) <==> Lookup(t, d, x) == Some(n);
  }

  lemma {:induction false} MoveRefs(t: Tree, t': Tree, od: nat, on: string, nd: nat, nn: string, m: nat, n: nat)
    requires Wf(t) && Moves(t, t', od, on, nd, nn, m)
    ensures if n == m then Swapped(t, t', n, od, on, nd, nn) else SameRefs(t, t', n)
  {
    forall d: nat, x | Named(x)
      ensures Holds(t', d, x, n) <==>
              if d == nd && x == nn then n == m else Holds(t, d, x, n) && !(d == od && x == on)
    {
      MoveHolds(t, t', od, on, nd, nn, m, d, x, n);
    }
  }

  lemma {:induction false} MoveRooted(t: Tree, t': Tree, od: nat, on: string, nd: nat, nn: string, m: nat, n: nat)
    requires Wf(t) && Moves(t, t', od, on, nd, nn, m) && IsDir(t, n)
    ensures Rooted(t', n)
  {
    Open(t, n);
    Open(t, nd);
    Open(t, m);
    forall d: nat ensures Lookup(t', d, "..") == if d == m && IsDir(t, m) then Some(nd) else Lookup(t, d, "..") {
      MoveLookup(t, t', od, on, nd, nn, m, d, "..");
    }
    if IsDir(t, m) { StillRooted(t, t', m, nd, n); } else { RootedSame(t, t', {}, n); }
  }

  lemma {:induction false} MoveLive(t: Tree, t': Tree, od: nat, on: string, nd: nat, nn: string, m: nat, n: nat)
    requires Wf(t) && Moves(t, t', od, on, nd, nn, m) && n in t'
    ensures LiveEntries(t', n)
  {
    MoveNodes(t, t', od, on, nd, nn, m);
    Open(t, n);
    forall x | x in t'[n].entries ensures t'[n].entries[x] in t' {
      MoveLookup(t, t', od, on, nd, nn, m, n, x);
      assert Lookup(t', n, x) == Some(t'[n].entries[x]);
    }
  }

  lemma {:induction false} MovedNode(t: Tree, t': Tree, od: nat, on: string, nd: nat, nn: string, m: nat)
    requires Wf(t) && Moves(t, t', od, on, nd, nn, m)
    ensures m in Good(t')
  {
    Open(t, m);
    Apart(t, od, on, nd, nn, m);
    MoveNodes(t, t', od, on, nd, nn, m);
    MoveRefs(t, t', od, on, nd, nn, m, m);
    RefsSwap(t, t', m, od, on, nd, nn);
    MoveLive(t, t', od, on, nd, nn, m, m);
    if IsDir(t, m) {
      MoveRooted(t, t', od, on, nd, nn, m, m);
      SizeSame(t[m].entries, "..", nd);
      assert Refs(t', m) == {(nd, nn)};
    }
    assert NodeOk(t', m);
  }

  lemma {:induction false} SizeSame(e: map<string, nat>, x: string, n: nat)
    requires x in e
    ensures |e[x := n]| == |e|
  {
    assert e[x := n].Keys == e.Keys;
  }

  lemma {:induction false} MovedSizes(t: Tree, t': Tree, od: nat, on: string, nd: nat, nn: string, m: nat)
    requires Wf(t) && Moves(t, t', od, on, nd, nn, m)
    ensures od in t' && t'[od].size == |t'[od].entries| && nd in t' && t'[nd].size == |t'[nd].entries|
  {
    Open(t, od);
    Open(t, nd);
    MoveNodes(t, t', od, on, nd, nn, m);
    SizeLess(t[od].entries, on);
    if od == nd {
      SizeMore(t[od].entries - {on}, nn, m);
    } else {
      SizeMore(t[nd].entries, nn, m);
    }
  }

  lemma {:induction false} MovedDir(t: Tree, t': Tree, od: nat, on: string, nd: nat, nn: string, m: nat, d: nat)
    requires Wf(t) && Moves(t, t', od, on, nd, nn, m) && (d == od || d == nd)
    ensures d in Good(t')
  {
    Apart(t, od, on, nd, nn, m);
    MoveNodes(t, t', od, on, nd, nn, m);
    MoveRefs(t, t', od, on, nd, nn, m, d);
    MoveLive(t, t', od, on, nd, nn, m, d);
    MoveRooted(t, t', od, on, nd, nn, m, d);
    MovedSizes(t, t', od, on, nd, nn, m);
    MoveLookup(t, t', od, on, nd, nn, m, d, ".");
    MoveLookup(t, t', od, on, nd, nn, m, d, "..");
    Edited(t, t', d);
  }

  lemma {:induction false} MovedOther(t: Tree, t': Tree, od: nat, on: string, nd: nat, nn: string, m: nat, n: nat)
    requires Wf(t) && Moves(t, t', od, on, nd, nn, m) && n in t && n != od && n != nd && n != m
    ensures n in Good(t')
  {
    MoveNodes(t, t', od, on, nd, nn, m);
    MoveRefs(t, t', od, on, nd, nn, m, n);
    MoveLive(t, t', od, on, nd, nn, m, n);
    if IsDir(t, n) { MoveRooted(t, t', od, on, nd, nn, m, n); }
    Unchanged(t, t', n);
  }

  /** A move to a name that is not taken. */
  lemma {:induction false} MoveKeeps(t: Tree, t': Tree, od: nat, on: string, nd: nat, nn: string, m: nat)
    requires Wf(t) && Moves(t, t', od, on, nd, nn, m)
    ensures Wf(t')
  {
    MoveNodes(t, t', od, on, nd, nn, m);
    Apart(t, od, on, nd, nn, m);
    MovedNode(t, t', od, on, nd, nn, m);
    MovedDir(t, t', od, on, nd, nn, m, od);
    MovedDir(t, t', od, on, nd, nn, m, nd);
    forall n | n in t' ensures n in Good(t') {
      if n != od && n != nd && n != m { MovedOther(t, t', od, on, nd, nn, m, n); }
    }
    assert IsDir(t', ROOT);
  }

  // ---------- move over an empty directory ----------

  ghost predicate MovesOver(t: Tree, t': Tree, od: nat, on: string, nd: nat, nn: string, m: nat, target: nat) {
    && Movable(t, od, on, nd, nn, m)
    && Holds(t, nd, nn, target) && IsDir(t, target) && t[target].size <= 2
    && target != od && target != nd && target != m
    && t' == MoveTree(t, od, on, nd, nn, m, Some(target))
  }

  /** An empty directory that is replaced is none of the three others. */
  lemma {:induction false} TargetApart(t: Tree, od: nat, on: string, nd: nat, nn: string, m: nat, target: nat)
    requires Wf(t) && Movable(t, od, on, nd, nn, m)
    requires Holds(t, nd, nn, target) && IsDir(t, target) && t[target].size <= 2
    ensures target != od && target != nd && target != m && target != ROOT
  {
    ChildDir(t, nd, nn, target);
    EmptyIff(t, target);
    if target == m { ChildDir(t, od, on, m); }
  }

  lemma {:induction false} ClimbsBack(t: Tree, t1: Tree, gone: nat, n: nat, a: nat, k: nat)
    requires forall d: nat {:trigger Lookup(t1, d, "..")} :: d != gone ==> Lookup(t1, d, "..") == Lookup(t, d, "..")
    requires Lookup(t1, gone, "..") == None && Climbs(t1, n, a, k)
    ensures Climbs(t, n, a, k)
    decreases k
  {
    if n != a { ClimbsBack(t, t1, gone, Lookup(t1, n, "..").value, a, k - 1); }
  }

  lemma {:induction false} RemovalLookup(t: Tree, dir: nat, name: string, n: nat, d: nat, x: string)
    requires dir in t && Named(name) && n != dir
    ensures Lookup(RmdirTree(t, dir, name, n), d, x) ==
            if d == n || (d == dir && x == name) then None else Lookup(t, d, x)
  {
  }

  lemma {:induction false} OverIsTwoEdits(t: Tree, od: nat, on: string, nd: nat, nn: string, m: nat, target: nat)
    requires od in t && nd in t && m in t && target != od && target != nd && target != m
    ensures var t1 := RmdirTree(t, nd, nn, target);
            od in t1 && nd in t1 && m in t1 && MoveTree(t1, od, on, nd, nn, m, None) == MoveTree(t, od, on, nd, nn, m, Some(target))
  {
  }

  /** Replacing an empty directory is removing it and then moving. */
  lemma {:induction false} OverIsRemoveThenMove(t: Tree, t': Tree, od: nat, on: string, nd: nat, nn: string, m: nat,
                                                target: nat)
    requires Wf(t) && MovesOver(t, t', od, on, nd, nn, m, target)
    ensures var t1 := RmdirTree(t, nd, nn, target);
            Wf(t1) && Moves(t1, t', od, on, nd, nn, m) && (IsDir(t, m) <==> IsDir(t1, m))
  {
    var t1 := RmdirTree(t, nd, nn, target);
    RmdirKeeps(t, t1, nd, nn, target);
    OverIsTwoEdits(t, od, on, nd, nn, m, target);
    if IsDir(t1, m) && Inside(t1, nd, m) {
      var k: nat :| Climbs(t1, nd, m, k);
      forall d: nat ensures Lookup(t1, d, "..") == if d == target then None else Lookup(t, d, "..") {
        RemovalLookup(t, nd, nn, target, d, "..");
      }
      ClimbsBack(t, t1, target, nd, m, k);
    }
  }

  lemma {:induction false} MoveOverKeeps(t: Tree, t': Tree, od: nat, on: string, nd: nat, nn: string, m: nat,
                                         target: nat)
    requires Wf(t) && MovesOver(t, t', od, on, nd, nn, m, target)
    ensures Wf(t')
  {
    OverIsRemoveThenMove(t, t', od, on, nd, nn, m, target);
    MoveKeeps(RmdirTree(t, nd, nn, target), t', od, on, nd, nn, m);
  }

  lemma {:induction false} MoveOverLookup(t: Tree, t': Tree, od: nat, on: string, nd: nat, nn: string, m: nat,
                                          target: nat, d: nat, x: string)
    requires Wf(t) && MovesOver(t, t', od, on, nd, nn, m, target)
    ensures Lookup(t', d, x) ==
            if d == nd && x == nn then Some(m)
            else if d == od && x == on then None
            else if d == m && x == ".." && IsDir(t, m) then Some(nd)
            else if d == target then None
            else Lookup(t, d, x)
  {
    OverIsRemoveThenMove(t, t', od, on, nd, nn, m, target);
    MoveLookup(RmdirTree(t, nd, nn, target), t', od, on, nd, nn, m, d, x);
    RemovalLookup(t, nd, nn, target, d, x);
  }

  // ---------- move over a name that the code did not load ----------

  lemma {:induction false} WrongCount(t: Tree, d: nat)
    requires IsDir(t, d) && t[d].size != |t[d].entries|
    ensures !Wf(t)
  {
    if Wf(t) { Open(t, d); }
  }

  /** In a directory that is not sticky the target is not looked at: the entry is replaced as if it were new, and
      the directory's size no longer counts its entries. */
  lemma {:induction false} MoveBreaks(t: Tree, od: nat, on: string, nd: nat, nn: string, m: nat)
    requires Wf(t) && Movable(t, od, on, nd, nn, m) && nn in t[nd].entries
    ensures !Wf(MoveTree(t, od, on, nd, nn, m, None))
  {
    var t' := MoveTree(t, od, on, nd, nn, m, None);
    Apart(t, od, on, nd, nn, m);
    Open(t, nd);
    SizeLess(t[od].entries, on);
    if od == nd { SizeSame(t[nd].entries - {on}, nn, m); } else { SizeSame(t[nd].entries, nn, m); }
    WrongCount(t', nd);
  }

  // ---------- exchange ----------

  ghost predicate Exchanges(t: Tree, t': Tree, od: nat, on: string, nd: nat, nn: string, m: nat, target: nat) {
    && Movable(t, od, on, nd, nn, m)
    && target in t && Holds(t, nd, nn, target) && (IsDir(t, target) ==> !Inside(t, od, target))
    && t' == ExchangeTree(t, od, on, nd, nn, m, target)
  }

  lemma {:induction false} ExchangeApart(t: Tree, t': Tree, od: nat, on: string, nd: nat, nn: string, m: nat,
                                         target: nat)
    requires Wf(t) && Exchanges(t, t', od, on, nd, nn, m, target)
    ensures m != od && m != nd && target != od && target != nd
    ensures IsDir(t, m) || IsDir(t, target) ==> m != target
  {
    Apart(t, od, on, nd, nn, m);
    Open(t, target);
    if IsDir(t, target) {
      ChildDir(t, nd, nn, target);
      NotItself(t, od, target);
      if m == target { ChildDir(t, od, on, m); }
    }
  }

  lemma {:induction false} ExchangeLookup(t: Tree, t': Tree, od: nat, on: string, nd: nat, nn: string, m: nat,
                                          target: nat, d: nat, x: string)
    requires Wf(t) && Exchanges(t, t', od, on, nd, nn, m, target) && !IsDir(t, m)
    ensures Lookup(t', d, x) ==
            if d == nd && x == nn then Some(m)
            else if d == od && x == on then Some(target)
            else if d == target && x == ".." && IsDir(t, target) then Some(od)
            else Lookup(t, d, x)
    ensures t'.Keys == t.Keys
  {
    ExchangeApart(t, t', od, on, nd, nn, m, target);
  }

  lemma {:induction false} ExchangeHolds(t: Tree, t': Tree, od: nat, on: string, nd: nat, nn: string, m: nat,
                                         target: nat, d: nat, x: string, n: nat)
    requires Wf(t) && Exchanges(t, t', od, on, nd, nn, m, target) && !IsDir(t, m) && Named(x)
    ensures Holds(t', d, x, n) <==>
            if d == nd && x == nn then n == m else if d == od && x == on then n == target else Holds(t, d, x, n)
  {
    ExchangeLookup(t, t', od, on, nd, nn, m, target, d, x);
    assert Holds(t', d, x, n) <==> Lookup(t', d, x) == Some(n);
    assert Holds(t, d, x, n) <==> Lookup(t, d, x) == Some(n);
  }

  lemma {:induction false} ExchangeRefs(t: Tree, t': Tree, od: nat, on: string, nd: nat, nn: string, m: nat,
                                        target: nat, n: nat)
    requires Wf(t) && Exchanges(t, t', od, on, nd, nn, m, target) && !IsDir(t, m)
    ensures n == m && n != target ==> Swapped(t, t', n, od, on, nd, nn)
    ensures n == target && n != m ==> Swapped(t, t', n, nd, nn, od, on)
    ensures (n != m && n != target) || m == target ==> SameRefs(t, t', n)
  {
    forall d: nat, x | Named(x)
      ensures Holds(t', d, x, n) <==>
              if d == nd && x == nn then n == m else if d == od && x == on then n == target else Holds(t, d, x, n)
    {
      ExchangeHolds(t, t', od, on, nd, nn, m, target, d, x, n);
    }
  }

  lemma {:induction false} ExchangeNodes(t: Tree, t': Tree, od: nat, on: string, nd: nat, nn: string, m: nat,
                                         target: nat, n: nat)
    requires Wf(t) && Exchanges(t, t', od, on, nd, nn, m, target) && !IsDir(t, m) && n in t
    ensures n in t' && t'[n] == t[n].(entries := t'[n].entries) && t'[n].entries.Keys == t[n].entries.Keys
    ensures n != od && n != nd && !(n == target && IsDir(t, target)) ==> t'[n] == t[n]
  {
    ExchangeApart(t, t', od, on, nd, nn, m, target);
    if IsDir(t, target) { ChildDir(t, nd, nn, target); }
    forall x ensures x in t'[n].entries <==> x in t[n].entries {
      ExchangeLookup(t, t', od, on, nd, nn, m, target, n, x);
      assert Lookup(t', n, x).Some? <==> x in t'[n].entries;
    }
  }

  lemma {:induction false} ExchangeRooted(t: Tree, t': Tree, od: nat, on: string, nd: nat, nn: string, m: nat,
                                          target: nat, n: nat)
    requires Wf(t) && Exchanges(t, t', od, on, nd, nn, m, target) && !IsDir(t, m) && IsDir(t, n)
    ensures Rooted(t', n)
  {
    Open(t, n);
    Open(t, od);
    Open(t, target);
    forall d: nat ensures Lookup(t', d, "..") == if d == target && IsDir(t, target) then Some(od) else Lookup(t, d, "..") {
      ExchangeLookup(t, t', od, on, nd, nn, m, target, d, "..");
    }
    if IsDir(t, target) { StillRooted(t, t', target, od, n); } else { RootedSame(t, t', {}, n); }
  }

  lemma {:induction false} ExchangeLive(t: Tree, t': Tree, od: nat, on: string, nd: nat, nn: string, m: nat,
                                        target: nat, n: nat)
    requires Wf(t) && Exchanges(t, t', od, on, nd, nn, m, target) && !IsDir(t, m) && n in t'
    ensures LiveEntries(t', n)
  {
    ExchangeLookup(t, t', od, on, nd, nn, m, target, n, "");
    Open(t, n);
    forall x | x in t'[n].entries ensures t'[n].entries[x] in t' {
      ExchangeLookup(t, t', od, on, nd, nn, m, target, n, x);
      assert Lookup(t', n, x) == Some(t'[n].entries[x]);
    }
  }

  lemma {:induction false} ExchangedNode(t: Tree, t': Tree, od: nat, on: string, nd: nat, nn: string, m: nat,
                                         target: nat, n: nat)
    requires Wf(t) && Exchanges(t, t', od, on, nd, nn, m, target) && !IsDir(t, m) && (n == m || n == target)
    ensures n in Good(t')
  {
    Open(t, n);
    ExchangeApart(t, t', od, on, nd, nn, m, target);
    ExchangeNodes(t, t', od, on, nd, nn, m, target, n);
    ExchangeRefs(t, t', od, on, nd, nn, m, target, n);
    ExchangeLive(t, t', od, on, nd, nn, m, target, n);
    if m == target {
      RefsSame(t, t', n);
    } else if n == m {
      RefsSwap(t, t', n, od, on, nd, nn);
    } else {
      RefsSwap(t, t', n, nd, nn, od, on);
    }
    if IsDir(t, n) {
      ChildDir(t, nd, nn, n);
      ExchangeRooted(t, t', od, on, nd, nn, m, target, n);
      ExchangeLookup(t, t', od, on, nd, nn, m, target, n, ".");
      ExchangeLookup(t, t', od, on, nd, nn, m, target, n, "..");
      assert Refs(t', n) == {(od, on)};
    }
    assert NodeOk(t', n);
  }

  lemma {:induction false} ExchangedDir(t: Tree, t': Tree, od: nat, on: string, nd: nat, nn: string, m: nat,
                                        target: nat, d: nat)
    requires Wf(t) && Exchanges(t, t', od, on, nd, nn, m, target) && !IsDir(t, m) && (d == od || d == nd)
    ensures d in Good(t')
  {
    Open(t, d);
    ExchangeApart(t, t', od, on, nd, nn, m, target);
    ExchangeNodes(t, t', od, on, nd, nn, m, target, d);
    ExchangeRefs(t, t', od, on, nd, nn, m, target, d);
    ExchangeLive(t, t', od, on, nd, nn, m, target, d);
    ExchangeRooted(t, t', od, on, nd, nn, m, target, d);
    ExchangeLookup(t, t', od, on, nd, nn, m, target, d, ".");
    ExchangeLookup(t, t', od, on, nd, nn, m, target, d, "..");
    assert |t'[d].entries.Keys| == |t[d].entries.Keys|;
    Edited(t, t', d);
  }

  lemma {:induction false} ExchangedOther(t: Tree, t': Tree, od: nat, on: string, nd: nat, nn: string, m: nat,
                                          target: nat, n: nat)
    requires Wf(t) && Exchanges(t, t', od, on, nd, nn, m, target) && !IsDir(t, m)
    requires n in t && n != od && n != nd && n != m && n != target
    ensures n in Good(t')
  {
    ExchangeNodes(t, t', od, on, nd, nn, m, target, n);
    ExchangeRefs(t, t', od, on, nd, nn, m, target, n);
    ExchangeLive(t, t', od, on, nd, nn, m, target, n);
    if IsDir(t, n) { ExchangeRooted(t, t', od, on, nd, nn, m, target, n); }
    Unchanged(t, t', n);
  }

  lemma {:induction false} ExchangeKeeps(t: Tree, t': Tree, od: nat, on: string, nd: nat, nn: string, m: nat,
                                         target: nat)
    requires Wf(t) && Exchanges(t, t', od, on, nd, nn, m, target) && !IsDir(t, m)
    ensures Wf(t')
  {
    ExchangeLookup(t, t', od, on, nd, nn, m, target, ROOT, ".");
    ExchangedNode(t, t', od, on, nd, nn, m, target, m);
    ExchangedNode(t, t', od, on, nd, nn, m, target, target);
    ExchangedDir(t, t', od, on, nd, nn, m, target, od);
    ExchangedDir(t, t', od, on, nd, nn, m, target, nd);
    forall n | n in t' ensures n in Good(t') {
      if n != od && n != nd && n != m && n != target { ExchangedOther(t, t', od, on, nd, nn, m, target, n); }
    }
    ExchangeNodes(t, t', od, on, nd, nn, m, target, ROOT);
  }

  /** An exchanged directory gets its new parent as its ".", not as its "..". */
  lemma {:induction false} ExchangeBreaks(t: Tree, t': Tree, od: nat, on: string, nd: nat, nn: string, m: nat,
                                          target: nat)
    requires Wf(t) && Exchanges(t, t', od, on, nd, nn, m, target) && IsDir(t, m)
    ensures !Wf(t')
  {
    ExchangeApart(t, t', od, on, nd, nn, m, target);
    assert Lookup(t', m, ".") == Some(nd);
    if Wf(t') { Open(t', m); }
  }

  /** Exchanging two files twice restores the whole tree. */
  lemma {:induction false} ExchangeTwice(t: Tree, t': Tree, od: nat, on: string, nd: nat, nn: string, m: nat,
                                         target: nat)
    requires Wf(t) && Exchanges(t, t', od, on, nd, nn, m, target) && !IsDir(t, m) && !IsDir(t, target)
    ensures Lookup(t', od, on) == Some(target) && Lookup(t', nd, nn) == Some(m)
    ensures ExchangeTree(t', od, on, nd, nn, target, m) == t
  {
    ExchangeApart(t, t', od, on, nd, nn, m, target);
    var t2 := ExchangeTree(t', od, on, nd, nn, target, m);
    forall n | n in t ensures n in t2 && t2[n] == t[n] { assert t2[n].entries == t[n].entries; }
    assert t2.Keys == t.Keys;
  }
}
