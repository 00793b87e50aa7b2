/** The operation interpreter of src/extend.rs over nested buckets. */
module Extend {
  import opened Slices
  import opened Errors

  /** A key of a bucket holds a value or a nested bucket. */
  datatype Node = Leaf(value: seq<byte>) | Dir(bucket: map<string, Node>)

  type Bucket = map<string, Node>

  /** An operation set is the list of its operations; one that is absent is an empty one. Read writes into the
      caller's memory at an address. */
  datatype Operate =
    | RenameKey(oldKey: string, newKey: string)
    | AddKey(pairs: seq<(string, seq<byte>)>)
    | AddBucket(key: string, other: seq<Operate>)
    | DeleteKey(keys: seq<string>)
    | Read(keys: seq<string>, addr: nat, size: nat)
    | StepInto(key: string, other: seq<Operate>)

  /** An unwrap that fails panics: the transaction is dropped, what Read has written stays. */
  datatype Ran = Done(bucket: Bucket, mem: seq<byte>) | Panicked(mem: seq<byte>)

  predicate IsLeaf(m: Bucket, k: string) { k in m && m[k].Leaf? }

  predicate IsBucket(m: Bucket, k: string) { k in m && m[k].Dir? }

  // ---------- what the operations mean ----------

  /** Puts fail on the key of a bucket. */
  function Added(m: Bucket, pairs: seq<(string, seq<byte>)>): Option<Bucket>
    decreases |pairs|
  {
    if pairs == [] then Some(m)
    else if IsBucket(m, pairs[0].0) then None
    else Added(m[pairs[0].0 := Leaf(pairs[0].1)], pairs[1..])
  }

  /** Deletes fail on anything but the key of a value. */
  function Deleted(m: Bucket, keys: seq<string>): Option<Bucket>
    decreases |keys|
  {
    if keys == [] then Some(m)
    else if !IsLeaf(m, keys[0]) then None
    else Deleted(m - {keys[0]}, keys[1..])
  }

  /** The values of the keys, up to the first key that has none, in one sequence. */
  function Gathered(m: Bucket, keys: seq<string>): seq<byte> {
    if keys == [] || !IsLeaf(m, keys[0]) then [] else m[keys[0]].value + Gathered(m, keys[1..])
  }

  predicate AllLeaves(m: Bucket, keys: seq<string>) {
    keys == [] || (IsLeaf(m, keys[0]) && AllLeaves(m, keys[1..]))
  }

  /** A bucket moves with all it holds. A value is put under the new key and stays under the old one. */
  function Renamed(m: Bucket, oldKey: string, newKey: string): Bucket {
    if oldKey !in m || oldKey == newKey || newKey in m then m
    else if m[oldKey].Leaf? then m[newKey := m[oldKey]]
    else m[newKey := m[oldKey]] - {oldKey}
  }

  /** The caller's buffers lie inside its memory. */
  predicate BuffersFit(ops: seq<Operate>, len: nat) {
    forall i :: 0 <= i < |ops| ==> BufferFits(ops[i], len)
  }

  predicate BufferFits(op: Operate, len: nat) {
    match op
    case Read(_, addr, size) => addr + size <= len
    case AddBucket(_, other) => BuffersFit(other, len)
    case StepInto(_, other) => BuffersFit(other, len)
    case _ => true
  }

  function Nested(m: Bucket, key: string, r: Ran): Ran {
    match r case Panicked(mem) => Panicked(mem) case Done(b, mem) => Done(m[key := Dir(b)], mem)
  }

  function Exec1(m: Bucket, mem: seq<byte>, op: Operate): (r: Ran)
    requires BufferFits(op, |mem|)
    ensures |r.mem| == |mem|
    decreases op
  {
    match op
    case RenameKey(o, n) => Done(Renamed(m, o, n), mem)
    case AddKey(pairs) => (match Added(m, pairs) case None => Panicked(mem) case Some(m') => Done(m', mem))
    case AddBucket(key, other) =>
      if IsBucket(m, key) then Done(m, mem)
      else if key in m then Panicked(mem)
      else Nested(m, key, Exec(map[], mem, other))
    case DeleteKey(keys) => (match Deleted(m, keys) case None => Panicked(mem) case Some(m') => Done(m', mem))
    case Read(keys, addr, size) =>
      var mem' := Overlay(mem, addr, Take(Gathered(m, keys), size));
      if AllLeaves(m, keys) then Done(m, mem') else Panicked(mem')
    case StepInto(key, other) =>
      if !IsBucket(m, key) then Panicked(mem) else Nested(m, key, Exec(m[key].bucket, mem, other))
  }

  function Exec(m: Bucket, mem: seq<byte>, ops: seq<Operate>): (r: Ran)
    requires BuffersFit(ops, |mem|)
    ensures |r.mem| == |mem|
    decreases ops
  {
    if ops == [] then Done(m, mem)
    else
      match Exec1(m, mem, ops[0])
      case Panicked(mem1) => Panicked(mem1)
      case Done(m1, mem1) => Exec(m1, mem1, ops[1..])
  }

  function Then(r: Ran, ops: seq<Operate>): Ran
    requires BuffersFit(ops, |r.mem|)
  {
    match r case Panicked(mem) => Panicked(mem) case Done(m, mem) => Exec(m, mem, ops)
  }

  // ---------- laws ----------

  /** Running two lists as one is running them in sequence, a failure in the first ending both. */
  lemma {:induction false} Compose(m: Bucket, mem: seq<byte>, a: seq<Operate>, b: seq<Operate>)
    requires BuffersFit(a, |mem|) && BuffersFit(b, |mem|)
    ensures BuffersFit(a + b, |mem|) && Exec(m, mem, a + b) == Then(Exec(m, mem, a), b)
    decreases |a|
  {
    if a == [] {
      assert a + b == b;
    } else {
      assert (a + b)[0] == a[0] && (a + b)[1..] == a[1..] + b;
      var r := Exec1(m, mem, a[0]);
      if r.Done? { Compose(r.bucket, r.mem, a[1..], b); }
    }
  }

  /** What is at the end of a path. */
  function At(m: Bucket, path: seq<string>): Option<Node>
    requires path != []
    decreases |path|
  {
    if path[0] !in m then None
    else if |path| == 1 then Some(m[path[0]])
    else if m[path[0]].Leaf? then None
    else At(m[path[0]].bucket, path[1..])
  }

  /** No operation addresses the path or a bucket on the way to it. */
  predicate Avoids(ops: seq<Operate>, path: seq<string>)
    requires path != []
    decreases ops
  {
    forall i :: 0 <= i < |ops| ==> Avoids1(ops[i], path)
  }

  predicate Avoids1(op: Operate, path: seq<string>)
    requires path != []
    decreases op
  {
    match op
    case RenameKey(o, n) => path[0] != o && path[0] != n
    case AddKey(pairs) => forall i :: 0 <= i < |pairs| ==> pairs[i].0 != path[0]
    case DeleteKey(keys) => path[0] !in keys
    case Read(_, _, _) => true
    case AddBucket(key, other) => path[0] != key || (|path| > 1 && Avoids(other, path[1..]))
    case StepInto(key, other) => path[0] != key || (|path| > 1 && Avoids(other, path[1..]))
  }

  lemma {:induction false} AddedFrame(m: Bucket, pairs: seq<(string, seq<byte>)>, k: string)
    requires Added(m, pairs).Some? && forall i :: 0 <= i < |pairs| ==> pairs[i].0 != k
    ensures var m' := Added(m, pairs).value; (k in m' <==> k in m) && (k in m ==> m'[k] == m[k])
    decreases |pairs|
  {
    if pairs != [] {
      AddedFrame(m[pairs[0].0 := Leaf(pairs[0].1)], pairs[1..], k);
    }
  }

  lemma {:induction false} DeletedFrame(m: Bucket, keys: seq<string>, k: string)
    requires Deleted(m, keys).Some? && k !in keys
    ensures var m' := Deleted(m, keys).value; (k in m' <==> k in m) && (k in m ==> m'[k] == m[k])
    decreases |keys|
  {
    if keys != [] { DeletedFrame(m - {keys[0]}, keys[1..], k); }
  }

  lemma {:induction false} SameAt(m: Bucket, m': Bucket, path: seq<string>)
    requires path != [] && (path[0] in m' <==> path[0] in m) && (path[0] in m ==> m'[path[0]] == m[path[0]])
    ensures At(m', path) == At(m, path)
  {
  }

  lemma {:induction false} Frame1(m: Bucket, mem: seq<byte>, op: Operate, path: seq<string>)
    requires path != [] && BufferFits(op, |mem|) && Avoids1(op, path) && Exec1(m, mem, op).Done?
    ensures At(Exec1(m, mem, op).bucket, path) == At(m, path)
    decreases op
  {
    var m' := Exec1(m, mem, op).bucket;
    match op
    case RenameKey(o, n) => SameAt(m, m', path);
    case AddKey(pairs) =>
      AddedFrame(m, pairs, path[0]);
      SameAt(m, m', path);
    case DeleteKey(keys) =>
      DeletedFrame(m, keys, path[0]);
      SameAt(m, m', path);
    case Read(_, _, _) =>
    case AddBucket(key, other) =>
      if path[0] == key && key !in m { Frame(map[], mem, other, path[1..]); } else { SameAt(m, m', path); }
    case StepInto(key, other) =>
      if path[0] == key { Frame(m[key].bucket, mem, other, path[1..]); } else { SameAt(m, m', path); }
  }

  /** Whatever the operations do not address, at any depth, is as it was. */
  lemma {:induction false} Frame(m: Bucket, mem: seq<byte>, ops: seq<Operate>, path: seq<string>)
    requires path != [] && BuffersFit(ops, |mem|) && Avoids(ops, path) && Exec(m, mem, ops).Done?
    ensures At(Exec(m, mem, ops).bucket, path) == At(m, path)
    decreases ops
  {
    if ops != [] {
      Frame1(m, mem, ops[0], path);
      var r := Exec1(m, mem, ops[0]);
      Frame(r.bucket, r.mem, ops[1..], path);
    }
  }

  /** No Read has address p in its buffer. */
  predicate NotRead(ops: seq<Operate>, p: nat)
    decreases ops
  {
    forall i :: 0 <= i < |ops| ==> NotRead1(ops[i], p)
  }

  predicate NotRead1(op: Operate, p: nat)
    decreases op
  {
    match op
    case Read(_, addr, size) => !(addr <= p < addr + size)
    case AddBucket(_, other) => NotRead(other, p)
    case StepInto(_, other) => NotRead(other, p)
    case _ => true
  }

  lemma {:induction false} MemFrame1(m: Bucket, mem: seq<byte>, op: Operate, p: nat)
    requires BufferFits(op, |mem|) && NotRead1(op, p) && p < |mem|
    ensures Exec1(m, mem, op).mem[p] == mem[p]
    decreases op
  {
    match op
    case AddBucket(key, other) => MemFrame(map[], mem, other, p);
    case StepInto(key, other) => if IsBucket(m, key) { MemFrame(m[key].bucket, mem, other, p); }
    case _ =>
  }

  /** Memory outside the buffers is as it was, whether the operations panic or not. */
  lemma {:induction false} MemFrame(m: Bucket, mem: seq<byte>, ops: seq<Operate>, p: nat)
    requires BuffersFit(ops, |mem|) && NotRead(ops, p) && p < |mem|
    ensures Exec(m, mem, ops).mem[p] == mem[p]
    decreases ops
  {
    if ops != [] {
      MemFrame1(m, mem, ops[0], p);
      var r := Exec1(m, mem, ops[0]);
      if r.Done? { MemFrame(r.bucket, r.mem, ops[1..], p); }
    }
  }

  // ---------- what each operation leaves where it is addressed ----------

  /** An empty list does nothing, a list of one operation does that operation; Compose gives the rest. */
  lemma {:induction false} ExecSingle(m: Bucket, mem: seq<byte>, op: Operate)
    requires BufferFits(op, |mem|)
    ensures Exec(m, mem, []) == Done(m, mem)
    ensures Exec(m, mem, [op]) == Exec1(m, mem, op)
  {
    var r := Exec1(m, mem, op);
    assert [op][1..] == [];
    if r.Done? { assert Exec(r.bucket, r.mem, []) == r; }
  }

  /** Renaming moves what was under the old key exactly when that is a bucket; a value is left there as well. Nothing
      happens if there is nothing to rename or the new key is taken. */
  lemma {:induction false} RenameMovesIff(m: Bucket, mem: seq<byte>, oldKey: string, newKey: string)
    ensures Exec1(m, mem, RenameKey(oldKey, newKey)).Done? && Exec1(m, mem, RenameKey(oldKey, newKey)).mem == mem
    ensures var m' := Exec1(m, mem, RenameKey(oldKey, newKey)).bucket;
            if oldKey in m && newKey !in m then
              && At(m', [newKey]) == Some(m[oldKey])
              && At(m', [oldKey]) == (if m[oldKey].Dir? then None else Some(m[oldKey]))
              && (forall k :: k != oldKey && k != newKey ==> At(m', [k]) == At(m, [k]))
            else m' == m
  {
  }

  /** AddKey panics exactly if one of its keys is that of a bucket. */
  lemma {:induction false} AddPanicsIff(m: Bucket, pairs: seq<(string, seq<byte>)>)
    ensures Added(m, pairs) == None <==> exists i :: 0 <= i < |pairs| && IsBucket(m, pairs[i].0)
    decreases |pairs|
  {
    if pairs != [] && !IsBucket(m, pairs[0].0) {
      var m1, rest := m[pairs[0].0 := Leaf(pairs[0].1)], pairs[1..];
      AddPanicsIff(m1, rest);
      forall i | 0 <= i < |rest| ensures IsBucket(m1, rest[i].0) <==> IsBucket(m, pairs[i + 1].0) { }
      forall i | 0 < i < |pairs| ensures IsBucket(m, pairs[i].0) <==> IsBucket(m1, rest[i - 1].0) { }
    }
  }

  /** Pair i is the last one of its key. */
  predicate LastPair(pairs: seq<(string, seq<byte>)>, i: nat) {
    i < |pairs| && forall j :: i < j < |pairs| ==> pairs[j].0 != pairs[i].0
  }

  lemma {:induction false} AddedHolds(m: Bucket, pairs: seq<(string, seq<byte>)>, i: nat)
    requires Added(m, pairs).Some? && LastPair(pairs, i)
    ensures var m' := Added(m, pairs).value; pairs[i].0 in m' && m'[pairs[i].0] == Leaf(pairs[i].1)
    decreases |pairs|
  {
    var m1, rest := m[pairs[0].0 := Leaf(pairs[0].1)], pairs[1..];
    if i > 0 {
      AddedHolds(m1, rest, i - 1);
    } else {
      forall j | 0 <= j < |rest| ensures rest[j].0 != pairs[0].0 { assert rest[j] == pairs[j + 1]; }
      AddedFrame(m1, rest, pairs[0].0);
    }
  }

  /** After AddKey each of its keys holds the last value paired with it; it panics exactly if one is that of a bucket. */
  lemma {:induction false} AddKeyEffect(m: Bucket, mem: seq<byte>, pairs: seq<(string, seq<byte>)>)
    ensures var r := Exec1(m, mem, AddKey(pairs));
            && r.mem == mem
            && (r.Panicked? <==> exists i :: 0 <= i < |pairs| && IsBucket(m, pairs[i].0))
            && (r.Done? ==> forall i: nat :: LastPair(pairs, i) ==> At(r.bucket, [pairs[i].0]) == Some(Leaf(pairs[i].1)))
  {
    AddPanicsIff(m, pairs);
    if Added(m, pairs).Some? {
      forall i: nat | LastPair(pairs, i)
        ensures At(Added(m, pairs).value, [pairs[i].0]) == Some(Leaf(pairs[i].1))
      {
        AddedHolds(m, pairs, i);
      }
    }
  }

  ghost predicate AllDifferent(keys: seq<string>) {
    keys == [] || (keys[0] !in keys[1..] && AllDifferent(keys[1..]))
  }

  lemma {:induction false} DeletedIs(m: Bucket, keys: seq<string>)
    ensures Deleted(m, keys).Some? <==> AllDifferent(keys) && forall k :: k in keys ==> IsLeaf(m, k)
    ensures Deleted(m, keys).Some? ==> Deleted(m, keys).value == m - set k | k in keys
    decreases |keys|
  {
    if keys != [] {
      var k, rest, m1 := keys[0], keys[1..], m - {keys[0]};
      assert keys == [k] + rest;
      DeletedIs(m1, rest);
      if k !in rest { assert forall x :: x in rest ==> (IsLeaf(m1, x) <==> IsLeaf(m, x)); }
      if Deleted(m, keys).Some? { assert m1 - (set x | x in rest) == m - set x | x in keys; }
    }
  }

  /** DeleteKey panics exactly if a key is missing, is that of a bucket or comes twice; otherwise none of its keys is
      left. */
  lemma {:induction false} DeleteKeyEffect(m: Bucket, mem: seq<byte>, keys: seq<string>)
    ensures var r := Exec1(m, mem, DeleteKey(keys));
            && r.mem == mem
            && (r.Done? <==> AllDifferent(keys) && forall k :: k in keys ==> IsLeaf(m, k))
            && (r.Done? ==> forall k :: At(r.bucket, [k]) == if k in keys then None else At(m, [k]))
  {
    DeletedIs(m, keys);
  }

  /** After StepInto, what is below its key is what its operations leave of the old bucket; it panics exactly if there
      is no such bucket or they do. */
  lemma {:induction false} StepIntoEffect(m: Bucket, mem: seq<byte>, key: string, ops: seq<Operate>, path: seq<string>)
    requires BuffersFit(ops, |mem|) && path != []
    ensures var r := Exec1(m, mem, StepInto(key, ops));
            if !IsBucket(m, key) then r == Panicked(mem)
            else var inner := Exec(m[key].bucket, mem, ops);
              && r.mem == inner.mem && (r.Done? <==> inner.Done?)
              && (r.Done? ==> At(r.bucket, [key]) == Some(Dir(inner.bucket)))
              && (r.Done? ==> At(r.bucket, [key] + path) == At(inner.bucket, path))
  {
    assert ([key] + path)[1..] == path;
  }

  /** AddBucket of an absent key leaves a bucket there, which its operations have filled; one that is there already is
      left alone, and a value in its place panics. */
  lemma {:induction false} AddBucketEffect(m: Bucket, mem: seq<byte>, key: string, ops: seq<Operate>, path: seq<string>)
    requires BuffersFit(ops, |mem|) && path != []
    ensures var r := Exec1(m, mem, AddBucket(key, ops));
            if IsBucket(m, key) then r == Done(m, mem)
            else if IsLeaf(m, key) then r == Panicked(mem)
            else var inner := Exec(map[], mem, ops);
              && r.mem == inner.mem && (r.Done? <==> inner.Done?)
              && (r.Done? ==> At(r.bucket, [key]) == Some(Dir(inner.bucket)))
              && (r.Done? ==> At(r.bucket, [key] + path) == At(inner.bucket, path))
  {
    assert ([key] + path)[1..] == path;
  }

  /** Where the value of the j-th key begins among the values one after the other. */
  function ValueStart(m: Bucket, keys: seq<string>, j: nat): nat
    requires j <= |keys| && forall i :: 0 <= i < j ==> IsLeaf(m, keys[i])
  {
    if j == 0 then 0
    else assert IsLeaf(m, keys[j - 1]); ValueStart(m, keys, j - 1) + |m[keys[j - 1]].value|
  }

  lemma {:induction false} ValueStartTail(m: Bucket, keys: seq<string>, j: nat)
    requires 0 < j <= |keys| && IsLeaf(m, keys[0]) && forall i :: 0 <= i < j ==> IsLeaf(m, keys[i])
    ensures ValueStart(m, keys, j) == |m[keys[0]].value| + ValueStart(m, keys[1..], j - 1)
  {
    if j > 1 { ValueStartTail(m, keys, j - 1); }
  }

  lemma {:induction false} GatheredAt(m: Bucket, keys: seq<string>, j: nat, b: nat)
    requires j < |keys| && (forall i :: 0 <= i < j ==> IsLeaf(m, keys[i])) && IsLeaf(m, keys[j]) && b < |m[keys[j]].value|
    ensures var p := ValueStart(m, keys, j) + b; p < |Gathered(m, keys)| && Gathered(m, keys)[p] == m[keys[j]].value[b]
    decreases |keys|
  {
    if j > 0 {
      GatheredAt(m, keys[1..], j - 1, b);
      ValueStartTail(m, keys, j);
    }
  }

  /** Read writes the bytes of its values one after the other, each at its place, as far as the buffer goes. */
  lemma {:induction false} ReadBytes(m: Bucket, mem: seq<byte>, keys: seq<string>, addr: nat, size: nat, j: nat, b: nat)
    requires addr + size <= |mem| && j < |keys| && (forall i :: 0 <= i < j ==> IsLeaf(m, keys[i])) && IsLeaf(m, keys[j])
    requires b < |m[keys[j]].value| && ValueStart(m, keys, j) + b < size
    ensures Exec1(m, mem, Read(keys, addr, size)).mem[addr + ValueStart(m, keys, j) + b] == m[keys[j]].value[b]
  {
    GatheredAt(m, keys, j, b);
  }

  lemma {:induction false} GatheredLength(m: Bucket, keys: seq<string>, j: nat)
    requires j <= |keys| && (forall i :: 0 <= i < j ==> IsLeaf(m, keys[i])) && (j == |keys| || !IsLeaf(m, keys[j]))
    ensures |Gathered(m, keys)| == ValueStart(m, keys, j)
    ensures AllLeaves(m, keys) <==> j == |keys|
    decreases |keys|
  {
    if j > 0 {
      GatheredLength(m, keys[1..], j - 1);
      ValueStartTail(m, keys, j);
    }
  }

  /** Past the values, which end before the first key without one, it writes nothing; it changes no bucket, and panics
      exactly if there is such a key. */
  lemma {:induction false} ReadEnds(m: Bucket, mem: seq<byte>, keys: seq<string>, addr: nat, size: nat, j: nat, p: nat)
    requires addr + size <= |mem| && p < |mem|
    requires j <= |keys| && (forall i :: 0 <= i < j ==> IsLeaf(m, keys[i])) && (j == |keys| || !IsLeaf(m, keys[j]))
    ensures var r := Exec1(m, mem, Read(keys, addr, size));
            && (p < addr || p >= addr + Min(size, ValueStart(m, keys, j)) ==> r.mem[p] == mem[p])
            && (r.Done? <==> j == |keys|)
            && (r.Done? ==> r.bucket == m)
  {
    GatheredLength(m, keys, j);
  }

  // ---------- the copy ----------

  /** The puts and the bucket creations of a copy fail where the new bucket already holds something else. */
  ghost predicate Clashes(source: Bucket, into: Bucket) {
    exists k :: k in source && k in into && (source[k].Dir? || into[k].Dir?)
  }

  /** Where a copy stands: the keys in `todo` are still to come. */
  ghost predicate Copied(source: Bucket, into: Bucket, todo: set<string>, bucket: Bucket) {
    && todo <= source.Keys
    && (forall k :: k in bucket <==> k in into || (k in source && k !in todo))
    && (forall k :: k in bucket ==> bucket[k] == if k in source && k !in todo then source[k] else into[k])
    && (forall k :: k in source && k !in todo && k in into ==> source[k].Leaf? && into[k].Leaf?)
  }

  lemma {:induction false} CopyTurn(source: Bucket, into: Bucket, todo: set<string>, bucket: Bucket, k: string)
    requires Copied(source, into, todo, bucket) && k in todo
    ensures k in bucket <==> k in into
    ensures k in bucket ==> bucket[k] == into[k]
    ensures k in into && (source[k].Dir? || into[k].Dir?) ==> Clashes(source, into)
    ensures !(k in into && (source[k].Dir? || into[k].Dir?)) ==> Copied(source, into, todo - {k}, bucket[k := source[k]])
  {
  }

  lemma {:induction false} CopyEnds(source: Bucket, into: Bucket, bucket: Bucket)
    requires Copied(source, into, {}, bucket)
    ensures !Clashes(source, into) && bucket == into + source
  {
  }

  /** copy_bucket_data_recursive. Into an empty bucket it yields a tree equal to the source at every depth. The order
      in which the cursor meets the keys does not matter. */
  method CopyBucket(source: Node, into: Bucket) returns (r: Option<Bucket>)
    requires source.Dir?
    ensures r == if Clashes(source.bucket, into) then None else Some(into + source.bucket)
    ensures into == map[] ==> r == Some(source.bucket)
    decreases source
  {
    var bucket, todo := into, source.bucket.Keys;
    while todo != {}
      invariant Copied(source.bucket, into, todo, bucket)
      decreases |todo|
    {
      var k :| k in todo;
      CopyTurn(source.bucket, into, todo, bucket, k);
      if source.bucket[k].Leaf? {
        if IsBucket(bucket, k) { return None; }
        bucket := bucket[k := Leaf(source.bucket[k].value)];
      } else {
        if k in bucket { return None; }
        var child := CopyBucket(source.bucket[k], map[]);
        bucket := bucket[k := Dir(child.value)];
      }
      todo := todo - {k};
    }
    CopyEnds(source.bucket, into, bucket);
    assert into == map[] ==> into + source.bucket == source.bucket;
    r := Some(bucket);
  }

  // ---------- the interpreter ----------

  function Outcome(r: Option<Bucket>, mem: seq<byte>): Ran {
    match r case None => Panicked(mem) case Some(b) => Done(b, mem)
  }

  /** execute_operate_real on a bucket and the caller's memory. */
  method ExecuteReal(m: Bucket, mem: array<byte>, ops: seq<Operate>) returns (r: Option<Bucket>)
    requires BuffersFit(ops, mem.Length)
    modifies mem
    ensures Outcome(r, mem[..]) == Exec(m, old(mem[..]), ops)
    decreases ops
  {
    var bucket, i := m, 0;
    while i < |ops|
      invariant i <= |ops|
      invariant Exec(m, old(mem[..]), ops) == Exec(bucket, mem[..], ops[i..])
    {
      var next := ExecuteOne(bucket, mem, ops[i]);
      assert ops[i..][0] == ops[i] && ops[i..][1..] == ops[i + 1..];
      if next.None? { return None; }
      bucket, i := next.value, i + 1;
    }
    r := Some(bucket);
  }

  method ExecuteOne(m: Bucket, mem: array<byte>, op: Operate) returns (r: Option<Bucket>)
    requires BufferFits(op, mem.Length)
    modifies mem
    ensures Outcome(r, mem[..]) == Exec1(m, old(mem[..]), op)
    decreases op
  {
    match op
    case RenameKey(oldKey, newKey) =>
      var b := Rename(m, oldKey, newKey);
      r := Some(b);
    case AddKey(pairs) =>
      r := AddPairs(m, pairs);
    case AddBucket(key, other) =>
      if IsBucket(m, key) { return Some(m); }
      if key in m { return None; }
      var b := ExecuteReal(map[], mem, other);
      r := if b.None? then None else Some(m[key := Dir(b.value)]);
    case DeleteKey(keys) =>
      r := DeleteKeys(m, keys);
    case Read(keys, addr, size) =>
      var ok := ReadKeys(m, mem, keys, addr, size);
      r := if ok then Some(m) else None;
    case StepInto(key, other) =>
      if !IsBucket(m, key) { return None; }
      var b := ExecuteReal(m[key].bucket, mem, other);
      r := if b.None? then None else Some(m[key := Dir(b.value)]);
  }

  method Rename(m: Bucket, oldKey: string, newKey: string) returns (bucket: Bucket)
    ensures bucket == Renamed(m, oldKey, newKey)
  {
    if oldKey !in m || oldKey == newKey || newKey in m { return m; }
    match m[oldKey]
    case Leaf(value) =>
      bucket := m[newKey := Leaf(value)];
    case Dir(_) =>
      var copy := CopyBucket(m[oldKey], map[]);
      bucket := m[newKey := Dir(copy.value)] - {oldKey};
  }

  method AddPairs(m: Bucket, pairs: seq<(string, seq<byte>)>) returns (r: Option<Bucket>)
    ensures r == Added(m, pairs)
  {
    var bucket, i := m, 0;
    while i < |pairs|
      invariant i <= |pairs|
      invariant Added(m, pairs) == Added(bucket, pairs[i..])
    {
      var (key, value) := pairs[i];
      assert pairs[i..][1..] == pairs[i + 1..];
      if IsBucket(bucket, key) { return None; }
      bucket, i := bucket[key := Leaf(value)], i + 1;
    }
    r := Some(bucket);
  }

  method DeleteKeys(m: Bucket, keys: seq<string>) returns (r: Option<Bucket>)
    ensures r == Deleted(m, keys)
  {
    var bucket, i := m, 0;
    while i < |keys|
      invariant i <= |keys|
      invariant Deleted(m, keys) == Deleted(bucket, keys[i..])
    {
      assert keys[i..][1..] == keys[i + 1..];
      if !IsLeaf(bucket, keys[i]) { return None; }
      bucket, i := bucket - {keys[i]}, i + 1;
    }
    r := Some(bucket);
  }

  lemma {:induction false} TakeMore(done: seq<byte>, value: seq<byte>, size: nat, len: nat)
    requires len == Min(size - |Take(done, size)|, |value|)
    ensures Take(done + value, size) == Take(done, size) + value[..len]
  {
  }

  lemma {:induction false} OverlayMore(mem: seq<byte>, addr: nat, a: seq<byte>, b: seq<byte>)
    requires addr + |a| + |b| <= |mem|
    ensures Overlay(Overlay(mem, addr, a), addr + |a|, b) == Overlay(mem, addr, a + b)
  {
  }

  /** Fills the caller's buffer with the first `size` bytes of the values, one after the other. */
  method ReadKeys(m: Bucket, mem: array<byte>, keys: seq<string>, addr: nat, size: nat) returns (ok: bool)
    requires addr + size <= mem.Length
    modifies mem
    ensures ok == AllLeaves(m, keys)
    ensures mem[..] == Overlay(old(mem[..]), addr, Take(Gathered(m, keys), size))
  {
    ghost var before, done: seq<byte> := mem[..], [];
    var offset: nat, rest := 0, keys;
    while rest != []
      invariant offset == |Take(done, size)|
      invariant mem[..] == Overlay(before, addr, Take(done, size))
      invariant Gathered(m, keys) == done + Gathered(m, rest) && AllLeaves(m, keys) == AllLeaves(m, rest)
      decreases |rest|
    {
      if !IsLeaf(m, rest[0]) { assert done + [] == done; return false; }
      var value := m[rest[0]].value;
      Assoc(done, value, Gathered(m, rest[1..]));
      offset := ReadValue(value, mem, addr, size, offset, before, done);
      done, rest := done + value, rest[1..];
    }
    assert done + [] == done;
    ok := true;
  }

  method ReadValue(value: seq<byte>, mem: array<byte>, addr: nat, size: nat, offset: nat, ghost before: seq<byte>,
                   ghost done: seq<byte>)
    returns (next: nat)
    requires addr + size <= mem.Length == |before| && offset == |Take(done, size)|
    requires mem[..] == Overlay(before, addr, Take(done, size))
    modifies mem
    ensures next == |Take(done + value, size)|
    ensures mem[..] == Overlay(before, addr, Take(done + value, size))
  {
    var len := Min(size - offset, |value|);
    TakeMore(done, value, size, len);
    OverlayMore(before, addr, Take(done, size), value[..len]);
    CopyData(value[..len], mem, addr + offset);
    next := offset + len;
  }

  // ---------- paths ----------

  /** str::split(':'): never empty. */
  function Split(s: string): (path: seq<string>)
    ensures path != []
  {
    if s == [] then [[]]
    else
      var rest := Split(s[1..]);
      if s[0] == ':' then [[]] + rest else [[s[0]] + rest[0]] + rest[1..]
  }

  function Join(path: seq<string>): string
    requires path != []
  {
    if |path| == 1 then path[0] else path[0] + ":" + Join(path[1..])
  }

  predicate Plain(x: string) { forall i :: 0 <= i < |x| ==> x[i] != ':' }

  /** Splitting a path gives its keys: what they join to, and none of them holds a ':'. */
  lemma {:induction false} SplitJoins(s: string)
    ensures Join(Split(s)) == s
    ensures forall i :: 0 <= i < |Split(s)| ==> Plain(Split(s)[i])
  {
    if s != [] {
      SplitJoins(s[1..]);
      var rest, path := Split(s[1..]), Split(s);
      if s[0] == ':' {
        assert path[1..] == rest;
      } else {
        assert path[1..] == rest[1..];
        forall i | 0 <= i < |path| ensures Plain(path[i]) { if i > 0 { assert path[i] == rest[i]; } }
      }
    }
  }

  /** The operations as a StepInto for each key of the path would run them. */
  function Descend(path: seq<string>, ops: seq<Operate>): seq<Operate> {
    if path == [] then ops else [StepInto(path[0], Descend(path[1..], ops))]
  }

  lemma {:induction false} DescendFits(path: seq<string>, ops: seq<Operate>, len: nat)
    requires BuffersFit(ops, len)
    ensures BuffersFit(Descend(path, ops), len)
  {
    if path != [] { DescendFits(path[1..], ops, len); }
  }

  /** Executing at a path runs the operations on the bucket that is there, and puts back what they leave of it. */
  lemma {:induction false} DescendEffect(m: Bucket, mem: seq<byte>, path: seq<string>, ops: seq<Operate>)
    requires path != [] && BuffersFit(ops, |mem|) && BuffersFit(Descend(path, ops), |mem|)
    ensures var r, at := Exec(m, mem, Descend(path, ops)), At(m, path);
            if at.None? || at.value.Leaf? then r == Panicked(mem)
            else var inner := Exec(at.value.bucket, mem, ops);
              && r.mem == inner.mem && (r.Done? <==> inner.Done?)
              && (r.Done? ==> At(r.bucket, path) == Some(Dir(inner.bucket)))
    decreases |path|
  {
    var key, rest := path[0], path[1..];
    DescendFits(rest, ops, |mem|);
    ExecSingle(m, mem, StepInto(key, Descend(rest, ops)));
    if IsBucket(m, key) {
      var b := m[key].bucket;
      assert path == [key] + rest;
      if rest == [] {
        StepIntoEffect(m, mem, key, ops, [key]);
      } else {
        StepIntoEffect(m, mem, key, Descend(rest, ops), rest);
        DescendEffect(b, mem, rest, ops);
      }
    }
  }

  lemma {:induction false} AtBelow(m: Bucket, path: seq<string>, k: string)
    requires path != [] && At(m, path).Some? && At(m, path).value.Dir?
    ensures At(m, path + [k]) == At(At(m, path).value.bucket, [k])
    decreases |path|
  {
    assert (path + [k])[1..] == path[1..] + [k];
    if |path| > 1 { AtBelow(m[path[0]].bucket, path[1..], k); } else { assert path[1..] + [k] == [k]; }
  }

  /** End to end: a value added at a path is found there. */
  lemma {:induction false} AddAtPath(store: Bucket, mem: seq<byte>, path: seq<string>, k: string, v: seq<byte>)
    requires path != [] && BuffersFit(Descend(path, [AddKey([(k, v)])]), |mem|)
    ensures var r, at := Exec(store, mem, Descend(path, [AddKey([(k, v)])])), At(store, path);
            && (r.Done? <==> at.Some? && at.value.Dir? && !IsBucket(at.value.bucket, k))
            && (r.Done? ==> At(r.bucket, path + [k]) == Some(Leaf(v)))
  {
    var pairs := [(k, v)];
    DescendEffect(store, mem, path, [AddKey(pairs)]);
    var at := At(store, path);
    if at.Some? && at.value.Dir? {
      var b := at.value.bucket;
      ExecSingle(b, mem, AddKey(pairs));
      AddKeyEffect(b, mem, pairs);
      assert pairs[0].0 == k && LastPair(pairs, 0);
      var r := Exec(store, mem, Descend(path, [AddKey(pairs)]));
      if r.Done? { AtBelow(r.bucket, path, k); }
    }
  }

  /** execute_operate: walks to the bucket, runs the operations there and commits. A panic commits nothing. */
  method ExecuteOperate(store: Bucket, mem: array<byte>, bucket: string, ops: seq<Operate>)
    returns (committed: bool, store': Bucket)
    requires BuffersFit(ops, mem.Length)
    modifies mem
    ensures BuffersFit(Descend(Split(bucket), ops), mem.Length)
    ensures var r := Exec(store, old(mem[..]), Descend(Split(bucket), ops));
            committed == r.Done? && mem[..] == r.mem && store' == if committed then r.bucket else store
    ensures var at := At(store, Split(bucket));
            if at.None? || at.value.Leaf? then !committed && mem[..] == old(mem[..])
            else var inner := Exec(at.value.bucket, old(mem[..]), ops);
              && committed == inner.Done? && mem[..] == inner.mem
              && (committed ==> At(store', Split(bucket)) == Some(Dir(inner.bucket)))
  {
    DescendFits(Split(bucket), ops, mem.Length);
    DescendEffect(store, mem[..], Split(bucket), ops);
    var r := ExecuteAt(store, mem, Split(bucket), ops);
    committed := r.Some?;
    store' := if committed then r.value else store;
  }

  method ExecuteAt(m: Bucket, mem: array<byte>, path: seq<string>, ops: seq<Operate>) returns (r: Option<Bucket>)
    requires BuffersFit(ops, mem.Length) && BuffersFit(Descend(path, ops), mem.Length)
    modifies mem
    ensures Outcome(r, mem[..]) == Exec(m, old(mem[..]), Descend(path, ops))
    decreases |path|
  {
    if path == [] {
      r := ExecuteReal(m, mem, ops);
    } else {
      if !IsBucket(m, path[0]) { return None; }
      DescendFits(path[1..], ops, mem.Length);
      var b := ExecuteAt(m[path[0]].bucket, mem, path[1..], ops);
      r := if b.None? then None else Some(m[path[0] := Dir(b.value)]);
    }
  }

  lemma {:induction false} DescendAvoids(path: seq<string>, ops: seq<Operate>, other: seq<string>, i: nat)
    requires i < |path| && i < |other| && path[..i] == other[..i] && path[i] != other[i]
    ensures Avoids(Descend(path, ops), other)
    decreases i
  {
    if i > 0 {
      assert path[0] == path[..i][0] == other[..i][0] == other[0];
      assert path[1..][..i - 1] == path[..i][1..] == other[..i][1..] == other[1..][..i - 1];
      DescendAvoids(path[1..], ops, other[1..], i - 1);
    }
  }

  /** What lies off the path of an execution is as it was, whatever is executed. */
  lemma {:induction false} OffPath(store: Bucket, mem: seq<byte>, path: seq<string>, ops: seq<Operate>,
                                   other: seq<string>, i: nat)
    requires i < |path| && i < |other| && path[..i] == other[..i] && path[i] != other[i]
    requires BuffersFit(Descend(path, ops), |mem|) && Exec(store, mem, Descend(path, ops)).Done?
    ensures At(Exec(store, mem, Descend(path, ops)).bucket, other) == At(store, other)
  {
    DescendAvoids(path, ops, other, i);
    Frame(store, mem, Descend(path, ops), other);
  }
}
