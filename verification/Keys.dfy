/** The keys of an inode bucket and their byte order. */
module Keys {
  import opened Slices

  type Bytes = seq<byte>

  /** The store's order on keys. */
  predicate Less(a: Bytes, b: Bytes) {
    b != [] && (a == [] || a[0] < b[0] || (a[0] == b[0] && Less(a[1..], b[1..])))
  }

  function Ascii(s: string): (b: Bytes)
    requires forall c :: c in s ==> c < 128 as char
    ensures |b| == |s| && forall k :: 0 <= k < |s| ==> b[k] as int == s[k] as int
  {
    seq(|s|, k requires 0 <= k < |s| => assert s[k] in s; s[k] as int as byte)
  }

  const COLON: byte := 0x3A

  const META: set<string> :=
    {"mode", "size", "hard_links", "uid", "gid", "atime", "mtime", "ctime", "block_size", "data", "dev"}

  /** What an inode bucket is keyed by: metadata, directory entries, extended attributes, file slices. */
  datatype Key = Meta(field: string) | Entry(name: Bytes) | Attr(name: Bytes) | Slice(num: nat)

  predicate Valid(k: Key) {
    (k.Meta? ==> k.field in META) && (k.Slice? ==> k.num < U32)
  }

  /** u32::to_be_bytes */
  function BigEndian(n: nat): (b: Bytes)
    requires n < U32
    ensures |b| == 4
  {
    var upper := n / 0x100;
    var half := upper / 0x100;
    [(half / 0x100) as byte, (half % 0x100) as byte, (upper % 0x100) as byte, (n % 0x100) as byte]
  }

  /** u32::from_be_bytes */
  function FromBigEndian(b: Bytes): nat
    requires |b| == 4
  {
    0x100 * (0x100 * (0x100 * b[0] as nat + b[1] as nat) + b[2] as nat) + b[3] as nat
  }

  function KeyBytes(k: Key): Bytes
    requires Valid(k)
  {
    match k
    case Meta(field) => Ascii(field)
    case Entry(name) => Ascii("data:") + name
    case Attr(name) => Ascii("attr:") + name
    case Slice(num) => Ascii("zdata:") + BigEndian(num)
  }

  /** What follows the first ':', as splitn(2, ..) gives it. */
  function AfterColon(key: Bytes): Bytes {
    if key == [] then [] else if key[0] == COLON then key[1..] else AfterColon(key[1..])
  }

  // ---------- order ----------

  lemma {:induction false} LessPrefix(p: Bytes, a: Bytes, b: Bytes)
    ensures Less(p + a, p + b) <==> Less(a, b)
  {
    if p == [] {
      assert p + a == a && p + b == b;
    } else {
      assert (p + a)[1..] == p[1..] + a && (p + b)[1..] == p[1..] + b;
      LessPrefix(p[1..], a, b);
    }
  }

  lemma {:induction false} LessHead(x: byte, a: Bytes, y: byte, b: Bytes)
    ensures Less([x] + a, [y] + b) <==> x < y || (x == y && Less(a, b))
  {
    assert ([x] + a)[1..] == a && ([y] + b)[1..] == b;
  }

  lemma {:induction false} LessFour(a: Bytes, b: Bytes)
    requires |a| == 4 && |b| == 4
    ensures Less(a, b) <==> a[0] < b[0] || (a[0] == b[0] && (a[1] < b[1] || (a[1] == b[1] &&
                            (a[2] < b[2] || (a[2] == b[2] && a[3] < b[3])))))
  {
    LessHead(a[0], a[1..], b[0], b[1..]);
    LessHead(a[1], a[2..], b[1], b[2..]);
    LessHead(a[2], a[3..], b[2], b[3..]);
    LessHead(a[3], [], b[3], []);
    assert a == [a[0]] + a[1..] && b == [b[0]] + b[1..];
    assert a[1..] == [a[1]] + a[2..] && b[1..] == [b[1]] + b[2..];
    assert a[2..] == [a[2]] + a[3..] && b[2..] == [b[2]] + b[3..];
    assert a[3..] == [a[3]] + [] && b[3..] == [b[3]] + [];
  }

  lemma {:induction false} BigEndianBack(n: nat)
    requires n < U32
    ensures FromBigEndian(BigEndian(n)) == n
  {
  }

  lemma {:induction false} BigEndianOrder(m: nat, n: nat)
    requires m < U32 && n < U32
    ensures Less(BigEndian(m), BigEndian(n)) <==> m < n
  {
    var a, b := BigEndian(m), BigEndian(n);
    LessFour(a, b);
    BigEndianBack(m);
    BigEndianBack(n);
  }

  /** The byte order of slice keys is the order of slice numbers. */
  lemma {:induction false} SliceOrder(m: nat, n: nat)
    requires m < U32 && n < U32
    ensures Less(KeyBytes(Slice(m)), KeyBytes(Slice(n))) <==> m < n
  {
    LessPrefix(Ascii("zdata:"), BigEndian(m), BigEndian(n));
    BigEndianOrder(m, n);
  }

  lemma {:induction false} OtherBelow(k: Key, n: nat)
    requires Valid(k) && !k.Slice? && n < U32
    ensures Less(KeyBytes(k), KeyBytes(Slice(n)))
  {
    assert KeyBytes(Slice(n))[0] == Ascii("zdata:")[0];
    match k
    case Meta(field) => assert KeyBytes(k)[0] < 0x7A;
    case Entry(name) => assert KeyBytes(k)[0] == Ascii("data:")[0];
    case Attr(name) => assert KeyBytes(k)[0] == Ascii("attr:")[0];
  }

  ghost predicate InRange(k: Key, lo: nat, hi: nat)
    requires Valid(k) && lo < U32 && hi < U32
  {
    !Less(KeyBytes(k), KeyBytes(Slice(lo))) && Less(KeyBytes(k), KeyBytes(Slice(hi)))
  }

  /** The range between two slice keys holds the slices between their numbers and no other key of an inode. */
  lemma {:induction false} RangeIsSlices(k: Key, lo: nat, hi: nat)
    requires Valid(k) && lo < U32 && hi < U32
    ensures InRange(k, lo, hi) <==> k.Slice? && lo <= k.num < hi
  {
    if k.Slice? {
      SliceOrder(k.num, lo);
      SliceOrder(k.num, hi);
    } else {
      OtherBelow(k, lo);
    }
  }

  // ---------- parsing ----------

  lemma {:induction false} AfterColonPrefix(p: Bytes, rest: Bytes)
    requires forall k :: 0 <= k < |p| ==> p[k] != COLON
    ensures AfterColon(p + [COLON] + rest) == rest
  {
    if p == [] {
      assert (p + [COLON] + rest)[1..] == rest;
    } else {
      assert (p + [COLON] + rest)[1..] == p[1..] + [COLON] + rest;
      AfterColonPrefix(p[1..], rest);
    }
  }

  /** The first bytes of the keys of each family, in ASCII. */
  lemma {:induction false} KeyText(k: Key)
    requires Valid(k)
    ensures k.Entry? ==> KeyBytes(k) == [0x64, 0x61, 0x74, 0x61, 0x3A] + k.name
    ensures k.Attr? ==> KeyBytes(k) == [0x61, 0x74, 0x74, 0x72, 0x3A] + k.name
    ensures k.Slice? ==> KeyBytes(k)[..6] == [0x7A, 0x64, 0x61, 0x74, 0x61, 0x3A] && |KeyBytes(k)| == 10
  {
    assert Ascii("data:") == [0x64, 0x61, 0x74, 0x61, 0x3A];
    assert Ascii("attr:") == [0x61, 0x74, 0x74, 0x72, 0x3A];
    assert Ascii("zdata:") == [0x7A, 0x64, 0x61, 0x74, 0x61, 0x3A];
  }

  /** Splitting at the first ':' gives back the number and the name, whatever bytes they hold. */
  lemma {:induction false} ParseKey(k: Key)
    requires Valid(k) && (k.Slice? || k.Entry? || k.Attr?)
    ensures k.Slice? ==> |AfterColon(KeyBytes(k))| == 4 && FromBigEndian(AfterColon(KeyBytes(k))) == k.num
    ensures !k.Slice? ==> AfterColon(KeyBytes(k)) == k.name
  {
    match k
    case Slice(num) =>
      AfterColonPrefix(Ascii("zdata"), BigEndian(num));
      assert Ascii("zdata") + [COLON] == Ascii("zdata:");
      BigEndianBack(num);
    case Entry(name) =>
      AfterColonPrefix(Ascii("data"), name);
      assert Ascii("data") + [COLON] == Ascii("data:");
    case Attr(name) =>
      AfterColonPrefix(Ascii("attr"), name);
      assert Ascii("attr") + [COLON] == Ascii("attr:");
  }

  // ---------- cursors ----------

  /** The keys of a bucket in the order that a cursor meets them. */
  ghost predicate Ascending(keys: seq<Key>) {
    keys == [] ||
    (&& Valid(keys[0])
     && (forall k :: k in keys[1..] ==> Valid(k) && Less(KeyBytes(keys[0]), KeyBytes(k)))
     && Ascending(keys[1..]))
  }

  /** What bucket.range and the split of each key give, in order. */
  ghost function RangeScan(keys: seq<Key>, lo: nat, hi: nat): seq<nat>
    requires Ascending(keys) && lo < U32 && hi < U32
  {
    if keys == [] then []
    else if InRange(keys[0], lo, hi) then [FromBigEndian(Number(keys[0], lo, hi))] + RangeScan(keys[1..], lo, hi)
    else RangeScan(keys[1..], lo, hi)
  }

  ghost function Number(k: Key, lo: nat, hi: nat): (b: Bytes)
    requires Valid(k) && lo < U32 && hi < U32 && InRange(k, lo, hi)
    ensures |b| == 4 && k.Slice? && FromBigEndian(b) == k.num
  {
    RangeIsSlices(k, lo, hi);
    ParseKey(k);
    AfterColon(KeyBytes(k))
  }

  lemma {:induction false} RangeScanSpec(keys: seq<Key>, lo: nat, hi: nat)
    requires Ascending(keys) && lo < U32 && hi < U32
    ensures forall n :: n in RangeScan(keys, lo, hi) <==> lo <= n < hi && Slice(n) in keys
    ensures StrictlyUp(RangeScan(keys, lo, hi))
  {
    if keys != [] {
      var k, rest := keys[0], RangeScan(keys[1..], lo, hi);
      RangeScanSpec(keys[1..], lo, hi);
      RangeIsSlices(k, lo, hi);
      assert keys == [k] + keys[1..];
      if InRange(k, lo, hi) {
        forall x | x in rest ensures k.num < x { SliceOrder(k.num, x); }
        assert RangeScan(keys, lo, hi) == [k.num] + rest;
      }
    }
  }

  lemma {:induction false} FirstIsIn(s: seq<nat>)
    ensures s == [] || s[0] in s
  {
  }

  lemma {:induction false} SameElements(s: seq<nat>, t: seq<nat>)
    requires StrictlyUp(s) && StrictlyUp(t) && forall n :: n in s <==> n in t
    ensures s == t
  {
    FirstIsIn(t);
    if s != [] {
      assert s[0] in t && t != [];
      assert t[0] in s;
      assert s == [s[0]] + s[1..] && t == [t[0]] + t[1..];
      assert s[0] == t[0];
      forall n ensures n in s[1..] <==> n in t[1..] { assert n in s <==> n in t; }
      SameElements(s[1..], t[1..]);
    }
  }

  /** In a bucket whose slice keys are those of m, the read loop's range cursor meets the slices in [lo, hi) in
      ascending order, and its key parsing recovers their numbers. */
  lemma {:induction false} RangeScanIsScan(keys: seq<Key>, m: map<nat, seq<byte>>, lo: nat, hi: nat)
    requires Ascending(keys) && lo < U32 && hi < U32
    requires forall n :: Slice(n) in keys <==> n in m
    ensures RangeScan(keys, lo, hi) == Scan(m, lo, hi)
  {
    RangeScanSpec(keys, lo, hi);
    ScanSpec(m, lo, hi);
    SameElements(RangeScan(keys, lo, hi), Scan(m, lo, hi));
  }
}
