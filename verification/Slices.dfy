/** A file of DBFS: its `size` key and its `zdata:` slices, and the flat byte sequence they stand for. */
module Slices {

  newtype byte = x: int | 0 <= x < 256

  type SliceSize = s: int | 1 <= s witness 512

  /** SLICE_SIZE is picked by a build feature (512 up to 32768); nothing below depends on which. */
  const S: SliceSize

  /** Slice numbers are cast to u32 when they become keys. */
  const U32: int := 0x1_0000_0000

  datatype FileState = FileState(size: nat, slices: map<nat, seq<byte>>)

  /** The cast of a slice number to u32. */
  function Key(num: nat): nat { num % U32 }

  /** The slice number of the last byte fits a u32: the documented limit of a file. */
  ghost predicate SizeFits(size: nat) { size == 0 || SliceOf(size - 1) < U32 }

  ghost predicate WholeSlices(f: FileState) {
    forall i :: i in f.slices ==> |f.slices[i]| == S && i < U32
  }

  /** What every operation keeps within that limit: whole slices only, none beyond the slice that the size falls
      into. */
  ghost predicate Wf(f: FileState) {
    && SizeFits(f.size)
    && WholeSlices(f)
    && (forall i :: i in f.slices ==> i <= SliceOf(f.size))
  }

  /** The byte at position p, an absent slice counting as zeros. */
  ghost function ByteAt(f: FileState, p: nat): byte {
    var i := SliceOf(p);
    if i in f.slices && |f.slices[i]| == S then f.slices[i][InSlice(p)] else 0
  }

  ghost function View(f: FileState, lo: nat, hi: nat): (v: seq<byte>)
    ensures |v| == if lo <= hi then hi - lo else 0
  {
    if lo <= hi then seq(hi - lo, k requires 0 <= k => ByteAt(f, lo + k)) else []
  }

  /** The file as the caller sees it. */
  ghost function Flat(f: FileState): (v: seq<byte>)
    ensures |v| == f.size
  {
    View(f, 0, f.size)
  }

  function Zeros(n: nat): (z: seq<byte>)
    ensures |z| == n && forall k :: 0 <= k < n ==> z[k] == 0
  {
    seq(n, _ => 0 as byte)
  }

  function Min(a: int, b: int): int { if a <= b then a else b }

  function Max(a: int, b: int): int { if a <= b then b else a }

  /** Rust's saturating_sub on unsigned values. */
  function SatSub(a: nat, b: nat): nat { if a <= b then 0 else a - b }

  function Take<T>(s: seq<T>, n: nat): (t: seq<T>)
    ensures |t| == Min(n, |s|)
    ensures t <= s
  {
    if |s| <= n then s else s[..n]
  }

  lemma {:induction false} Assoc<T>(a: seq<T>, b: seq<T>, c: seq<T>)
    ensures (a + b) + c == a + (b + c)
  {
  }

  // ---------- slices and positions ----------
  // The source divides by SLICE_SIZE. SliceOf and InSlice are that quotient and remainder (DivIs), and Start
  // the product; being defined by counting, they leave the proofs without multiplication.

  /** The position of the first byte of slice i. */
  ghost function Start(i: nat): nat {
    if i == 0 then 0 else Start(i - 1) + S
  }

  /** The slice that position p falls into. */
  ghost function SliceOf(p: nat): (q: nat)
    ensures Start(q) <= p < Start(q) + S
  {
    var q := Holding(p);
    q
  }

  ghost function Holding(p: nat): (q: nat)
    ensures Start(q) <= p < Start(q) + S
  {
    if p < S then 0 else Holding(p - S) + 1
  }

  /** Where in its slice position p is. */
  ghost function InSlice(p: nat): (r: nat) {
    p - Start(SliceOf(p))
  }

  lemma {:induction false} StartIs(i: nat)
    ensures Start(i) == i * S
  {
    if i > 0 {
      StartIs(i - 1);
      assert i * S == (i - 1) * S + S;
    }
  }

  lemma {:induction false} Place(p: nat)
    ensures p == Start(SliceOf(p)) + InSlice(p) && InSlice(p) < S
  {
  }

  lemma {:induction false} PlaceOf(i: nat, r: nat)
    requires r < S
    ensures SliceOf(Start(i) + r) == i && InSlice(Start(i) + r) == r
  {
    var q := SliceOf(Start(i) + r);
    if i < q { StartMono(i, q); } else if q < i { StartMono(q, i); }
  }

  lemma {:induction false} DivIs(p: nat)
    ensures p / S == SliceOf(p) && p % S == InSlice(p)
  {
    StartIs(SliceOf(p));
    DivUnique(p, SliceOf(p), InSlice(p), S);
  }

  lemma {:induction false} MulStep(a: int, b: int, s: int)
    requires 0 < s && a < b
    ensures a * s + s <= b * s
  {
    assert (b - a - 1) * s >= 0;
    assert (b - a - 1) * s == b * s - a * s - s;
  }

  lemma {:induction false} DivUnique(p: int, q: int, r: int, s: int)
    requires 0 <= r < s && p == q * s + r
    ensures p / s == q && p % s == r
  {
    var q', r' := p / s, p % s;
    assert p == q' * s + r';
    if q < q' { MulStep(q, q', s); } else if q' < q { MulStep(q', q, s); }
  }

  /** offset / SLICE_SIZE and offset % SLICE_SIZE */
  method Divide(p: nat) returns (q: nat, r: nat)
    ensures q == SliceOf(p) && r == InSlice(p)
  {
    q, r := p / S, p % S;
    DivIs(p);
  }

  /** index * SLICE_SIZE */
  method Times(i: nat) returns (p: nat)
    ensures p == Start(i)
  {
    p := i * S;
    StartIs(i);
  }

  lemma {:induction false} StartMono(i: nat, j: nat)
    requires i <= j
    ensures Start(i) <= Start(j)
    ensures i < j ==> Start(i) + S <= Start(j)
    decreases j
  {
    if i < j { StartMono(i, j - 1); }
  }

  /** Comparing slice numbers is comparing with slice borders. */
  lemma {:induction false} Border(p: nat, q: nat)
    ensures SliceOf(p) >= q <==> p >= Start(q)
  {
    Place(p);
    if q <= SliceOf(p) { StartMono(q, SliceOf(p)); } else { StartMono(SliceOf(p), q); }
  }

  lemma {:induction false} SliceMono(p: nat, q: nat)
    requires p <= q
    ensures SliceOf(p) <= SliceOf(q)
  {
    Place(p);
    Border(q, SliceOf(p));
  }

  lemma {:induction false} ByteInSlice(f: FileState, i: nat, r: nat)
    requires r < S
    ensures ByteAt(f, Start(i) + r) == if i in f.slices && |f.slices[i]| == S then f.slices[i][r] else 0
  {
    PlaceOf(i, r);
  }

  /** A buffer with `data` laid over it at an address. */
  function Overlay(mem: seq<byte>, addr: nat, data: seq<byte>): (r: seq<byte>)
    requires addr + |data| <= |mem|
    ensures |r| == |mem|
  {
    mem[..addr] + data + mem[addr + |data|..]
  }

  /** copy_from_slice, and the raw copies of the write path */
  method CopyData(src: seq<byte>, dest: array<byte>, at: nat)
    requires at + |src| <= dest.Length
    modifies dest
    ensures dest[..] == Overlay(old(dest[..]), at, src)
  {
    forall k | 0 <= k < |src| { dest[at + k] := src[k]; }
  }

  // ---------- views ----------

  lemma {:induction false} ViewSplit(f: FileState, a: nat, b: nat, c: nat)
    requires a <= b <= c
    ensures View(f, a, b) + View(f, b, c) == View(f, a, c)
  {
  }

  // ---------- ordered scans ----------

  /** The stored slice numbers in [lo, hi), in ascending order: what a range cursor over the slice keys meets. */
  function Scan(m: map<nat, seq<byte>>, lo: nat, hi: nat): seq<nat>
    decreases hi - lo
  {
    if lo >= hi then [] else (if lo in m then [lo] else []) + Scan(m, lo + 1, hi)
  }

  ghost predicate StrictlyUp(s: seq<nat>) {
    s == [] || ((forall x :: x in s[1..] ==> s[0] < x) && StrictlyUp(s[1..]))
  }

  lemma {:induction false} ScanSpec(m: map<nat, seq<byte>>, lo: nat, hi: nat)
    ensures forall i :: i in Scan(m, lo, hi) <==> lo <= i < hi && i in m
    ensures StrictlyUp(Scan(m, lo, hi))
    decreases hi - lo
  {
    if lo < hi {
      var s, rest := Scan(m, lo, hi), Scan(m, lo + 1, hi);
      ScanSpec(m, lo + 1, hi);
      if lo in m { assert s == [lo] + rest && s[1..] == rest; } else { assert s == rest; }
    }
  }
}
