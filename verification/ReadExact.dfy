/** Exactly when dbfs_common_read returns the bytes of the file. */
module ReadExact {
  import opened Slices
  import opened SliceRead

  /** What a read is to return: as many bytes as there are, up to len. */
  function Wanted(size: nat, offset: nat, len: nat): nat
    requires offset < size
  {
    Min(len, size - offset)
  }

  ghost predicate ReadsFile(f: FileState, offset: nat, len: nat)
    requires offset < f.size
  {
    ReadOutput(f, offset, len) == View(f, offset, offset + Wanted(f.size, offset, len))
  }

  ghost predicate Aligned(offset: nat) { offset < S || InSlice(offset) == 0 }

  /** keys are consecutive slices from `start` on. */
  ghost predicate NoGap(keys: seq<nat>, start: nat)
    decreases |keys|
  {
    keys == [] || (keys[0] == start && NoGap(keys[1..], start + 1))
  }

  /** The absent slices before the last stored one form at most one run. */
  ghost predicate OneRun(keys: seq<nat>, start: nat)
    decreases |keys|
  {
    keys == [] || if keys[0] == start then OneRun(keys[1..], start + 1) else NoGap(keys[1..], keys[0] + 1)
  }

  /** The slice of the last byte wanted. */
  ghost function LastWanted(size: nat, offset: nat, len: nat): nat
    requires offset < size && 0 < len
  {
    SliceOf(offset + Wanted(size, offset, len) - 1)
  }

  function Last(keys: seq<nat>): nat
    requires keys != []
  {
    keys[|keys| - 1]
  }

  /** Which slices are stored, seen from a read. Aligned: the cursor gets as far as the last byte wanted and
      meets at most one gap. Otherwise: the whole range lies in a gap that ends at a slice border inside the file. */
  ghost predicate ReadableShape(f: FileState, offset: nat, len: nat)
    requires offset < f.size && 0 < len
  {
    && ScannedKeys(f, offset, len) != []
    && if Aligned(offset)
       then && LastWanted(f.size, offset, len) <= Last(ScannedKeys(f, offset, len))
            && OneRun(ScannedKeys(f, offset, len), SliceOf(offset))
       else && ScannedKeys(f, offset, len)[0] == LastWanted(f.size, offset, len) + 1
            && offset + len <= f.size
  }

  ghost predicate SameShape(f: FileState, g: FileState) {
    f.size == g.size && f.slices.Keys == g.slices.Keys
  }

  // ---------- positions ----------

  /** Past slice 0 the offset inside the slice is lost. */
  lemma {:induction false} LoIs(offset: nat)
    ensures Lo(InSlice(offset), SliceOf(offset)) <= offset
    ensures Aligned(offset) <==> Lo(InSlice(offset), SliceOf(offset)) == offset
  {
    Place(offset);
    if offset < S { Border(offset, 1); } else { Border(offset, 1); StartMono(1, SliceOf(offset)); }
  }

  lemma {:induction false} LoLater(off: nat, i: nat)
    requires off < S && 0 < i
    ensures Lo(off, i) == Start(i)
  {
    StartMono(1, i);
  }

  lemma {:induction false} WantedRange(f: FileState, offset: nat, len: nat)
    requires offset < f.size && 0 < len
    ensures SliceOf(offset) <= LastWanted(f.size, offset, len)
    ensures Start(LastWanted(f.size, offset, len)) < offset + Wanted(f.size, offset, len)
    ensures offset + Wanted(f.size, offset, len) <= Start(LastWanted(f.size, offset, len) + 1)
  {
    SliceMono(offset, offset + Wanted(f.size, offset, len) - 1);
  }

  // ---------- the cursor ----------

  lemma {:induction false} CursorLast(f: FileState, first: nat, keys: seq<nat>)
    requires Cursor(f, first, keys) && keys != []
    ensures first <= keys[0] <= Last(keys) && Start(keys[0]) <= Start(Last(keys)) <= f.size
    ensures |keys| > 1 ==> keys[0] < Last(keys) && Start(keys[0] + 1) <= f.size
    decreases |keys|
  {
    if |keys| > 1 {
      CursorLast(f, keys[0] + 1, keys[1..]);
      StartMono(keys[0] + 1, Last(keys));
    }
  }

  lemma {:induction false} ScanLast(m: map<nat, seq<byte>>, lo: nat, hi: nat)
    requires Scan(m, lo, hi) != []
    ensures Last(Scan(m, lo, hi)) < hi
    decreases hi - lo
  {
    if Scan(m, lo + 1, hi) != [] { ScanLast(m, lo + 1, hi); }
  }

  /** The cursor does not get beyond the slice after the last one wanted. */
  lemma {:induction false} ScanEnd(f: FileState, offset: nat, len: nat)
    requires offset < f.size && 0 < len && ScannedKeys(f, offset, len) != []
    ensures Last(ScannedKeys(f, offset, len)) <= LastWanted(f.size, offset, len) + 1
    ensures Start(Last(ScannedKeys(f, offset, len))) <= offset + Wanted(f.size, offset, len)
  {
    var k, end := Last(ScannedKeys(f, offset, len)), offset + Wanted(f.size, offset, len);
    ScanLast(f.slices, Key(SliceOf(offset)), Key(EndNum(f.size, offset, len)));
    Border(offset + len, k);
    Border(f.size, k);
    if k > 0 { Border(end - 1, k - 1); }
  }

  // ---------- the condition suffices ----------

  /** A turn with more to come takes everything up to the end of its slice. */
  lemma {:induction false} TurnJoins(f: FileState, off: nat, start: nat, index: nat, hi: nat)
    requires off < S && Start(index + 1) <= hi <= f.size
    ensures Turn(f, off, start, index) + View(f, Start(index + 1), hi) == View(f, Lo(off, Min(start, index)), hi)
  {
    StartMono(Min(start, index) + 1, index + 1);
    ViewSplit(f, Lo(off, Min(start, index)), Start(index + 1), hi);
  }

  /** All bytes from `low` on up to the end of the last stored slice. */
  ghost predicate Whole(f: FileState, off: nat, keys: seq<nat>, start: nat, low: nat)
    requires keys != []
  {
    Output(f, off, keys, start) == View(f, Lo(off, low), Min(f.size, Start(Last(keys) + 1)))
  }

  lemma {:induction false} WholeTurn(f: FileState, off: nat, first: nat, keys: seq<nat>, start: nat)
    requires Cursor(f, first, keys) && off < S && keys != []
    requires |keys| > 1 ==> Whole(f, off, keys[1..], NextStart(start, keys[0]), keys[0] + 1)
    ensures Whole(f, off, keys, start, Min(start, keys[0]))
  {
    if |keys| > 1 {
      LoLater(off, keys[0] + 1);
      CursorLast(f, first, keys);
      StartMono(keys[0] + 1, Last(keys) + 1);
      TurnJoins(f, off, start, keys[0], Min(f.size, Start(Last(keys) + 1)));
    } else {
      assert Output(f, off, keys[1..], NextStart(start, keys[0])) == [];
    }
  }

  /** Consecutive slices are taken whole, also with start_num one too far. */
  lemma {:induction false} NoGapWhole(f: FileState, off: nat, a: nat, keys: seq<nat>, start: nat)
    requires Cursor(f, a, keys) && NoGap(keys, a) && off < S && keys != [] && (start == a || start == a + 1)
    ensures Whole(f, off, keys, start, a)
    decreases |keys|
  {
    if |keys| > 1 { NoGapWhole(f, off, a + 1, keys[1..], NextStart(start, a)); }
    WholeTurn(f, off, a, keys, start);
  }

  /** So is everything if there is at most one gap. */
  lemma {:induction false} OneRunWhole(f: FileState, off: nat, keys: seq<nat>, start: nat)
    requires Cursor(f, start, keys) && OneRun(keys, start) && off < S && keys != []
    ensures Whole(f, off, keys, start, start)
    decreases |keys|
  {
    if |keys| > 1 {
      if keys[0] == start {
        OneRunWhole(f, off, keys[1..], start + 1);
      } else {
        NoGapWhole(f, off, keys[0] + 1, keys[1..], keys[0] + 2);
      }
    }
    WholeTurn(f, off, start, keys, start);
  }

  lemma {:induction false} TakeView(f: FileState, lo: nat, hi: nat, len: nat)
    requires lo <= hi
    ensures Take(View(f, lo, hi), len) == View(f, lo, lo + Min(len, hi - lo))
  {
  }

  lemma {:induction false} OneRunReads(f: FileState, offset: nat, len: nat, keys: seq<nat>, start: nat, off: nat)
    requires Cursor(f, start, keys) && OneRun(keys, start) && off < S && keys != []
    requires Lo(off, start) == offset < f.size && 0 < len && LastWanted(f.size, offset, len) <= Last(keys)
    ensures Take(Output(f, off, keys, start), len) == View(f, offset, offset + Wanted(f.size, offset, len))
  {
    OneRunWhole(f, off, keys, start);
    WantedRange(f, offset, len);
    StartMono(LastWanted(f.size, offset, len) + 1, Last(keys) + 1);
    TakeView(f, offset, Min(f.size, Start(Last(keys) + 1)), len);
  }

  lemma {:induction false} AbsentZero(f: FileState, a: nat, b: nat)
    requires forall i :: a <= i < b ==> i !in f.slices
    ensures forall p: nat :: Start(a) <= p < Start(b) ==> ByteAt(f, p) == 0
  {
    forall p: nat | Start(a) <= p < Start(b) ensures ByteAt(f, p) == 0 {
      Border(p, a);
      Border(p, b);
    }
  }

  /** A gap at the start of the range comes out as zeros. */
  lemma {:induction false} LeadingGap(f: FileState, off: nat, keys: seq<nat>, start: nat, t: nat)
    requires Cursor(f, start, keys) && off < S && keys != [] && Lo(off, start) + t < Start(keys[0])
    ensures t < |Output(f, off, keys, start)| && Output(f, off, keys, start)[t] == 0
  {
    if start < keys[0] { AbsentZero(f, start, keys[0]); }
    assert Turn(f, off, start, keys[0])[t] == ByteAt(f, Lo(off, start) + t);
  }

  lemma {:induction false} GapReads(f: FileState, offset: nat, len: nat, keys: seq<nat>, start: nat, off: nat)
    requires Cursor(f, start, keys) && off < S && keys != []
    requires Lo(off, start) <= offset && offset + len <= Start(keys[0])
    ensures Take(Output(f, off, keys, start), len) == View(f, offset, offset + len)
  {
    var out := Output(f, off, keys, start);
    forall t | 0 <= t < len ensures t < |out| && out[t] == 0 && View(f, offset, offset + len)[t] == 0 {
      LeadingGap(f, off, keys, start, t);
      AbsentZero(f, start, keys[0]);
      assert View(f, offset, offset + len)[t] == ByteAt(f, offset + t);
    }
    if len > 0 { assert len - 1 < |out|; }
  }

  lemma {:induction false} ReadableReads(f: FileState, offset: nat, len: nat)
    requires Wf(f) && offset < f.size && 0 < len && ReadableShape(f, offset, len)
    ensures ReadsFile(f, offset, len)
  {
    KeysInFile(f, offset, len);
    LoIs(offset);
    if Aligned(offset) {
      OneRunReads(f, offset, len, ScannedKeys(f, offset, len), SliceOf(offset), InSlice(offset));
    } else {
      WantedRange(f, offset, len);
      GapReads(f, offset, len, ScannedKeys(f, offset, len), SliceOf(offset), InSlice(offset));
    }
  }

  // ---------- the condition is needed ----------

  lemma {:induction false} ScanShape(m: map<nat, seq<byte>>, n: map<nat, seq<byte>>, lo: nat, hi: nat)
    requires m.Keys == n.Keys
    ensures Scan(m, lo, hi) == Scan(n, lo, hi)
    decreases hi - lo
  {
    if lo < hi { ScanShape(m, n, lo + 1, hi); }
  }

  lemma {:induction false} ShapeDecides(f: FileState, g: FileState, offset: nat, len: nat)
    requires SameShape(f, g)
    ensures ScannedKeys(f, offset, len) == ScannedKeys(g, offset, len)
  {
    ScanShape(f.slices, g.slices, Key(SliceOf(offset)), Key(EndNum(f.size, offset, len)));
  }

  function Repeat(b: byte, n: nat): (s: seq<byte>)
    ensures |s| == n && forall r :: 0 <= r < n ==> s[r] == b
  {
    if n == 0 then [] else [b] + Repeat(b, n - 1)
  }

  /** The same slices, all bytes one. */
  ghost function OnesFile(f: FileState): FileState {
    f.(slices := map i | i in f.slices :: Repeat(1, S))
  }

  ghost predicate AllOnes(g: FileState) {
    forall i :: i in g.slices ==> g.slices[i] == Repeat(1, S)
  }

  lemma {:induction false} OnesByte(g: FileState, q: nat)
    requires AllOnes(g) && q in g.slices
    ensures ByteAt(g, Start(q)) == 1
  {
    ByteInSlice(g, q, 0);
  }

  /** The same slices, all bytes zero but the first of slice q. */
  ghost function MarkedFile(f: FileState, q: nat): FileState {
    f.(slices := map i | i in f.slices :: if i == q then [1] + Repeat(0, S - 1) else Repeat(0, S))
  }

  lemma {:induction false} MarkedBytes(g: FileState, q: nat, p: nat)
    requires q in g.slices && g.slices[q] == [1] + Repeat(0, S - 1) && Start(q) < p < Start(q) + S
    ensures ByteAt(g, Start(q)) == 1 && ByteAt(g, p) == 0
  {
    ByteInSlice(g, q, 0);
    ByteInSlice(g, q, p - Start(q));
  }

  /** Reads that differ in one byte, or in length, differ. */
  lemma {:induction false} DiffersAt(f: FileState, offset: nat, len: nat, out: seq<byte>, t: nat)
    requires offset < f.size && t < Wanted(f.size, offset, len)
    requires t < |out| ==> out[t] != ByteAt(f, offset + t)
    ensures Take(out, len) != View(f, offset, offset + Wanted(f.size, offset, len))
  {
    assert View(f, offset, offset + Wanted(f.size, offset, len))[t] == ByteAt(f, offset + t);
  }

  // A misaligned read starts at the head of its slice.

  lemma {:induction false} HeadByte(f: FileState, off: nat, keys: seq<nat>, q: nat)
    requires off < S && 0 < q && Start(q) < f.size && keys != [] && keys[0] == q
    ensures Output(f, off, keys, q) != [] && Output(f, off, keys, q)[0] == ByteAt(f, Start(q))
  {
    LoLater(off, q);
    assert Turn(f, off, q, q)[0] == ByteAt(f, Start(q));
  }

  lemma {:induction false} HeadIsWrong(g: FileState, offset: nat, len: nat, keys: seq<nat>, q: nat, off: nat)
    requires Start(q) < offset < g.size && offset < Start(q) + S && 0 < q && 0 < len && off < S
    requires q in g.slices && g.slices[q] == [1] + Repeat(0, S - 1) && keys != [] && keys[0] == q
    ensures Take(Output(g, off, keys, q), len) != View(g, offset, offset + Wanted(g.size, offset, len))
  {
    HeadByte(g, off, keys, q);
    MarkedBytes(g, q, offset);
    DiffersAt(g, offset, len, Output(g, off, keys, q), 0);
  }

  /** A stored byte after a gap is late. */
  lemma {:induction false} LateIsWrong(g: FileState, offset: nat, len: nat, keys: seq<nat>, start: nat, off: nat)
    requires Cursor(g, start, keys) && AllOnes(g) && off < S && keys != [] && Lo(off, start) < offset < g.size
    requires offset <= Start(keys[0]) < offset + Wanted(g.size, offset, len)
    ensures Take(Output(g, off, keys, start), len) != View(g, offset, offset + Wanted(g.size, offset, len))
  {
    LeadingGap(g, off, keys, start, Start(keys[0]) - offset);
    OnesByte(g, keys[0]);
    DiffersAt(g, offset, len, Output(g, off, keys, start), Start(keys[0]) - offset);
  }

  /** In a gap at the end of the file it returns too much. */
  lemma {:induction false} LongIsWrong(f: FileState, offset: nat, len: nat, keys: seq<nat>, start: nat, off: nat)
    requires Cursor(f, start, keys) && off < S && keys != [] && Lo(off, start) < offset < f.size < offset + len
    requires Start(keys[0]) == f.size
    ensures Take(Output(f, off, keys, start), len) != View(f, offset, offset + Wanted(f.size, offset, len))
  {
    LeadingGap(f, off, keys, start, f.size - offset);
  }

  // A cursor that stops short returns too little.

  lemma {:induction false} TurnShort(f: FileState, off: nat, first: nat, start: nat, k: nat)
    requires off < S && first <= start && first <= k
    ensures |Turn(f, off, start, k)| + Lo(off, first) <= Start(k + 1)
  {
    StartMono(first, Min(start, k));
    StartMono(Min(start, k) + 1, k + 1);
  }

  lemma {:induction false} OutputShort(f: FileState, off: nat, first: nat, keys: seq<nat>, start: nat)
    requires Cursor(f, first, keys) && off < S && keys != [] && first <= start
    ensures |Output(f, off, keys, start)| + Lo(off, first) <= Start(Last(keys) + 1)
    decreases |keys|
  {
    TurnShort(f, off, first, start, keys[0]);
    if |keys| > 1 {
      OutputShort(f, off, keys[0] + 1, keys[1..], NextStart(start, keys[0]));
      LoLater(off, keys[0] + 1);
    }
  }

  lemma {:induction false} ShortIsWrong(f: FileState, offset: nat, len: nat, keys: seq<nat>, start: nat, off: nat)
    requires Cursor(f, start, keys) && off < S && keys != [] && Lo(off, start) == offset < f.size
    requires 0 < len && Last(keys) < LastWanted(f.size, offset, len)
    ensures Take(Output(f, off, keys, start), len) != View(f, offset, offset + Wanted(f.size, offset, len))
  {
    OutputShort(f, off, start, keys, start);
    WantedRange(f, offset, len);
    StartMono(Last(keys) + 1, LastWanted(f.size, offset, len));
  }

  // A second gap comes out one slice short, so the stored slice after it is early.

  /** An output that begins with the byte at lo has a one where slice k - 1 should begin, or has ended. */
  ghost predicate Early(out: seq<byte>, lo: nat, k: nat) {
    0 < k && lo <= Start(k - 1) && (Start(k - 1) - lo < |out| ==> out[Start(k - 1) - lo] == 1)
  }

  lemma {:induction false} EarlyTurn(f: FileState, off: nat, first: nat, keys: seq<nat>, start: nat, k: nat)
    requires Cursor(f, first, keys) && |keys| > 1 && off < S
    requires Early(Output(f, off, keys[1..], NextStart(start, keys[0])), Start(keys[0] + 1), k)
    ensures Early(Output(f, off, keys, start), Lo(off, Min(start, keys[0])), k)
  {
    CursorLast(f, first, keys);
    StartMono(Min(start, keys[0]) + 1, keys[0] + 1);
  }

  /** The gap from a to keys[0], its first slice skipped. */
  lemma {:induction false} SkippedGap(g: FileState, off: nat, a: nat, keys: seq<nat>)
    requires Cursor(g, a, keys) && AllOnes(g) && off < S && keys != [] && a < keys[0]
    ensures Early(Output(g, off, keys, a + 1), Start(a), keys[0])
  {
    var k := keys[0];
    LoLater(off, a + 1);
    StartMono(a + 1, k);
    OnesByte(g, k);
    CursorLast(g, a, keys);
    if Start(k) < g.size {
      assert Turn(g, off, a + 1, k)[Start(k) - Start(a + 1)] == ByteAt(g, Start(k));
    } else {
      assert Output(g, off, keys[1..], NextStart(a + 1, k)) == [];
    }
  }

  /** Past the first gap start_num is one too far, and so it is when the next gap comes. */
  lemma {:induction false} GapAfterGap(g: FileState, off: nat, a: nat, keys: seq<nat>) returns (k: nat)
    requires Cursor(g, a, keys) && AllOnes(g) && off < S && !NoGap(keys, a) && 0 < a
    ensures k <= Last(keys) && k > 0 && k - 1 !in g.slices && Early(Output(g, off, keys, a + 1), Start(a), k)
    decreases |keys|
  {
    if keys[0] == a {
      k := GapAfterGap(g, off, a + 1, keys[1..]);
      LoLater(off, a);
      EarlyTurn(g, off, a, keys, a + 1, k);
    } else {
      k := keys[0];
      SkippedGap(g, off, a, keys);
      CursorLast(g, a, keys);
    }
  }

  lemma {:induction false} SecondGap(g: FileState, off: nat, start: nat, keys: seq<nat>) returns (k: nat)
    requires Cursor(g, start, keys) && AllOnes(g) && off < S && !OneRun(keys, start)
    ensures k <= Last(keys) && k > 0 && k - 1 !in g.slices && Early(Output(g, off, keys, start), Lo(off, start), k)
    decreases |keys|
  {
    if keys[0] == start {
      k := SecondGap(g, off, start + 1, keys[1..]);
      LoLater(off, start + 1);
    } else {
      k := GapAfterGap(g, off, keys[0] + 1, keys[1..]);
    }
    EarlyTurn(g, off, start, keys, start, k);
  }

  lemma {:induction false} EarlyIsWrong(g: FileState, offset: nat, len: nat, out: seq<byte>, k: nat)
    requires Early(out, offset, k) && k - 1 !in g.slices && offset < g.size
    requires Start(k - 1) < offset + Wanted(g.size, offset, len)
    ensures Take(out, len) != View(g, offset, offset + Wanted(g.size, offset, len))
  {
    ByteInSlice(g, k - 1, 0);
    DiffersAt(g, offset, len, out, Start(k - 1) - offset);
  }

  lemma {:induction false} TwoGapsIsWrong(g: FileState, offset: nat, len: nat, keys: seq<nat>, start: nat, off: nat)
    requires Cursor(g, start, keys) && AllOnes(g) && off < S && !OneRun(keys, start) && Lo(off, start) == offset < g.size
    requires 0 < len && Last(keys) <= LastWanted(g.size, offset, len) + 1
    ensures Take(Output(g, off, keys, start), len) != View(g, offset, offset + Wanted(g.size, offset, len))
  {
    var k := SecondGap(g, off, start, keys);
    WantedRange(g, offset, len);
    StartMono(k - 1, LastWanted(g.size, offset, len));
    EarlyIsWrong(g, offset, len, Output(g, off, keys, start), k);
  }

  // ---------- both together ----------

  /** A file with the same slices that the read gets wrong. */
  lemma {:induction false} UnreadableWitness(f: FileState, offset: nat, len: nat) returns (g: FileState)
    requires Wf(f) && offset < f.size && 0 < len && !ReadableShape(f, offset, len)
    ensures Wf(g) && SameShape(f, g) && !ReadsFile(g, offset, len)
  {
    if ScannedKeys(f, offset, len) == [] {
      g := f;
    } else if Aligned(offset) {
      g := AlignedWitness(f, offset, len);
    } else {
      g := MisalignedWitness(f, offset, len);
    }
  }

  lemma {:induction false} AlignedWitness(f: FileState, offset: nat, len: nat) returns (g: FileState)
    requires Wf(f) && offset < f.size && 0 < len && !ReadableShape(f, offset, len)
    requires Aligned(offset) && ScannedKeys(f, offset, len) != []
    ensures Wf(g) && SameShape(f, g) && !ReadsFile(g, offset, len)
  {
    var keys, start, off := ScannedKeys(f, offset, len), SliceOf(offset), InSlice(offset);
    LoIs(offset);
    ScanEnd(f, offset, len);
    if Last(keys) < LastWanted(f.size, offset, len) {
      g := f;
      KeysInFile(f, offset, len);
      ShortIsWrong(f, offset, len, keys, start, off);
    } else {
      g := OnesFile(f);
      ShapeDecides(f, g, offset, len);
      KeysInFile(g, offset, len);
      TwoGapsIsWrong(g, offset, len, keys, start, off);
    }
  }

  lemma {:induction false} MisalignedWitness(f: FileState, offset: nat, len: nat) returns (g: FileState)
    requires Wf(f) && offset < f.size && 0 < len && !ReadableShape(f, offset, len)
    requires !Aligned(offset) && ScannedKeys(f, offset, len) != []
    ensures Wf(g) && SameShape(f, g) && !ReadsFile(g, offset, len)
  {
    var keys, start, off := ScannedKeys(f, offset, len), SliceOf(offset), InSlice(offset);
    LoIs(offset);
    ScanEnd(f, offset, len);
    KeysInFile(f, offset, len);
    CursorLast(f, start, keys);
    WantedRange(f, offset, len);
    if keys[0] == start {
      g := MarkedFile(f, start);
      ShapeDecides(f, g, offset, len);
      Border(offset, 1);
      HeadIsWrong(g, offset, len, keys, start, off);
    } else if keys[0] <= LastWanted(f.size, offset, len) {
      g := OnesFile(f);
      ShapeDecides(f, g, offset, len);
      KeysInFile(g, offset, len);
      StartMono(keys[0], LastWanted(f.size, offset, len));
      Border(offset, keys[0]);
      LateIsWrong(g, offset, len, keys, start, off);
    } else {
      g := f;
      LongIsWrong(f, offset, len, keys, start, off);
    }
  }

  /** Which slices are stored decides whether a read can be trusted: it returns the bytes of the file,
      whatever they are, exactly for the readable shapes. */
  lemma {:induction false} ReadExactIff(f: FileState, offset: nat, len: nat)
    requires Wf(f) && offset < f.size && 0 < len
    ensures (forall g :: Wf(g) && SameShape(f, g) ==> ReadsFile(g, offset, len)) <==> ReadableShape(f, offset, len)
  {
    if ReadableShape(f, offset, len) {
      forall g | Wf(g) && SameShape(f, g) ensures ReadsFile(g, offset, len) {
        ShapeDecides(f, g, offset, len);
        ReadableReads(g, offset, len);
      }
    } else {
      var g := UnreadableWitness(f, offset, len);
    }
  }
}
