/** Whole runs of file operations: the slice store against one flat byte sequence, its invariant, its space. */
module FileRuns {
  import opened Slices
  import opened SliceRead
  import opened SliceWrite
  import opened SliceTruncate
  import opened ReadExact

  datatype Event =
    | Wrote(buf: seq<byte>, offset: nat)
    | Cut(n: nat)
    | Reserved(n: nat, keep: bool)
    | Got(offset: nat, len: nat, out: seq<byte>)

  /** A run, with the disk after each event. */
  datatype Run = Begin(first: Disk) | Then(before: Run, event: Event, after: Disk)

  ghost function Final(r: Run): Disk {
    match r case Begin(d) => d case Then(_, _, d) => d
  }

  ghost predicate Step(d: Disk, e: Event, d': Disk) {
    match e
    case Wrote(buf, offset) => d'.free == d.free && d'.file in WriteOutcomes(d.file, buf, offset)
    case Cut(n) => d' == TruncateDisk(d, n)
    case Reserved(n, keep) => d' == FallocateDisk(d, n, keep)
    case Got(offset, len, out) => d' == d && out == ReadOutput(d.file, offset, len)
  }

  ghost predicate IsRun(r: Run) {
    match r case Begin(_) => true case Then(b, e, d) => IsRun(b) && Step(Final(b), e, d)
  }

  // ---------- the invariant ----------

  /** The slice numbers that an operation needs fit a u32. */
  ghost predicate Fits(e: Event) {
    match e
    case Wrote(buf, offset) => LastTouched(offset, |buf|) < U32
    case Cut(n) => SizeFits(n)
    case Reserved(n, keep) => keep || SizeFits(n)
    case Got(_, _, _) => true
  }

  ghost predicate AllFit(r: Run) {
    match r case Begin(d) => Wf(d.file) case Then(b, e, _) => AllFit(b) && Fits(e)
  }

  lemma {:induction false} StepKeepsWf(d: Disk, e: Event, d': Disk)
    requires Wf(d.file) && Fits(e) && Step(d, e, d')
    ensures Wf(d'.file)
  {
    match e
    case Wrote(buf, offset) => WriteKeepsWf(d.file, buf, offset, d'.file);
    case Cut(n) => TruncateKeepsWf(d.file, n);
    case Reserved(n, keep) => SliceMono(d.file.size, Max(d.file.size, n));
    case Got(_, _, _) =>
  }

  /** Every stored slice keeps its full length and a number up to size / SLICE_SIZE. */
  lemma {:induction false} RunKeepsWf(r: Run)
    requires IsRun(r) && AllFit(r)
    ensures Wf(Final(r).file)
  {
    if r.Then? {
      RunKeepsWf(r.before);
      StepKeepsWf(Final(r.before), r.event, r.after);
    }
  }

  /** Hence, after any run, truncating down to n and then up to m shows zeros above n. */
  lemma {:induction false} RunDownUp(r: Run, n: nat, m: nat)
    requires IsRun(r) && AllFit(r) && Small(Final(r).file) && n <= Final(r).file.size && n <= m
    requires HasSpace(TruncateDisk(Final(r), n), m)
    ensures Flat(TruncateDisk(TruncateDisk(Final(r), n), m).file) == Flat(Final(r).file)[..n] + Zeros(m - n)
  {
    RunKeepsWf(r);
    SliceMono(n, Final(r).file.size);
    DownThenUp(Final(r).file, n, m);
  }

  // ---------- the flat file ----------

  /** What the operations are to do to a flat byte sequence. */
  function FlatAfter(r: Run): seq<byte> {
    match r case Begin(_) => [] case Then(b, e, _) => FlatStep(FlatAfter(b), e)
  }

  function FlatStep(v: seq<byte>, e: Event): seq<byte> {
    match e
    case Wrote(buf, offset) => FlatPut(v, buf, offset)
    case Cut(n) => Take(v, n)
    case Reserved(_, _) => v
    case Got(_, _, _) => v
  }

  function FlatPut(v: seq<byte>, buf: seq<byte>, offset: nat): seq<byte> {
    Take(v, offset) + buf + (if offset + |buf| <= |v| then v[offset + |buf|..] else [])
  }

  function FlatRead(v: seq<byte>, offset: nat, len: nat): seq<byte> {
    if offset >= |v| then [] else v[offset..offset + Min(len, |v| - offset)]
  }

  /** From an empty file: writes that leave no hole, truncates that do not grow, reads from offsets below
      SLICE_SIZE or at slice borders. A file of the largest size is not truncated (see CutIff). */
  ghost predicate Plain(r: Run) {
    match r
    case Begin(d) => d.file == FileState(0, map[])
    case Then(b, e, _) => Plain(b) && PlainEvent(|FlatAfter(b)|, e)
  }

  ghost predicate PlainEvent(size: nat, e: Event) {
    match e
    case Wrote(buf, offset) => offset <= size && LastTouched(offset, |buf|) < U32
    case Cut(n) => n <= size && SliceOf(size) < U32
    case Reserved(_, _) => false
    case Got(offset, len, _) => Aligned(offset) && EndNum(size, offset, len) < U32
  }

  ghost predicate ReadsAgree(r: Run) {
    match r
    case Begin(_) => true
    case Then(b, e, _) => ReadsAgree(b) && (e.Got? ==> e.out == FlatRead(FlatAfter(b), e.offset, e.len))
  }

  /** No slice below the end of the file is missing. */
  ghost predicate Dense(f: FileState) {
    forall i: nat :: Start(i) < f.size ==> i in f.slices
  }

  lemma {:induction false} DenseAt(f: FileState, p: nat)
    requires Dense(f) && p < f.size
    ensures SliceOf(p) in f.slices
  {
  }

  lemma {:induction false} DenseNoStray(f: FileState, buf: seq<byte>, offset: nat)
    requires Dense(f) && offset <= f.size
    ensures NoStrayBytes(f, buf, offset)
  {
    Place(offset);
    if InSlice(offset) > 0 { assert Start(SliceOf(offset)) < f.size; }
    if offset + |buf| < f.size && |buf| > 0 {
      DenseAt(f, offset + |buf| - 1);
    } else if |buf| == 0 && offset < f.size {
      DenseAt(f, offset);
    }
  }

  lemma {:induction false} WriteKeepsDense(f: FileState, buf: seq<byte>, offset: nat, g: FileState)
    requires Wf(f) && Dense(f) && offset <= f.size && g in WriteOutcomes(f, buf, offset)
    ensures Dense(g)
  {
    forall i: nat | Start(i) < g.size ensures i in g.slices {
      PlaceOf(i, 0);
      WriteBytes(f, buf, offset, g, Start(i));
      if !(Start(i) < f.size) { assert offset <= Start(i) < offset + |buf|; }
    }
  }

  lemma {:induction false} CutKeepsDense(f: FileState, n: nat)
    requires Wf(f) && Small(f) && Dense(f) && n <= f.size
    ensures Dense(Truncated(f, n))
  {
    SliceMono(n, f.size);
    forall i: nat | Start(i) < n ensures i in Truncated(f, n).slices {
      Border(n, i);
      TruncatedSlices(f, n, i);
    }
  }

  lemma {:induction false} ScanNoGap(m: map<nat, seq<byte>>, lo: nat, hi: nat)
    requires forall i: nat :: lo <= i && i + 1 < hi ==> i in m
    ensures NoGap(Scan(m, lo, hi), lo)
    decreases hi - lo
  {
    if lo < hi {
      var rest := Scan(m, lo + 1, hi);
      ScanNoGap(m, lo + 1, hi);
      if lo in m { assert Scan(m, lo, hi)[1..] == rest; } else { assert rest == []; }
    }
  }

  lemma {:induction false} NoGapIsOneRun(keys: seq<nat>, start: nat)
    requires NoGap(keys, start)
    ensures OneRun(keys, start)
    decreases |keys|
  {
    if keys != [] { NoGapIsOneRun(keys[1..], start + 1); }
  }

  lemma {:induction false} ScanReaches(m: map<nat, seq<byte>>, lo: nat, hi: nat, k: nat)
    requires lo <= k < hi && k in m
    ensures Scan(m, lo, hi) != [] && k <= Last(Scan(m, lo, hi))
    decreases hi - lo
  {
    var rest := Scan(m, lo + 1, hi);
    if lo < k {
      ScanReaches(m, lo + 1, hi, k);
      assert Last(Scan(m, lo, hi)) == Last(rest);
    } else if rest != [] {
      ScanSpec(m, lo + 1, hi);
      assert Last(rest) in rest;
    }
  }

  lemma {:induction false} DenseNoGap(f: FileState, lo: nat, hi: nat)
    requires Dense(f) && hi <= SliceOf(f.size) + 1
    ensures NoGap(Scan(f.slices, lo, hi), lo)
  {
    forall i: nat | lo <= i && i + 1 < hi ensures i in f.slices {
      StartMono(i, SliceOf(f.size));
      Place(f.size);
    }
    ScanNoGap(f.slices, lo, hi);
  }

  lemma {:induction false} LastWantedScanned(size: nat, offset: nat, len: nat, k: nat)
    requires offset < size && 0 < len && k == LastWanted(size, offset, len)
    ensures SliceOf(offset) <= k < EndNum(size, offset, len)
  {
    var end := offset + Wanted(size, offset, len) - 1;
    SliceMono(offset, end);
    SliceMono(end, size);
    SliceMono(end, offset + len);
  }

  lemma {:induction false} DenseScan(f: FileState, lo: nat, hi: nat, k: nat)
    requires Dense(f) && hi <= SliceOf(f.size) + 1 && lo <= k < hi && k in f.slices
    ensures var keys := Scan(f.slices, lo, hi); keys != [] && k <= Last(keys) && OneRun(keys, lo)
  {
    DenseNoGap(f, lo, hi);
    NoGapIsOneRun(Scan(f.slices, lo, hi), lo);
    ScanReaches(f.slices, lo, hi, k);
  }

  lemma {:induction false} KeysAre(f: FileState, offset: nat, len: nat)
    requires Wf(f) && offset < f.size && EndNum(f.size, offset, len) < U32
    ensures ScannedKeys(f, offset, len) == Scan(f.slices, SliceOf(offset), EndNum(f.size, offset, len))
  {
    SliceMono(offset, f.size - 1);
  }

  lemma {:induction false} DenseKeys(f: FileState, offset: nat, len: nat, keys: seq<nat>, k: nat)
    requires Wf(f) && Dense(f) && offset < f.size && 0 < len && EndNum(f.size, offset, len) < U32
    requires keys == ScannedKeys(f, offset, len) && k == LastWanted(f.size, offset, len)
    ensures keys != [] && k <= Last(keys) && OneRun(keys, SliceOf(offset))
  {
    var lo, hi := SliceOf(offset), EndNum(f.size, offset, len);
    LastWantedScanned(f.size, offset, len, k);
    DenseAt(f, offset + Wanted(f.size, offset, len) - 1);
    DenseScan(f, lo, hi, k);
    KeysAre(f, offset, len);
  }

  /** In a file without holes the last byte wanted is in a stored slice that the cursor meets, and no slice
      before it is missing. */
  lemma {:induction false} DenseReadable(f: FileState, offset: nat, len: nat)
    requires Wf(f) && Dense(f) && offset < f.size && 0 < len && Aligned(offset)
    requires EndNum(f.size, offset, len) < U32
    ensures ReadableShape(f, offset, len)
  {
    var keys := ScannedKeys(f, offset, len);
    DenseKeys(f, offset, len, keys, LastWanted(f.size, offset, len));
  }

  lemma {:induction false} ViewIsFlat(f: FileState, lo: nat, hi: nat)
    requires lo <= hi <= f.size
    ensures View(f, lo, hi) == Flat(f)[lo..hi]
  {
  }

  lemma {:induction false} FlatReadIs(f: FileState, offset: nat, len: nat)
    requires offset < f.size
    ensures FlatRead(Flat(f), offset, len) == View(f, offset, offset + Wanted(f.size, offset, len))
  {
    ViewIsFlat(f, offset, offset + Wanted(f.size, offset, len));
  }

  lemma {:induction false} ReadsInside(f: FileState, offset: nat, len: nat)
    requires Wf(f) && Dense(f) && Aligned(offset) && EndNum(f.size, offset, len) < U32 && offset < f.size && 0 < len
    ensures ReadsFile(f, offset, len)
  {
    DenseReadable(f, offset, len);
    ReadableReads(f, offset, len);
  }

  lemma {:induction false} DenseRead(f: FileState, offset: nat, len: nat)
    requires Wf(f) && Dense(f) && Aligned(offset) && EndNum(f.size, offset, len) < U32
    ensures ReadOutput(f, offset, len) == FlatRead(Flat(f), offset, len)
  {
    if offset < f.size {
      FlatReadIs(f, offset, len);
      if 0 < len { ReadsInside(f, offset, len); }
    }
  }

  ghost predicate Simulates(f: FileState, v: seq<byte>) {
    Wf(f) && Dense(f) && Flat(f) == v
  }

  lemma {:induction false} FlatPutIs(v: seq<byte>, buf: seq<byte>, offset: nat)
    requires offset <= |v|
    ensures FlatPut(v, buf, offset) == FlatWrite(v, buf, offset)
  {
  }

  lemma {:induction false} WriteSimulates(f: FileState, v: seq<byte>, buf: seq<byte>, offset: nat, g: FileState)
    requires Simulates(f, v) && offset <= |v| && LastTouched(offset, |buf|) < U32 && g in WriteOutcomes(f, buf, offset)
    ensures Simulates(g, FlatPut(v, buf, offset))
  {
    DenseNoStray(f, buf, offset);
    WriteExact(f, buf, offset, g);
    WriteKeepsDense(f, buf, offset, g);
    WriteKeepsWf(f, buf, offset, g);
    FlatPutIs(v, buf, offset);
  }

  lemma {:induction false} CutSimulates(f: FileState, v: seq<byte>, n: nat)
    requires Simulates(f, v) && Small(f) && n <= |v|
    ensures Simulates(Truncated(f, n), Take(v, n)) && !Crosses(f.size, n)
  {
    SliceMono(n, f.size);
    if n > 0 { SliceMono(n - 1, f.size); }
    CutKeepsDense(f, n);
    TruncateKeepsWf(f, n);
    forall p | 0 <= p < n ensures Flat(Truncated(f, n))[p] == Flat(f)[p] {
      TruncateBytes(f, n, p);
      assert Flat(f)[p] == ByteAt(f, p);
      assert Flat(Truncated(f, n))[p] == ByteAt(Truncated(f, n), p);
    }
  }

  lemma {:induction false} CutStep(d: Disk, v: seq<byte>, n: nat)
    requires Simulates(d.file, v) && Small(d.file) && n <= |v|
    ensures Simulates(TruncateDisk(d, n).file, Take(v, n))
  {
    CutSimulates(d.file, v, n);
  }

  lemma {:induction false} GotStep(f: FileState, v: seq<byte>, offset: nat, len: nat)
    requires Simulates(f, v) && Aligned(offset) && EndNum(|v|, offset, len) < U32
    ensures ReadOutput(f, offset, len) == FlatRead(v, offset, len)
  {
    DenseRead(f, offset, len);
  }

  lemma {:induction false} StepSimulates(d: Disk, v: seq<byte>, e: Event, d': Disk)
    requires Simulates(d.file, v) && Step(d, e, d') && PlainEvent(|v|, e)
    ensures Simulates(d'.file, FlatStep(v, e))
    ensures e.Got? ==> e.out == FlatRead(v, e.offset, e.len)
  {
    match e
    case Wrote(buf, offset) => WriteSimulates(d.file, v, buf, offset, d'.file);
    case Cut(n) => CutStep(d, v, n);
    case Got(offset, len, _) => GotStep(d.file, v, offset, len);
  }

  /** Over every plain run the slice store is one flat byte sequence: its bytes are those that the writes and
      truncates leave on a flat sequence, so no byte of a fresh buffer shows, and every read returns them. */
  lemma {:induction false} FlatFile(r: Run)
    requires IsRun(r) && Plain(r)
    ensures Simulates(Final(r).file, FlatAfter(r)) && ReadsAgree(r)
  {
    match r
    case Begin(d) => PlaceOf(0, 0);
    case Then(b, e, d) =>
      FlatFile(b);
      StepSimulates(Final(b), FlatAfter(b), e, d);
  }

  // ---------- space ----------

  ghost function Length(r: Run): nat {
    match r case Begin(_) => 0 case Then(b, _, _) => Length(b) + 1
  }

  ghost function FirstDisk(r: Run): Disk {
    match r case Begin(d) => d case Then(b, _, _) => FirstDisk(b)
  }

  /** Truncates and fallocates that move the size. */
  ghost predicate Resizing(r: Run) {
    match r case Begin(_) => true case Then(b, e, _) => Resizing(b) && (e.Cut? || (e.Reserved? && !e.keep))
  }

  lemma {:induction false} ResizeDrift(d: Disk, e: Event, d': Disk)
    requires Step(d, e, d') && (e.Cut? || (e.Reserved? && !e.keep))
    ensures Space(d) - (S - 1) <= Space(d') <= Space(d) + (S - 1)
  {
    Place(d.file.size);
    Place(e.n);
    if e.Cut? { TruncateSpace(d, e.n); } else { FallocateSpace(d, e.n); }
  }

  lemma {:induction false} DriftAdds(x: int, y: int, z: int, k: nat, s: nat)
    requires x - k * s <= y <= x + k * s && y - s <= z <= y + s
    ensures x - (k + 1) * s <= z <= x + (k + 1) * s
  {
    assert (k + 1) * s == k * s + s;
  }

  /** Free space plus whole slices drifts by less than a slice for each operation. */
  lemma {:induction false} RunDrift(r: Run)
    requires IsRun(r) && Resizing(r)
    ensures Space(FirstDisk(r)) - Length(r) * (S - 1) <= Space(Final(r)) <= Space(FirstDisk(r)) + Length(r) * (S - 1)
  {
    match r
    case Begin(_) =>
    case Then(b, e, d) =>
      RunDrift(b);
      ResizeDrift(Final(b), e, d);
      DriftAdds(Space(FirstDisk(r)), Space(Final(b)), Space(d), Length(b), S - 1);
  }
}
