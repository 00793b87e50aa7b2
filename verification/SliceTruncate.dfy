/** Truncate and fallocate: the size, the slices and the free space of the disk. */
module SliceTruncate {
  import opened Slices
  import opened SliceWrite

  /** A file and the super block's disk_size. */
  datatype Disk = Disk(file: FileState, free: nat)

  /** Growing into a later slice: nothing is stored, the space is taken off disk_size. */
  ghost predicate Crosses(size: nat, n: nat) { SliceOf(size) < SliceOf(n) }

  /** The slice with the bytes from r on set to zero. */
  ghost function ZeroTail(s: seq<byte>, r: nat): (t: seq<byte>)
    requires r <= |s|
    ensures |t| == |s| && forall k :: 0 <= k < |t| ==> t[k] == if k < r then s[k] else 0
  {
    s[..r] + Zeros(|s| - r)
  }

  /** The slices that freeing those after `from` up to `to` deletes, their numbers being cast to u32. */
  ghost predicate Freed(from: nat, to: nat, i: nat) { exists j :: from < j <= to && Key(j) == i }

  /** One turn of the freeing loop. */
  lemma {:induction false} FreeOne(slices: map<nat, seq<byte>>, bucket: map<nat, seq<byte>>, from: nat, i: nat)
    requires from < i && bucket == map j | j in slices && !Freed(from, i - 1, j) :: slices[j]
    ensures bucket - {Key(i)} == map j | j in slices && !Freed(from, i, j) :: slices[j]
    ensures Key(i) !in bucket ==> bucket == bucket - {Key(i)}
  {
    forall j ensures Freed(from, i, j) <==> Freed(from, i - 1, j) || j == Key(i) { }
  }

  ghost function Truncated(f: FileState, n: nat): FileState {
    if Crosses(f.size, n) then f.(size := n)
    else FileState(n, map i | i in f.slices && !Freed(SliceOf(n), SliceOf(f.size), i) ::
                     if i == Key(SliceOf(n)) && |f.slices[i]| == S then ZeroTail(f.slices[i], InSlice(n))
                     else f.slices[i])
  }

  /** Truncating to n takes n - size bytes when it crosses a slice border upwards, and returns whole slices
      when it does downwards. */
  ghost predicate HasSpace(d: Disk, n: nat) {
    Crosses(d.file.size, n) ==> n - d.file.size <= d.free
  }

  ghost function FreeAfter(d: Disk, n: nat): nat
    requires HasSpace(d, n)
  {
    if Crosses(d.file.size, n) then
      d.free - (n - d.file.size)
    else
      StartMono(SliceOf(n), SliceOf(d.file.size));
      d.free + (Start(SliceOf(d.file.size)) - Start(SliceOf(n)))
  }

  ghost function TruncateDisk(d: Disk, n: nat): Disk {
    if HasSpace(d, n) then Disk(Truncated(d.file, n), FreeAfter(d, n)) else d
  }

  /** Fallocate reserves space in the same way, stores nothing, and never shrinks. With FALLOC_FL_KEEP_SIZE
      the size stays although the space is taken. */
  ghost function FallocateDisk(d: Disk, n: nat, keep: bool): Disk {
    if !HasSpace(d, n) then d
    else Disk(if keep then d.file else d.file.(size := Max(d.file.size, n)),
              if Crosses(d.file.size, n) then d.free - (n - d.file.size) else d.free)
  }

  // ---------- bytes ----------

  /** The casts change nothing. */
  ghost predicate Small(f: FileState) { SliceOf(f.size) < U32 }

  lemma {:induction false} FreedIs(from: nat, to: nat, i: nat)
    requires to < U32
    ensures Freed(from, to, i) <==> from < i <= to
  {
    if from < i <= to { assert Key(i) == i; }
  }

  lemma {:induction false} TruncatedSlices(f: FileState, n: nat, i: nat)
    requires Wf(f) && Small(f) && !Crosses(f.size, n)
    ensures i in Truncated(f, n).slices <==> i in f.slices && i <= SliceOf(n)
    ensures i in f.slices && i < SliceOf(n) ==> Truncated(f, n).slices[i] == f.slices[i]
    ensures i in f.slices && i == SliceOf(n) ==> Truncated(f, n).slices[i] == ZeroTail(f.slices[i], InSlice(n))
  {
    FreedIs(SliceOf(n), SliceOf(f.size), i);
  }

  lemma {:induction false} TruncateBytes(f: FileState, n: nat, p: nat)
    requires Wf(f) && (Small(f) || Crosses(f.size, n))
    ensures ByteAt(Truncated(f, n), p) == if Crosses(f.size, n) || p < n then ByteAt(f, p) else 0
  {
    if !Crosses(f.size, n) {
      TruncatedSlices(f, n, SliceOf(p));
      Place(p);
      Place(n);
      if p < n { SliceMono(p, n); } else { SliceMono(n, p); }
    }
  }

  lemma {:induction false} TruncateKeepsWf(f: FileState, n: nat)
    requires Wf(f) && SizeFits(n)
    ensures Wf(Truncated(f, n))
  {
    forall i | i in Truncated(f, n).slices ensures i <= SliceOf(n) { assert Key(i) == i; }
  }

  /** Cutting a file down to n and growing it again to m keeps what was below n and shows zeros above. */
  lemma {:induction false} DownThenUp(f: FileState, n: nat, m: nat)
    requires Wf(f) && Small(f) && n <= f.size && n <= m
    ensures Flat(Truncated(Truncated(f, n), m)) == Flat(f)[..n] + Zeros(m - n)
  {
    var g := Truncated(f, n);
    var h := Truncated(g, m);
    SliceMono(n, f.size);
    if n > 0 { SliceMono(n - 1, f.size); }
    TruncateKeepsWf(f, n);
    forall p | 0 <= p < m ensures Flat(h)[p] == (Flat(f)[..n] + Zeros(m - n))[p] {
      assert Flat(h)[p] == ByteAt(h, p);
      TruncateBytes(f, n, p);
      TruncateBytes(g, m, p);
      if p < n { assert Flat(f)[p] == ByteAt(f, p); }
    }
  }

  /** No byte is left over behind the end of the file. */
  ghost predicate CleanTail(f: FileState) {
    forall p: nat :: f.size <= p ==> ByteAt(f, p) == 0
  }

  ghost predicate GrowsWithZeros(f: FileState, m: nat)
    requires f.size <= m
  {
    Flat(Truncated(f, m)) == Flat(f) + Zeros(m - f.size)
  }

  /** Growing a file always shows zeros exactly when nothing is left over behind its end. A truncate leaves
      nothing there, a write may leave the rest of an allocator's buffer. */
  lemma {:induction false} GrowIff(f: FileState)
    requires Wf(f) && Small(f)
    ensures (forall m: nat :: f.size <= m ==> GrowsWithZeros(f, m)) <==> CleanTail(f)
  {
    forall m: nat | f.size <= m ensures GrowsWithZeros(f, m) <==> CleanUpTo(f, m) { GrowToIff(f, m); }
    if !CleanTail(f) {
      var p: nat :| f.size <= p && ByteAt(f, p) != 0;
      assert !CleanUpTo(f, p + 1);
    }
  }

  /** No byte is left over between the end of the file and m. */
  ghost predicate CleanUpTo(f: FileState, m: nat) {
    forall p: nat :: f.size <= p < m ==> ByteAt(f, p) == 0
  }

  /** For one new size, exactly the bytes up to it matter. */
  lemma {:induction false} GrowToIff(f: FileState, m: nat)
    requires Wf(f) && Small(f) && f.size <= m
    ensures GrowsWithZeros(f, m) <==> CleanUpTo(f, m)
  {
    var h := Truncated(f, m);
    forall p | 0 <= p < m ensures ByteAt(h, p) == ByteAt(f, p) { TruncateBytes(f, m, p); }
    SameBytesGrow(f, h, m);
  }

  /** A longer file that shows the same stored bytes is the old one and zeros exactly if nothing was left over. */
  lemma {:induction false} SameBytesGrow(f: FileState, h: FileState, m: nat)
    requires f.size <= m == h.size && forall p | 0 <= p < m :: ByteAt(h, p) == ByteAt(f, p)
    ensures Flat(h) == Flat(f) + Zeros(m - f.size) <==> CleanUpTo(f, m)
  {
    var w := Flat(f) + Zeros(m - f.size);
    forall p | 0 <= p < m ensures Flat(h)[p] == ByteAt(f, p) && w[p] == if p < f.size then ByteAt(f, p) else 0 {
      if p < f.size { assert Flat(f)[p] == ByteAt(f, p); }
    }
    if Flat(h) == w {
      forall p: nat | f.size <= p < m ensures ByteAt(f, p) == 0 { assert Flat(h)[p] == w[p]; }
    }
  }

  /** A fallocate that grows the file stores nothing either, so it shows zeros under the same condition. */
  lemma {:induction false} FallocateGrowIff(d: Disk, n: nat)
    requires d.file.size <= n && HasSpace(d, n)
    ensures Flat(FallocateDisk(d, n, false).file) == Flat(d.file) + Zeros(n - d.file.size) <==> CleanUpTo(d.file, n)
  {
    var h := FallocateDisk(d, n, false).file;
    forall p | 0 <= p < n ensures ByteAt(h, p) == ByteAt(d.file, p) { }
    SameBytesGrow(d.file, h, n);
  }

  /** Any other fallocate leaves the bytes alone. */
  lemma {:induction false} FallocateKeeps(d: Disk, n: nat, keep: bool)
    requires keep || n <= d.file.size || !HasSpace(d, n)
    ensures FallocateDisk(d, n, keep).file == d.file
  {
  }

  // ---------- the limit ----------

  /** At the largest size the number after the last slice is cast to 0: cutting such a file takes slice 0 as well. */
  lemma {:induction false} LimitTruncates(f: FileState, n: nat, p: nat)
    requires Wf(f) && !Small(f) && n <= f.size
    ensures ByteAt(Truncated(f, n), p) == if p < n && SliceOf(p) != 0 then ByteAt(f, p) else 0
  {
    AtLimit(f.size);
    SliceMono(n, f.size);
    Place(p);
    Place(n);
    if SliceOf(p) == 0 { LimitFirst(f, n); } else { LimitSlices(f, n, SliceOf(p)); }
    if p < n { SliceMono(p, n); } else { SliceMono(n, p); }
  }

  lemma {:induction false} AtLimit(size: nat)
    requires SizeFits(size) && SliceOf(size) >= U32
    ensures SliceOf(size) == U32 && InSlice(size) == 0
  {
    var q := SliceOf(size);
    Place(size);
    Border(size - 1, q);
    PlaceOf(q - 1, S - 1);
  }

  lemma {:induction false} LimitFrees(from: nat, i: nat)
    requires from <= U32 && i < U32
    ensures Freed(from, U32, i) <==> from < U32 && (from < i || i == 0)
  {
    assert Key(U32) == 0 && Key(i) == i;
  }

  lemma {:induction false} LimitFirst(f: FileState, n: nat)
    requires Wf(f) && SliceOf(f.size) == U32 && SliceOf(n) <= U32 && (SliceOf(n) == U32 ==> InSlice(n) == 0)
    ensures var t := Truncated(f, n).slices; 0 in t ==> t[0] == ZeroTail(f.slices[0], 0)
  {
    LimitFrees(SliceOf(n), 0);
    assert Key(U32) == 0;
  }

  lemma {:induction false} LimitSlices(f: FileState, n: nat, i: nat)
    requires Wf(f) && SliceOf(f.size) == U32 && SliceOf(n) <= U32 && i != 0
    ensures var t := Truncated(f, n).slices;
            && (i in t <==> i in f.slices && i <= SliceOf(n))
            && (i in t && i < SliceOf(n) ==> t[i] == f.slices[i])
            && (i in t && i == SliceOf(n) ==> t[i] == ZeroTail(f.slices[i], InSlice(n)))
  {
    if i in f.slices {
      LimitFrees(SliceOf(n), i);
      assert Key(i) == i && Key(U32) == 0;
    }
  }

  /** Cutting a file down keeps what is below the new end, unless the file has the largest size and something other
      than zeros in its first slice. */
  lemma {:induction false} CutIff(f: FileState, n: nat)
    requires Wf(f) && n <= f.size
    ensures Flat(Truncated(f, n)) == Flat(f)[..n] <==>
            Small(f) || forall p: nat :: p < n && SliceOf(p) == 0 ==> ByteAt(f, p) == 0
  {
    var h := Truncated(f, n);
    forall p | 0 <= p < n
      ensures Flat(h)[p] == if Small(f) || SliceOf(p) != 0 then ByteAt(f, p) else 0
      ensures Flat(f)[..n][p] == ByteAt(f, p)
    {
      assert Flat(h)[p] == ByteAt(h, p) && Flat(f)[p] == ByteAt(f, p);
      if Small(f) { TruncateBytes(f, n, p); } else { LimitTruncates(f, n, p); }
    }
    if Flat(h) == Flat(f)[..n] && !Small(f) {
      forall p: nat | p < n && SliceOf(p) == 0 ensures ByteAt(f, p) == 0 { assert Flat(h)[p] == Flat(f)[..n][p]; }
    }
  }

  lemma {:induction false} ShrinkCleans(f: FileState, n: nat)
    requires Wf(f) && Small(f) && n <= f.size
    ensures CleanTail(Truncated(f, n))
  {
    SliceMono(n, f.size);
    forall p: nat | n <= p ensures ByteAt(Truncated(f, n), p) == 0 { TruncateBytes(f, n, p); }
  }

  lemma {:induction false} GrowByOne(g: FileState, m: nat)
    requires Wf(g) && Small(g) && m == g.size + 1
    ensures Flat(Truncated(g, m)) == Flat(g) + [ByteAt(g, g.size)]
  {
    var h := Truncated(g, m);
    forall p | 0 <= p < m ensures Flat(h)[p] == (Flat(g) + [ByteAt(g, g.size)])[p] {
      TruncateBytes(g, m, p);
      assert Flat(h)[p] == ByteAt(h, p);
    }
  }

  lemma {:induction false} OneByteOutcome(f: FileState, b: byte, g: FileState)
    requires 2 <= S && f == FileState(0, map[]) && g == OnesOutcome(f, [b], 0)
    ensures Wf(g) && Small(g) && g.size == 1 && ByteAt(g, 0) == b && ByteAt(g, 1) == 1
  {
    PlaceOf(0, 0);
    PlaceOf(0, 1);
    OnesIsOutcome(f, [b], 0);
    WriteBytes(f, [b], 0, g, 0);
    WriteKeepsWf(f, [b], 0, g);
    OnesShow(f, [b], 0, 1);
  }

  /** One byte written into a fresh file, and the file grown by one: the caller sees the allocator's byte. */
  lemma {:induction false} WriteThenGrow(b: byte)
    requires 2 <= S
    ensures exists g :: g in WriteOutcomes(FileState(0, map[]), [b], 0) && Flat(Truncated(g, 2)) == [b, 1]
  {
    var f := FileState(0, map[]);
    var g := OnesOutcome(f, [b], 0);
    OnesIsOutcome(f, [b], 0);
    OneByteOutcome(f, b, g);
    GrowByOne(g, g.size + 1);
    assert Flat(g) == [b];
  }

  // ---------- space ----------

  /** Free space plus the space of the whole slices below the end of the file. */
  ghost function Space(d: Disk): nat { d.free + Start(SliceOf(d.file.size)) }

  /** A truncate keeps the space, but for the two slice remainders when it crosses a border upwards. */
  lemma {:induction false} TruncateSpace(d: Disk, n: nat)
    ensures Space(TruncateDisk(d, n)) - Space(d) ==
            if HasSpace(d, n) && Crosses(d.file.size, n) then InSlice(d.file.size) - InSlice(n) else 0
  {
    if HasSpace(d, n) && !Crosses(d.file.size, n) { StartMono(SliceOf(n), SliceOf(d.file.size)); }
  }

  lemma {:induction false} FallocateSpace(d: Disk, n: nat)
    ensures Space(FallocateDisk(d, n, false)) - Space(d) ==
            if HasSpace(d, n) && Crosses(d.file.size, n) then InSlice(d.file.size) - InSlice(n) else 0
  {
    if n <= d.file.size { SliceMono(n, d.file.size); } else { SliceMono(d.file.size, n); }
  }

  /** With FALLOC_FL_KEEP_SIZE the reserved bytes are not accounted for at all. */
  lemma {:induction false} KeepSizeSpace(d: Disk, n: nat)
    ensures Space(d) - Space(FallocateDisk(d, n, true)) ==
            if HasSpace(d, n) && Crosses(d.file.size, n) then n - d.file.size else 0
  {
  }
}
