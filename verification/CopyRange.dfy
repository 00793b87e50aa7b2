/** copy_file_range: a read into a buffer and a write from it. */
module CopyRange {
  import opened Slices
  import opened SliceRead
  import opened SliceWrite
  import opened ReadExact
  import opened FileRuns
  import opened SlicedFile

  function CopyLength(size: nat, offset: nat, len: nat): nat {
    Min(SatSub(size, offset), len)
  }

  /** Source and destination may be the same file. A copy of nothing is still an empty write. */
  method CopyFileRange(src: DbfsFile, offsetSrc: nat, dest: DbfsFile, offsetDest: nat, len: nat) returns (count: nat)
    requires Wf(src.State()) && Wf(dest.State())
    requires LastTouched(offsetDest, CopyLength(src.size, offsetSrc, len)) < U32
    modifies dest`size, dest`slices
    ensures var data := ReadOutput(old(src.State()), offsetSrc, CopyLength(old(src.size), offsetSrc, len));
            count == |data| && dest.State() in WriteOutcomes(old(dest.State()), data, offsetDest)
  {
    var readSize: nat := CopyLength(src.size, offsetSrc, len);
    var buf := new byte[readSize](_ => 0);
    var n := src.Read(buf, offsetSrc);
    ShorterTouchesLess(offsetDest, n, readSize);
    count := dest.Write(buf[..n], offsetDest);
  }

  lemma {:induction false} ShorterTouchesLess(offset: nat, n: nat, len: nat)
    requires n <= len
    ensures LastTouched(offset, n) <= LastTouched(offset, len)
  {
    if n > 0 { SliceMono(offset + n - 1, offset + len - 1); } else if len > 0 { SliceMono(offset, offset + len - 1); }
  }

  /** From a source without holes, at an offset that read handles, a copy is a memmove between the flat files:
      the destination receives the bytes that the source had before, overlapping or not, and nothing else of it
      changes. */
  lemma {:induction false} CopyIsMemmove(src: FileState, offsetSrc: nat, len: nat, data: seq<byte>, dest: FileState,
                                         offsetDest: nat, g: FileState)
    requires Wf(src) && Dense(src) && Aligned(offsetSrc) && offsetSrc < src.size && 0 < len
    requires EndNum(src.size, offsetSrc, CopyLength(src.size, offsetSrc, len)) < U32
    requires data == ReadOutput(src, offsetSrc, CopyLength(src.size, offsetSrc, len))
    requires Wf(dest) && g in WriteOutcomes(dest, data, offsetDest)
    ensures data == Flat(src)[offsetSrc..offsetSrc + Min(src.size - offsetSrc, len)]
    ensures View(g, offsetDest, offsetDest + |data|) == data
    ensures NoStrayBytes(dest, data, offsetDest) ==> Flat(g) == FlatWrite(Flat(dest), data, offsetDest)
  {
    CopyReads(src, offsetSrc, CopyLength(src.size, offsetSrc, len));
    ReceivesData(dest, data, offsetDest, g);
    if NoStrayBytes(dest, data, offsetDest) { WriteExact(dest, data, offsetDest, g); }
  }

  lemma {:induction false} CopyReads(src: FileState, offset: nat, n: nat)
    requires Wf(src) && Dense(src) && Aligned(offset) && offset + n <= src.size && EndNum(src.size, offset, n) < U32
    ensures ReadOutput(src, offset, n) == Flat(src)[offset..offset + n]
  {
    DenseRead(src, offset, n);
  }

  lemma {:induction false} ReceivesData(dest: FileState, data: seq<byte>, offset: nat, g: FileState)
    requires Wf(dest) && g in WriteOutcomes(dest, data, offset)
    ensures View(g, offset, offset + |data|) == data
  {
    forall k | 0 <= k < |data| ensures View(g, offset, offset + |data|)[k] == data[k] {
      WriteBytes(dest, data, offset, g, offset + k);
    }
  }

  /** Inside one file without holes, to an offset in it, the flat file is spliced. */
  lemma {:induction false} CopyWithinFile(f: FileState, offsetSrc: nat, len: nat, data: seq<byte>, offsetDest: nat,
                                          g: FileState)
    requires Wf(f) && Dense(f) && Aligned(offsetSrc) && offsetSrc < f.size && 0 < len && offsetDest <= f.size
    requires EndNum(f.size, offsetSrc, CopyLength(f.size, offsetSrc, len)) < U32
    requires data == ReadOutput(f, offsetSrc, CopyLength(f.size, offsetSrc, len)) && g in WriteOutcomes(f, data, offsetDest)
    ensures var n := Min(f.size - offsetSrc, len);
            Flat(g) == FlatPut(Flat(f), Flat(f)[offsetSrc..offsetSrc + n], offsetDest)
  {
    DenseNoStray(f, data, offsetDest);
    CopyIsMemmove(f, offsetSrc, len, data, f, offsetDest, g);
    FlatPutIs(Flat(f), data, offsetDest);
  }

  /** A copy of nothing leaves the bytes of the destination alone, whatever fresh buffers hold, exactly if its offset
      lies in a stored slice of the file, or at an end of the file that is a slice border. Past the end it grows the
      file (EmptyWriteGrows). */
  lemma {:induction false} CopyNothingIff(dest: FileState, offset: nat)
    requires Wf(dest)
    ensures (forall g :: g in WriteOutcomes(dest, [], offset) ==> Flat(g) == Flat(dest)) <==>
            offset <= dest.size && (SliceOf(offset) in dest.slices || (offset == dest.size && InSlice(offset) == 0))
  {
    WriteExactIff(dest, [], offset);
    assert FlatWrite(Flat(dest), [], offset) == Flat(dest);
  }
}
