/** What a write does to the slices, whatever the allocator's fresh buffers hold. */
module SliceWrite {
  import opened Slices

  /** The last slice a write puts. An empty buffer still puts one slice. */
  ghost function LastTouched(offset: nat, len: nat): nat {
    if len == 0 then SliceOf(offset) else SliceOf(offset + len - 1)
  }

  ghost predicate Touched(offset: nat, len: nat, i: nat) {
    SliceOf(offset) <= i <= LastTouched(offset, len)
  }

  /** Slice number i after a write: the buffer's bytes inside [offset, offset + |buf|), and outside it the
      old bytes if there was an old slice. Without one those bytes are the allocator's: nothing is said. */
  ghost predicate SliceWritten(f: FileState, buf: seq<byte>, offset: nat, i: nat, data: seq<byte>)
  {
    && |data| == S
    && forall r :: 0 <= r < S ==>
         var p := Start(i) + r;
         if offset <= p < offset + |buf| then data[r] == buf[p - offset]
         else i in f.slices && |f.slices[i]| == S ==> data[r] == f.slices[i][r]
  }

  /** The whole effect of a write that has put the slices from SliceOf(offset) up to, not including, `until`. */
  ghost predicate WrittenUpTo(f: FileState, buf: seq<byte>, offset: nat, until: nat, slices: map<nat, seq<byte>>)
  {
    && (forall i :: i in slices <==> i in f.slices || SliceOf(offset) <= i < until)
    && (forall i :: i in f.slices && !(SliceOf(offset) <= i < until) ==> slices[i] == f.slices[i])
    && (forall i :: SliceOf(offset) <= i < until ==> SliceWritten(f, buf, offset, i, slices[i]))
  }

  ghost predicate WriteStep(f: FileState, buf: seq<byte>, offset: nat, g: FileState)
  {
    && g.size == Max(f.size, offset + |buf|)
    && WrittenUpTo(f, buf, offset, LastTouched(offset, |buf|) + 1, g.slices)
  }

  /** Every state a write may leave: one for each content of the allocator's fresh buffers. */
  ghost function WriteOutcomes(f: FileState, buf: seq<byte>, offset: nat): iset<FileState> {
    iset g | WriteStep(f, buf, offset, g)
  }

  ghost function PartialWrites(f: FileState, buf: seq<byte>, offset: nat, until: nat): iset<map<nat, seq<byte>>> {
    iset slices | WrittenUpTo(f, buf, offset, until, slices)
  }

  /** Where a turn of the write loop stands. */
  ghost predicate AtTurn(buf: seq<byte>, offset: nat, num: nat, off: nat, count: nat) {
    && off < S && count <= |buf|
    && Start(num) + off == offset + count
    && (count == |buf| ==> count == 0)
    && (count == 0 || off == 0)
  }

  /** The slice that a turn puts: `part` laid over the old slice at `off`, or over anything if there was none. */
  ghost predicate Patched(slices: map<nat, seq<byte>>, key: nat, part: seq<byte>, off: nat, data: seq<byte>) {
    && |data| == S
    && forall r :: 0 <= r < S ==>
         if off <= r < off + |part| then data[r] == part[r - off]
         else key in slices && |slices[key]| == S ==> data[r] == slices[key][r]
  }

  lemma {:induction false} OverFresh(slices: map<nat, seq<byte>>, key: nat, part: seq<byte>, off: nat, raw: seq<byte>)
    requires key !in slices && off + |part| <= |raw| == S
    ensures Patched(slices, key, part, off, Overlay(raw, off, part))
  {
  }

  lemma {:induction false} OverOld(slices: map<nat, seq<byte>>, key: nat, part: seq<byte>, off: nat, raw: seq<byte>,
                                   value: seq<byte>)
    requires key in slices && slices[key] == value && off + |part| <= |raw| == |value| == S
    ensures var head := Overlay(Overlay(raw, 0, value[..off]), off, part);
            Patched(slices, key, part, off, Overlay(head, off + |part|, value[off + |part|..]))
  {
    assert Overlay(Overlay(Overlay(raw, 0, value[..off]), off, part), off + |part|, value[off + |part|..]) ==
           Overlay(value, off, part);
  }

  /** One turn of the write loop puts slice `num`. */
  lemma {:induction false} TurnPuts(f: FileState, buf: seq<byte>, offset: nat, num: nat, off: nat, count: nat,
                 slices: map<nat, seq<byte>>, data: seq<byte>)
    requires AtTurn(buf, offset, num, off, count) && SliceOf(offset) <= num
    requires slices in PartialWrites(f, buf, offset, num)
    requires Patched(slices, num, buf[count..count + Min(|buf| - count, S - off)], off, data)
    ensures slices[num := data] in PartialWrites(f, buf, offset, num + 1)
  {
    assert SliceWritten(f, buf, offset, num, data);
  }

  lemma {:induction false} AllPut(f: FileState, buf: seq<byte>, offset: nat, num: nat, slices: map<nat, seq<byte>>)
    requires slices in PartialWrites(f, buf, offset, num + 1) && num == LastTouched(offset, |buf|)
    ensures FileState(Max(f.size, offset + |buf|), slices) in WriteOutcomes(f, buf, offset)
  {
  }

  lemma {:induction false} FirstTurn(buf: seq<byte>, offset: nat)
    ensures AtTurn(buf, offset, SliceOf(offset), InSlice(offset), 0)
  {
    Place(offset);
  }

  lemma {:induction false} TurnFits(buf: seq<byte>, offset: nat, num: nat, off: nat, count: nat)
    requires AtTurn(buf, offset, num, off, count) && LastTouched(offset, |buf|) < U32
    ensures num < U32
  {
    PlaceOf(num, off);
    if |buf| > 0 { SliceMono(offset + count, offset + |buf| - 1); }
  }

  /** A turn that does not end the loop fills its slice, so the next one starts at a slice border; the one
      that does put the last slice of the range. */
  lemma {:induction false} TurnDone(buf: seq<byte>, offset: nat, num: nat, off: nat, count: nat)
    requires AtTurn(buf, offset, num, off, count)
    ensures var len := Min(|buf| - count, S - off);
            if count + len == |buf| then LastTouched(offset, |buf|) == num
            else AtTurn(buf, offset, num + 1, InSlice(off + len), count + len)
  {
    var len := Min(|buf| - count, S - off);
    if count + len != |buf| {
      PlaceOf(1, 0);
    } else if |buf| == 0 {
      PlaceOf(num, off);
    } else {
      PlaceOf(num, off + len - 1);
    }
  }

  // ---------- what a write means for the bytes ----------

  lemma {:induction false} WriteBytes(f: FileState, buf: seq<byte>, offset: nat, g: FileState, p: nat)
    requires Wf(f) && g in WriteOutcomes(f, buf, offset)
    ensures offset <= p < offset + |buf| ==> SliceOf(p) in g.slices && ByteAt(g, p) == buf[p - offset]
    ensures !(offset <= p < offset + |buf|) && (SliceOf(p) in f.slices || !Touched(offset, |buf|, SliceOf(p))) ==>
              ByteAt(g, p) == ByteAt(f, p)
    ensures SliceOf(p) in g.slices <==> SliceOf(p) in f.slices || Touched(offset, |buf|, SliceOf(p))
  {
    Place(p);
    if offset <= p < offset + |buf| {
      SliceMono(offset, p);
      SliceMono(p, offset + |buf| - 1);
    }
    if Touched(offset, |buf|, SliceOf(p)) {
      assert SliceWritten(f, buf, offset, SliceOf(p), g.slices[SliceOf(p)]);
    }
  }

  lemma {:induction false} WriteKeepsWf(f: FileState, buf: seq<byte>, offset: nat, g: FileState)
    requires Wf(f) && LastTouched(offset, |buf|) < U32 && g in WriteOutcomes(f, buf, offset)
    ensures Wf(g)
  {
    SliceMono(f.size, g.size);
    SliceMono(offset, g.size);
    if |buf| > 0 { SliceMono(offset + |buf| - 1, g.size); } else if offset > 0 { SliceMono(offset - 1, offset); }
  }

  /** POSIX write on the bytes a caller sees: the gap between the old end and the offset reads as zeros, and an empty
      write has no effect. */
  ghost function FlatWrite(v: seq<byte>, buf: seq<byte>, offset: nat): (w: seq<byte>)
    ensures |w| == if buf == [] then |v| else Max(|v|, offset + |buf|)
  {
    if buf == [] then v
    else seq(Max(|v|, offset + |buf|),
             p requires 0 <= p =>
               if offset <= p < offset + |buf| then buf[p - offset] else if p < |v| then v[p] else 0)
  }

  /** No byte below the new size comes from a fresh buffer, and the gap holds no leftover bytes: the first and
      the last slice put are present already unless the write covers them. */
  ghost predicate NoStrayBytes(f: FileState, buf: seq<byte>, offset: nat) {
    && (SliceOf(offset) in f.slices || InSlice(offset) == 0)
    && (LastTouched(offset, |buf|) in f.slices || f.size <= offset + |buf| || (|buf| > 0 && InSlice(offset + |buf|) == 0))
    && (forall p :: f.size <= p < offset ==> ByteAt(f, p) == 0)
  }

  /** An empty write still moves the end of the file to its offset: it has to lie inside. */
  ghost predicate PosixCase(f: FileState, buf: seq<byte>, offset: nat) {
    (buf != [] || offset <= f.size) && NoStrayBytes(f, buf, offset)
  }

  /** A byte outside the range but inside the file comes from the old file. */
  lemma {:induction false} NoFreshByte(f: FileState, buf: seq<byte>, offset: nat, p: nat)
    requires Wf(f) && NoStrayBytes(f, buf, offset)
    requires p < Max(f.size, offset + |buf|) && !(offset <= p < offset + |buf|)
    ensures SliceOf(p) in f.slices || !Touched(offset, |buf|, SliceOf(p))
  {
    var i := SliceOf(p);
    Place(p);
    Place(offset);
    if p < offset {
      if i == SliceOf(offset) && InSlice(offset) == 0 { assert false; }
      SliceMono(p, offset);
    } else if Touched(offset, |buf|, i) && i !in f.slices {
      var last := LastTouched(offset, |buf|);
      SliceMono(offset, p);
      if |buf| > 0 {
        SliceMono(offset + |buf| - 1, p);
        assert i == last;
        if InSlice(offset + |buf|) == 0 {
          Place(offset + |buf|);
          Place(offset + |buf| - 1);
          Border(offset + |buf| - 1, SliceOf(offset + |buf|));
          Border(p, SliceOf(offset + |buf|));
        }
      }
    }
  }

  lemma {:induction false} WriteExact(f: FileState, buf: seq<byte>, offset: nat, g: FileState)
    requires Wf(f) && g in WriteOutcomes(f, buf, offset) && PosixCase(f, buf, offset)
    ensures Flat(g) == FlatWrite(Flat(f), buf, offset)
  {
    var w := FlatWrite(Flat(f), buf, offset);
    forall p | 0 <= p < g.size ensures Flat(g)[p] == w[p] {
      WriteBytes(f, buf, offset, g, p);
      assert Flat(g)[p] == ByteAt(g, p);
      if !(offset <= p < offset + |buf|) {
        NoFreshByte(f, buf, offset, p);
        if p < f.size { assert Flat(f)[p] == ByteAt(f, p); }
      }
    }
  }

  /** The outcome in which every fresh buffer is full of ones. */
  ghost function OnesOutcome(f: FileState, buf: seq<byte>, offset: nat): FileState {
    var put := set i: nat | i <= LastTouched(offset, |buf|) && Touched(offset, |buf|, i);
    FileState(Max(f.size, offset + |buf|),
              map i | i in f.slices.Keys + put :: if i in put then OnesSlice(f, buf, offset, i) else f.slices[i])
  }

  ghost function OnesSlice(f: FileState, buf: seq<byte>, offset: nat, i: nat): seq<byte> {
    seq(S, r requires 0 <= r < S =>
             var p := Start(i) + r;
             if offset <= p < offset + |buf| then buf[p - offset]
             else if i in f.slices && |f.slices[i]| == S then f.slices[i][r] else 1)
  }

  lemma {:induction false} OnesIsOutcome(f: FileState, buf: seq<byte>, offset: nat)
    ensures OnesOutcome(f, buf, offset) in WriteOutcomes(f, buf, offset)
  {
    var g := OnesOutcome(f, buf, offset);
    forall i: nat | Touched(offset, |buf|, i) ensures SliceWritten(f, buf, offset, i, g.slices[i]) {
      OnesSliceWritten(f, buf, offset, i);
    }
  }

  lemma {:induction false} OnesSliceWritten(f: FileState, buf: seq<byte>, offset: nat, i: nat)
    ensures SliceWritten(f, buf, offset, i, OnesSlice(f, buf, offset, i))
  {
  }

  lemma {:induction false} OnesShow(f: FileState, buf: seq<byte>, offset: nat, p: nat)
    requires Touched(offset, |buf|, SliceOf(p)) && SliceOf(p) !in f.slices && !(offset <= p < offset + |buf|)
    ensures ByteAt(OnesOutcome(f, buf, offset), p) == 1
  {
    Place(p);
  }

  /** Whatever the fresh buffers hold, a write is a POSIX write, exactly when no stray byte can show and it is not an
      empty one past the end. Writing into a hole, or past the end after a write that left its slice half full, is
      where stray bytes show. */
  lemma {:induction false} WriteExactIff(f: FileState, buf: seq<byte>, offset: nat)
    requires Wf(f)
    ensures (forall g :: g in WriteOutcomes(f, buf, offset) ==> Flat(g) == FlatWrite(Flat(f), buf, offset))
       <==> PosixCase(f, buf, offset)
  {
    if PosixCase(f, buf, offset) {
      forall g | g in WriteOutcomes(f, buf, offset) ensures Flat(g) == FlatWrite(Flat(f), buf, offset) {
        WriteExact(f, buf, offset, g);
      }
    } else {
      OnesIsOutcome(f, buf, offset);
      OnesDiffer(f, buf, offset);
    }
  }

  lemma {:induction false} OnesDiffer(f: FileState, buf: seq<byte>, offset: nat)
    requires Wf(f) && !PosixCase(f, buf, offset)
    ensures Flat(OnesOutcome(f, buf, offset)) != FlatWrite(Flat(f), buf, offset)
  {
    if buf == [] && f.size < offset {
      OnesIsOutcome(f, [], offset);
      EmptyWriteGrows(f, offset, OnesOutcome(f, [], offset));
    } else if SliceOf(offset) !in f.slices && InSlice(offset) != 0 {
      FreshHead(f, buf, offset);
      OnesWrong(f, buf, offset, offset - 1);
    } else if exists p: nat :: f.size <= p < offset && ByteAt(f, p) != 0 {
      var p: nat :| f.size <= p < offset && ByteAt(f, p) != 0;
      LeftoverGap(f, buf, offset, p);
    } else {
      FreshTail(f, buf, offset);
      OnesWrong(f, buf, offset, offset + |buf|);
    }
  }

  /** Past the end of the file an empty write always changes what a caller sees. */
  lemma {:induction false} EmptyWriteGrows(f: FileState, offset: nat, g: FileState)
    requires f.size < offset && g in WriteOutcomes(f, [], offset)
    ensures |Flat(g)| == offset && Flat(g) != Flat(f)
  {
  }

  ghost predicate WrongAt(f: FileState, buf: seq<byte>, offset: nat, p: nat) {
    && p < Max(f.size, offset + |buf|) && p < |FlatWrite(Flat(f), buf, offset)|
    && Flat(OnesOutcome(f, buf, offset))[p] != FlatWrite(Flat(f), buf, offset)[p]
  }

  lemma {:induction false} OnesWrong(f: FileState, buf: seq<byte>, offset: nat, p: nat)
    requires p < Max(f.size, offset + |buf|) && (buf != [] || offset <= f.size)
    requires Touched(offset, |buf|, SliceOf(p)) && SliceOf(p) !in f.slices && !(offset <= p < offset + |buf|)
    ensures WrongAt(f, buf, offset, p)
  {
    OnesShow(f, buf, offset, p);
  }

  lemma {:induction false} FreshHead(f: FileState, buf: seq<byte>, offset: nat)
    requires SliceOf(offset) !in f.slices && InSlice(offset) != 0
    ensures Touched(offset, |buf|, SliceOf(offset - 1)) && SliceOf(offset - 1) !in f.slices
  {
    Place(offset);
    PlaceOf(SliceOf(offset), InSlice(offset) - 1);
    if |buf| > 0 { SliceMono(offset, offset + |buf| - 1); }
  }

  lemma {:induction false} LeftoverGap(f: FileState, buf: seq<byte>, offset: nat, p: nat)
    requires Wf(f) && f.size <= p < offset && ByteAt(f, p) != 0 && buf != []
    ensures WrongAt(f, buf, offset, p)
  {
    OnesIsOutcome(f, buf, offset);
    WriteBytes(f, buf, offset, OnesOutcome(f, buf, offset), p);
    assert SliceOf(p) in f.slices;
  }

  lemma {:induction false} FreshTail(f: FileState, buf: seq<byte>, offset: nat)
    requires LastTouched(offset, |buf|) !in f.slices && offset + |buf| < f.size
    requires |buf| == 0 || InSlice(offset + |buf|) != 0
    ensures Touched(offset, |buf|, SliceOf(offset + |buf|)) && SliceOf(offset + |buf|) !in f.slices
  {
    var p := offset + |buf|;
    if |buf| > 0 {
      Place(p);
      PlaceOf(SliceOf(p), InSlice(p) - 1);
    }
    SliceMono(offset, p);
  }
}
