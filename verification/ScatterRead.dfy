/** The scatter-gather read of src/fuse/file.rs: pieces of slices instead of one buffer. */
module ScatterRead {
  import opened Slices
  import opened SliceRead
  import opened ReadExact

  /** Underflow: `size - start_num * SLICE_SIZE` went below zero. */
  datatype Scattered = Underflow | Pieces(count: nat, pieces: seq<seq<byte>>)

  function Joined(pieces: seq<seq<byte>>): seq<byte> {
    if pieces == [] then [] else Joined(pieces[..|pieces| - 1]) + pieces[|pieces| - 1]
  }

  lemma {:induction false} JoinedMore(pieces: seq<seq<byte>>, piece: seq<byte>)
    ensures Joined(pieces + [piece]) == Joined(pieces) + piece
  {
    assert (pieces + [piece])[..|pieces|] == pieces;
  }

  /** The file from `offset` on, holes as zeros, followed by zeros up to `need` bytes. */
  ghost function ScatterBytes(f: FileState, offset: nat, need: nat): (v: seq<byte>)
    requires offset < f.size
    ensures |v| == need
  {
    View(f, offset, offset + Wanted(f.size, offset, need)) + Zeros(need - Wanted(f.size, offset, need))
  }

  /** A turn starts where the last one ended, inside the file; or the file is used up although neither exit
      test holds, which is how the underflow comes about. */
  ghost predicate AtPiece(f: FileState, offset: nat, need: nat, num: nat, off: nat, count: nat) {
    && off < S && count <= need && offset < f.size
    && if offset + count < f.size then Start(num) + off == offset + count && (count == need ==> count == 0)
       else offset + count == f.size <= Start(num) <= f.size + S && 0 < offset && count < need
  }

  lemma {:induction false} NextPiece(f: FileState, offset: nat, need: nat, num: nat, off: nat, count: nat, len: nat)
    requires AtPiece(f, offset, need, num, off, count) && Start(num) <= f.size
    requires len == Min(need - count, SatSub(Min(f.size - Start(num), S), off))
    requires count + len != f.size && count + len != need
    ensures AtPiece(f, offset, need, num + 1, InSlice(off + len), count + len)
  {
    if off + len < S { PlaceOf(0, off + len); } else { PlaceOf(1, 0); }
  }

  lemma {:induction false} PieceIs(f: FileState, offset: nat, need: nat, num: nat, off: nat, count: nat, len: nat,
                                   value: seq<byte>)
    requires Wf(f) && AtPiece(f, offset, need, num, off, count) && Start(num) <= f.size
    requires len == Min(need - count, SatSub(Min(f.size - Start(num), S), off))
    requires |value| == S && (num < U32 ==> value == if num in f.slices then f.slices[num] else Zeros(S))
    ensures off + len <= S && offset + count + len <= f.size
    ensures View(f, offset, offset + count) + value[off..off + len] == View(f, offset, offset + (count + len))
  {
    if len > 0 { Border(f.size - 1, num); }
    var next, part := View(f, offset + count, offset + count + len), value[off..off + len];
    forall k | 0 <= k < len ensures part[k] == next[k] { ByteInSlice(f, num, off + k); }
    assert part == next;
    ViewSplit(f, offset, offset + count, offset + count + len);
  }

  /** dbfs_fuse_special_read. It underflows exactly when the range starts inside the file, not at its beginning,
      and reaches past its end. */
  method SpecialRead(f: FileState, offset: nat, need: nat) returns (r: Scattered)
    requires Wf(f)
    ensures r.Underflow? <==> 0 < offset < f.size < offset + need
    ensures offset >= f.size ==> r == Pieces(0, [])
    ensures offset < f.size && r.Pieces? ==>
              r.count == Wanted(f.size, offset, need) && Joined(r.pieces) == ScatterBytes(f, offset, need)
  {
    if offset >= f.size { return Pieces(0, []); }
    r := CollectPieces(f, offset, need);
    if r.Pieces? && r.count != need {
      var padded := PadWithZeros(r.pieces, need - r.count);
      r := Pieces(r.count, padded);
    }
  }

  method CollectPieces(f: FileState, offset: nat, need: nat) returns (r: Scattered)
    requires Wf(f) && offset < f.size
    ensures r.Underflow? <==> 0 < offset && f.size < offset + need
    ensures r.Pieces? ==> r.count == Wanted(f.size, offset, need) && Joined(r.pieces) == View(f, offset, offset + r.count)
  {
    var num, off := Divide(offset);
    var count: nat, pieces: seq<seq<byte>> := 0, [];
    while true
      invariant AtPiece(f, offset, need, num, off, count)
      invariant Joined(pieces) == View(f, offset, offset + count)
      decreases f.size + S + 1 - Start(num)
    {
      var current := Times(num);
      if f.size < current { return Underflow; }
      var piece, len, next := TakePiece(f, offset, need, num, off, count, current);
      JoinedMore(pieces, piece);
      pieces := pieces + [piece];
      if count + len == f.size || count + len == need { return Pieces(count + len, pieces); }
      NextPiece(f, offset, need, num, off, count, len);
      num, off, count := num + 1, next, count + len;
    }
  }

  /** One turn: the piece of slice `num` that is pushed, and where in the next slice to go on. */
  method TakePiece(f: FileState, ghost offset: nat, need: nat, num: nat, off: nat, count: nat, current: nat)
    returns (piece: seq<byte>, len: nat, next: nat)
    requires Wf(f) && AtPiece(f, offset, need, num, off, count) && current == Start(num) <= f.size
    ensures len == Min(need - count, SatSub(Min(f.size - Start(num), S), off)) && next == InSlice(off + len)
    ensures View(f, offset, offset + count) + piece == View(f, offset, offset + (count + len))
  {
    Border(f.size, num);
    var key := Key(num);
    var value := if key in f.slices then f.slices[key] else Zeros(S);
    var realSize := Min(f.size - current, S);
    len := Min(need - count, SatSub(realSize, off));
    PieceIs(f, offset, need, num, off, count, len, value);
    piece := value[off..off + len];
    var _, rem := Divide(off + len);
    next := rem;
  }

  /** Whole zero slices and a rest. */
  method PadWithZeros(pieces: seq<seq<byte>>, rest: nat) returns (padded: seq<seq<byte>>)
    ensures Joined(padded) == Joined(pieces) + Zeros(rest)
  {
    padded := pieces;
    var whole, len := Divide(rest);
    var i := 0;
    while i < whole
      invariant i <= whole
      invariant Joined(padded) == Joined(pieces) + Zeros(Start(i))
    {
      JoinedMore(padded, Zeros(S));
      padded := padded + [Zeros(S)];
      i := i + 1;
    }
    JoinedMore(padded, Zeros(len));
    padded := padded + [Zeros(len)];
  }

  /** Wherever dbfs_common_read is exact, the bytes counted by the scatter read are the ones it returns. */
  lemma {:induction false} ScatterAgrees(f: FileState, offset: nat, need: nat)
    requires Wf(f) && offset < f.size && 0 < need && ReadableShape(f, offset, need)
    ensures ScatterBytes(f, offset, need)[..Wanted(f.size, offset, need)] == ReadOutput(f, offset, need)
  {
    ReadableReads(f, offset, need);
  }
}
