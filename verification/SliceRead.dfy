/** What the read loop of src/file.rs collects. */
module SliceRead {
  import opened Slices

  /** Where in the file the bytes of slice i come from: `value_offset` past its start. The offset inside the
      slice is subtracted slice by slice, so it only ever counts in slice 0. */
  ghost function Lo(off: nat, i: nat): nat { Max(off, Start(i)) }

  /** What slice i contributes when the buffer has room. */
  ghost function Piece(f: FileState, off: nat, i: nat): seq<byte> {
    View(f, Lo(off, i), Min(f.size, Start(i + 1)))
  }

  /** What one turn contributes when the cursor meets `index`: a gap before it is filled first. */
  ghost function Turn(f: FileState, off: nat, start: nat, index: nat): seq<byte> {
    View(f, Lo(off, Min(start, index)), Min(f.size, Start(index + 1)))
  }

  /** start_num after that turn. Past a gap it is set beyond `index` and then incremented once more. */
  function NextStart(start: nat, index: nat): nat {
    if index == start then start + 1 else index + 2
  }

  /** All that the loop collects, `keys` being the stored slices that the cursor meets. */
  ghost function Output(f: FileState, off: nat, keys: seq<nat>, start: nat): seq<byte> {
    if keys == [] then []
    else Turn(f, off, start, keys[0]) + Output(f, off, keys[1..], NextStart(start, keys[0]))
  }

  /** end_num, before its cast to u32 */
  ghost function EndNum(size: nat, offset: nat, len: nat): nat {
    Min(SliceOf(offset + len) + 1, SliceOf(size) + 1)
  }

  ghost function ScannedKeys(f: FileState, offset: nat, len: nat): seq<nat> {
    Scan(f.slices, Key(SliceOf(offset)), Key(EndNum(f.size, offset, len)))
  }

  ghost function ReadOutput(f: FileState, offset: nat, len: nat): (out: seq<byte>)
    ensures |out| <= len
  {
    if offset >= f.size then []
    else Take(Output(f, InSlice(offset), ScannedKeys(f, offset, len), SliceOf(offset)), len)
  }

  // ---------- the cursor ----------

  /** keys are stored slices in ascending order, from `first` on, and between them no slice is stored. */
  ghost predicate Cursor(f: FileState, first: nat, keys: seq<nat>)
    decreases |keys|
  {
    keys == [] ||
    (&& first <= keys[0] && keys[0] in f.slices && Start(keys[0]) <= f.size
     && (forall i :: first <= i < keys[0] ==> i !in f.slices)
     && Cursor(f, keys[0] + 1, keys[1..]))
  }

  lemma {:induction false} ScanIsCursor(f: FileState, lo: nat, hi: nat)
    requires Wf(f)
    ensures Cursor(f, lo, Scan(f.slices, lo, hi))
    decreases hi - lo
  {
    if lo < hi {
      var keys, rest := Scan(f.slices, lo, hi), Scan(f.slices, lo + 1, hi);
      ScanIsCursor(f, lo + 1, hi);
      Border(f.size, lo);
      if lo in f.slices { assert keys == [lo] + rest && keys[1..] == rest; } else { assert keys == rest; }
    }
  }

  lemma {:induction false} KeysInFile(f: FileState, offset: nat, len: nat)
    requires Wf(f) && offset < f.size
    ensures Key(SliceOf(offset)) == SliceOf(offset)
    ensures Cursor(f, SliceOf(offset), ScannedKeys(f, offset, len))
  {
    SliceMono(offset, f.size - 1);
    ScanIsCursor(f, SliceOf(offset), Key(EndNum(f.size, offset, len)));
  }

  // ---------- the loop ----------

  /** The buffer after the loop has collected `done`: its bytes as far as they fit, then the caller's own. */
  ghost predicate Filled(done: seq<byte>, buf: seq<byte>, n: nat, before: seq<byte>) {
    && |buf| == |before| && n <= |buf|
    && buf[..n] == Take(done, |buf|)
    && buf[n..] == before[n..]
  }

  lemma {:induction false} TakeAppend<T>(a: seq<T>, b: seq<T>, n: nat)
    ensures Take(a + b, n) == Take(a, n) + Take(b, n - |Take(a, n)|)
  {
  }

  lemma {:induction false} FilledMore(done: seq<byte>, piece: seq<byte>, buf: seq<byte>, n: nat, before: seq<byte>,
                                      buf': seq<byte>, n': nat)
    requires Filled(done, buf, n, before)
    requires n' == n + Min(|buf| - n, |piece|)
    requires buf' == buf[..n] + piece[..n' - n] + buf[n'..]
    ensures Filled(done + piece, buf', n', before)
  {
    TakeAppend(done, piece, |buf|);
  }

  /** Past a full buffer nothing changes, so the loop may stop there. */
  lemma {:induction false} FilledFull(done: seq<byte>, rest: seq<byte>, buf: seq<byte>, before: seq<byte>)
    requires Filled(done, buf, |buf|, before)
    ensures Filled(done + rest, buf, |buf|, before)
  {
    TakeAppend(done, rest, |buf|);
  }

  /** A stored slice contributes its own bytes, an absent one zeros. */
  lemma {:induction false} PieceBytes(f: FileState, off: nat, i: nat, from: nat, len: nat)
    requires Wf(f) && off < S && Start(i) <= f.size
    requires from == SatSub(off, Start(i)) && len == SatSub(Min(f.size - Start(i), S), from)
    ensures from + len <= S
    ensures Piece(f, off, i) == if i in f.slices then f.slices[i][from..from + len] else Zeros(len)
  {
    forall k | 0 <= k < len
      ensures Piece(f, off, i)[k] == if i in f.slices then f.slices[i][from + k] else 0
    {
      ByteInSlice(f, i, from + k);
    }
  }

  /** Filling a gap slice by slice gives consecutive bytes. */
  lemma {:induction false} GapGrows(f: FileState, off: nat, start: nat, i: nat)
    requires off < S && start <= i && Start(i + 1) <= f.size
    ensures View(f, Lo(off, start), Start(i)) + Piece(f, off, i) == View(f, Lo(off, start), Start(i + 1))
  {
    if start < i { StartMono(start + 1, i); }
  }

  lemma {:induction false} GapThenSlice(f: FileState, off: nat, start: nat, index: nat)
    requires off < S && Start(index) <= f.size
    ensures start < index ==> View(f, Lo(off, start), Start(index)) + Piece(f, off, index) == Turn(f, off, start, index)
    ensures start >= index ==> Piece(f, off, index) == Turn(f, off, start, index)
  {
    if start < index { StartMono(start + 1, index); }
  }

  lemma {:induction false} OutputTurn(f: FileState, off: nat, keys: seq<nat>, start: nat, done: seq<byte>)
    requires keys != []
    ensures done + Output(f, off, keys, start) ==
            (done + Turn(f, off, start, keys[0])) + Output(f, off, keys[1..], NextStart(start, keys[0]))
  {
    Assoc(done, Turn(f, off, start, keys[0]), Output(f, off, keys[1..], NextStart(start, keys[0])));
  }
}
