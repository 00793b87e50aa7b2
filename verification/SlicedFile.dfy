/** One inode's file data: the read and write loops of src/file.rs, truncate and fallocate of src/inode.rs. */
module SlicedFile {
  import opened Slices
  import opened SliceWrite
  import opened SliceRead
  import opened SliceTruncate
  import opened Permission
  import opened Errors

  /** The super_blk bucket's disk_size, shared by all files. */
  class SuperBlock {
    var diskSize: nat

    constructor (size: nat)
      ensures diskSize == size
    {
      diskSize := size;
    }
  }

  class DbfsFile {
    var size: nat
    var slices: map<nat, seq<byte>>
    var mode: Mode
    const uid: nat
    const gid: nat

    function State(): FileState
      reads this
    {
      FileState(size, slices)
    }

    constructor (mode: Mode, uid: nat, gid: nat)
      ensures State() == FileState(0, map[])
      ensures this.mode == mode && this.uid == uid && this.gid == gid
    {
      size, slices := 0, map[];
      this.mode, this.uid, this.gid := mode, uid, gid;
    }

    /** Fills buf from the stored slices that a cursor over [start_num, end_num) meets. */
    method Read(buf: array<byte>, offset: nat) returns (n: nat)
      requires Wf(State())
      modifies buf
      ensures n == |ReadOutput(State(), offset, buf.Length)|
      ensures buf[..n] == ReadOutput(State(), offset, buf.Length)
      ensures buf[n..] == old(buf[n..])
    {
      if offset >= size { return 0; }
      var startNum, off := Divide(offset);
      var last, _ := Divide(offset + buf.Length);
      var lastOfFile, _ := Divide(size);
      var endNum := Min(last + 1, lastOfFile + 1);
      KeysInFile(State(), offset, buf.Length);
      assert Scan(slices, Key(startNum), Key(endNum)) == ScannedKeys(State(), offset, buf.Length);
      n := ReadSlices(State(), buf, startNum, off, Scan(slices, Key(startNum), Key(endNum)));
    }

    /** Writes buf at offset. The slices are put inside a transaction and show up together with the new size
        when it commits. */
    method Write(buf: seq<byte>, offset: nat) returns (count: nat)
      requires Wf(State())
      requires LastTouched(offset, |buf|) < U32
      modifies `size, `slices
      ensures count == |buf|
      ensures State() in WriteOutcomes(old(State()), buf, offset)
    {
      var bucket;
      bucket, count := PutSlices(size, slices, buf, offset);
      size, slices := Max(size, offset + count), bucket;
    }

    /** Sets the size to n. Crossing a slice border upwards only takes disk space; otherwise the slices behind
        the new end are deleted and the rest of the last one is zeroed. */
    method Truncate(sb: SuperBlock, uid: nat, gid: nat, n: nat) returns (r: Outcome<()>)
      requires WholeSlices(State())
      modifies `size, `slices, `mode, sb
      ensures r == Err(AccessError) <==> !MayWrite(this.uid, this.gid, old(mode), uid, gid)
      ensures r != Err(AccessError) ==>
                && (r == Err(NoSpace) <==> SliceOf(old(size)) < SliceOf(n) && old(sb.diskSize) < n - old(size))
                && Disk(State(), sb.diskSize) == TruncateDisk(old(Disk(State(), sb.diskSize)), n)
      ensures r.Ok? ==>
                && mode & 0x0800 == 0
                && mode & 0x0400 == (if old(mode) & 0x0008 == 0 then old(mode) & 0x0400 else 0)
                && mode & 0xF3FF == old(mode) & 0xF3FF
      ensures r.Err? ==> unchanged(this) && unchanged(sb)
    {
      var allowed := WriteGranted(this.uid, this.gid, mode, uid, gid);
      if !allowed { return Err(AccessError); }
      var ok, bucket, free := ResizeSlices(State(), sb.diskSize, n);
      if !ok { return Err(NoSpace); }
      size, slices, sb.diskSize := n, bucket, free;
      mode := ClearSetIds(mode);
      r := Ok(());
    }

    /** Reserves space up to offset + len and, unless FALLOC_FL_KEEP_SIZE is given, grows the file to there. */
    method Fallocate(sb: SuperBlock, uid: nat, gid: nat, offset: nat, len: nat, keepSize: bool) returns (r: Outcome<()>)
      modifies `size, sb
      ensures r == Err(AccessError) <==> !MayWrite(this.uid, this.gid, mode, uid, gid)
      ensures r != Err(AccessError) ==>
                && (r == Err(NoSpace) <==>
                      SliceOf(old(size)) < SliceOf(offset + len) && old(sb.diskSize) < offset + len - old(size))
                && Disk(State(), sb.diskSize) == FallocateDisk(old(Disk(State(), sb.diskSize)), offset + len, keepSize)
      ensures r.Err? ==> unchanged(this) && unchanged(sb)
    {
      var allowed := WriteGranted(this.uid, this.gid, mode, uid, gid);
      if !allowed { return Err(AccessError); }
      var n := offset + len;
      var start, _ := Divide(n);
      var currentBlock, _ := Divide(size);
      if currentBlock < start {
        Border(n, SliceOf(size) + 1);
        var gap := SatSub(n, size);
        if sb.diskSize < gap { return Err(NoSpace); }
        sb.diskSize := sb.diskSize - gap;
      }
      if !keepSize {
        if n > size { size := n; }
      }
      r := Ok(());
    }
  }

  /** What truncate does to the slices and to the super block's disk_size; without enough space, nothing. */
  method ResizeSlices(f: FileState, diskSize: nat, n: nat) returns (ok: bool, bucket: map<nat, seq<byte>>, free: nat)
    requires WholeSlices(f)
    ensures !ok <==> SliceOf(f.size) < SliceOf(n) && diskSize < n - f.size
    ensures !ok ==> Disk(f, diskSize) == TruncateDisk(Disk(f, diskSize), n)
    ensures ok ==> Disk(FileState(n, bucket), free) == TruncateDisk(Disk(f, diskSize), n)
  {
    var start, offset := Divide(n);
    var currentBlock, _ := Divide(f.size);
    if currentBlock < start {
      Border(n, SliceOf(f.size) + 1);
      var gap := SatSub(n, f.size);
      if diskSize < gap { return false, f.slices, diskSize; }
      return true, f.slices, diskSize - gap;
    }
    bucket := FreeSlices(f, n, start, offset, currentBlock);
    var additionalSize := FreedSpace(start, currentBlock);
    ok, free := true, diskSize + additionalSize;
  }

  method WriteGranted(ownerUid: nat, ownerGid: nat, mode: Mode, uid: nat, gid: nat) returns (ok: bool)
    ensures ok == MayWrite(ownerUid, ownerGid, mode, uid, gid)
  {
    ok := CheckoutAccess(ownerUid, ownerGid, mode, uid, gid, ACCESS_W_OK);
    WriteAccess(ownerUid, ownerGid, mode, uid, gid);
  }

  method ClearSetIds(mode: Mode) returns (m: Mode)
    ensures m & 0x0800 == 0
    ensures m & 0x0400 == if mode & 0x0008 == 0 then mode & 0x0400 else 0
    ensures m & 0xF3FF == mode & 0xF3FF
  {
    m := ClearSuidSgid(mode);
    ClearedBits(mode);
  }

  /** The read loop over the stored slices that the cursor meets. */
  method ReadSlices(f: FileState, buf: array<byte>, first: nat, off: nat, keys: seq<nat>) returns (n: nat)
    requires Wf(f) && off < S
    requires Cursor(f, first, keys)
    modifies buf
    ensures n <= buf.Length
    ensures buf[..n] == Take(Output(f, off, keys, first), buf.Length)
    ensures buf[n..] == old(buf[n..])
  {
    ghost var before, all := buf[..], Output(f, off, keys, first);
    var startNum, iter := first, keys;
    ghost var done: seq<byte>, next := [], first;
    n := 0;
    while iter != []
      invariant all == done + Output(f, off, iter, startNum)
      invariant next <= startNum && Cursor(f, next, iter)
      invariant Filled(done, buf[..], n, before)
      decreases |iter|
    {
      var index := iter[0];
      OutputTurn(f, off, iter, startNum, done);
      ghost var taken := Turn(f, off, startNum, index);
      n, startNum := TakeSlice(f, buf, n, off, startNum, index, done, before);
      done, next, iter := done + taken, index + 1, iter[1..];
      if n == buf.Length {
        FilledFull(done, Output(f, off, iter, startNum), buf[..], before);
        return;
      }
    }
    assert all == done + [];
  }

  /** One turn of the read loop. */
  method TakeSlice(f: FileState, buf: array<byte>, at: nat, off: nat, start: nat, index: nat,
                   ghost done: seq<byte>, ghost before: seq<byte>) returns (n: nat, startNum: nat)
    requires Wf(f) && off < S && Start(index) <= f.size && index in f.slices
    requires forall i :: start <= i < index ==> i !in f.slices
    requires Filled(done, buf[..], at, before)
    modifies buf
    ensures Filled(done + Turn(f, off, start, index), buf[..], n, before)
    ensures startNum == NextStart(start, index)
  {
    n, startNum := at, start;
    GapThenSlice(f, off, start, index);
    if index != startNum {
      n := FillGap(f, buf, n, off, startNum, index, done, before);
      startNum := index + 1;
    }
    ghost var gap := if start < index then View(f, Lo(off, start), Start(index)) else [];
    Assoc(done, gap, Piece(f, off, index));
    assert done + [] == done;
    n := PutPiece(f, buf, n, off, index, f.slices[index], done + gap, before);
    startNum := startNum + 1;
  }

  /** Zeros for the absent slices from startNum up to the stored slice `index`. */
  method FillGap(f: FileState, buf: array<byte>, at: nat, off: nat, startNum: nat, index: nat,
                 ghost done: seq<byte>, ghost before: seq<byte>) returns (n: nat)
    requires Wf(f) && off < S && Start(index) <= f.size
    requires forall i :: startNum <= i < index ==> i !in f.slices
    requires Filled(done, buf[..], at, before)
    modifies buf
    ensures Filled(done + if startNum < index then View(f, Lo(off, startNum), Start(index)) else [], buf[..], n, before)
  {
    n := at;
    var i := startNum;
    assert done + View(f, Lo(off, startNum), Start(i)) == done && done + [] == done;
    while i < index
      invariant startNum <= i && (i <= index || i == startNum)
      invariant Filled(done + View(f, Lo(off, startNum), Start(i)), buf[..], n, before)
    {
      StartMono(i, index);
      GapGrows(f, off, startNum, i);
      Assoc(done, View(f, Lo(off, startNum), Start(i)), Piece(f, off, i));
      n := PutPiece(f, buf, n, off, i, Zeros(S), done + View(f, Lo(off, startNum), Start(i)), before);
      i := i + 1;
    }
  }

  /** Copies what slice i contributes to the buffer. */
  method PutPiece(f: FileState, buf: array<byte>, at: nat, off: nat, i: nat, value: seq<byte>,
                  ghost done: seq<byte>, ghost before: seq<byte>) returns (n: nat)
    requires Wf(f) && off < S && Start(i) <= f.size
    requires value == if i in f.slices then f.slices[i] else Zeros(S)
    requires Filled(done, buf[..], at, before)
    modifies buf
    ensures Filled(done + Piece(f, off, i), buf[..], n, before)
  {
    var currentSize := Times(i);
    var valueOffset := SatSub(off, currentSize);
    var realSize := Min(f.size - currentSize, S);
    var len := Min(buf.Length - at, SatSub(realSize, valueOffset));
    ghost var was, piece := buf[..], Piece(f, off, i);
    PieceBytes(f, off, i, valueOffset, SatSub(realSize, valueOffset));
    CopyData(value[valueOffset..valueOffset + len], buf, at);
    n := at + len;
    assert len == Min(|was| - at, |piece|) && value[valueOffset..valueOffset + len] == piece[..len];
    FilledMore(done, piece, was, at, before, buf[..], n);
  }

  /** The write loop: one put for each slice that the range [offset, offset + |buf|) meets. */
  method PutSlices(size: nat, slices: map<nat, seq<byte>>, buf: seq<byte>, offset: nat)
    returns (bucket: map<nat, seq<byte>>, count: nat)
    requires Wf(FileState(size, slices))
    requires LastTouched(offset, |buf|) < U32
    ensures count == |buf|
    ensures FileState(Max(size, offset + |buf|), bucket) in WriteOutcomes(FileState(size, slices), buf, offset)
  {
    ghost var f := FileState(size, slices);
    bucket := slices;
    var num, off := Divide(offset);
    ghost var first := num;
    count := 0;
    FirstTurn(buf, offset);
    while true
      invariant AtTurn(buf, offset, num, off, count) && first <= num
      invariant bucket in PartialWrites(f, buf, offset, num)
      decreases |buf| - count
    {
      var len;
      bucket, len := PutSlice(f, bucket, buf, offset, num, off, count);
      TurnDone(buf, offset, num, off, count);
      if count + len == |buf| { AllPut(f, buf, offset, num, bucket); }
      count := count + len;
      var _, next := Divide(off + len);
      num, off := num + 1, next;
      if count == |buf| { return; }
    }
  }

  /** One turn of the write loop. */
  method PutSlice(ghost f: FileState, slices: map<nat, seq<byte>>, buf: seq<byte>, offset: nat, num: nat, off: nat,
                  count: nat)
    returns (bucket: map<nat, seq<byte>>, len: nat)
    requires Wf(f) && LastTouched(offset, |buf|) < U32
    requires AtTurn(buf, offset, num, off, count) && SliceOf(offset) <= num
    requires slices in PartialWrites(f, buf, offset, num)
    ensures len == Min(|buf| - count, S - off)
    ensures bucket in PartialWrites(f, buf, offset, num + 1)
  {
    TurnFits(buf, offset, num, off, count);
    var key := Key(num);
    len := Min(|buf| - count, S - off);
    var data := SliceToPut(slices, key, buf[count..count + len], off);
    TurnPuts(f, buf, offset, num, off, count, slices, data);
    bucket := slices[key := data];
  }

  /** The slice that a write puts under `key`: a full slice comes straight from the caller's buffer, any
      other is assembled in a buffer fresh from the allocator, whose bytes are arbitrary. */
  method SliceToPut(slices: map<nat, seq<byte>>, key: nat, part: seq<byte>, off: nat) returns (data: seq<byte>)
    requires off + |part| <= S
    requires key in slices ==> |slices[key]| == S
    ensures Patched(slices, key, part, off, data)
  {
    if |part| == S && off == 0 {
      data := part;
    } else {
      var ptr := new byte[S];
      if key !in slices {
        ghost var raw := ptr[..];
        CopyData(part, ptr, off);
        OverFresh(slices, key, part, off, raw);
      } else {
        var value := slices[key];
        ghost var raw := ptr[..];
        CopyData(value[..off], ptr, 0);
        CopyData(part, ptr, off);
        CopyData(value[off + |part|..], ptr, off + |part|);
        OverOld(slices, key, part, off, raw, value);
      }
      data := ptr[..];
    }
  }

  /** (current_block - start) * SLICE_SIZE */
  method FreedSpace(start: nat, currentBlock: nat) returns (additionalSize: nat)
    requires start <= currentBlock
    ensures additionalSize == Start(currentBlock) - Start(start)
  {
    additionalSize := (currentBlock - start) * S;
    StartIs(start);
    StartIs(currentBlock);
    assert additionalSize == currentBlock * S - start * S;
  }

  /** Deletes the slices behind slice `start` and zeroes that one from `offset` on. */
  method FreeSlices(f: FileState, n: nat, start: nat, offset: nat, currentBlock: nat)
    returns (bucket: map<nat, seq<byte>>)
    requires WholeSlices(f) && start == SliceOf(n) <= currentBlock == SliceOf(f.size) && offset == InSlice(n)
    ensures FileState(n, bucket) == Truncated(f, n)
  {
    bucket := f.slices;
    var i := start + 1;
    while i <= currentBlock
      invariant start < i <= currentBlock + 1
      invariant bucket == map j | j in f.slices && !Freed(start, i - 1, j) :: f.slices[j]
    {
      var key := Key(i);
      FreeOne(f.slices, bucket, start, i);
      if key in bucket { bucket := bucket - {key}; }
      i := i + 1;
    }
    var startKey := Key(start);
    if startKey in bucket {
      var value := ZeroFrom(bucket[startKey], offset);
      bucket := bucket[startKey := value];
    }
    assert bucket == Truncated(f, n).slices;
  }

  method ZeroFrom(slice: seq<byte>, offset: nat) returns (value: seq<byte>)
    requires |slice| == S && offset < S
    ensures value == ZeroTail(slice, offset)
  {
    value := slice;
    var i := offset;
    while i < S
      invariant offset <= i <= S && |value| == S
      invariant forall k :: 0 <= k < S ==> value[k] == if offset <= k < i then 0 else slice[k]
    {
      value := value[i := 0];
      i := i + 1;
    }
  }
}
