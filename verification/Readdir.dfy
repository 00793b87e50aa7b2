/** Directory listing: the batches of dbfs_common_readdir and the loop of dbfs_readdir that joins them. */
module Readdir {
  import opened Slices
  import opened Errors
  import opened Decimal
  import opened Permission
  import opened Keys

  /** A pair of a directory's bucket. `kind` is the kind of the inode that the value names, None if there is no such
      inode or its mode has no type. */
  datatype Kv = Kv(key: Key, value: string, kind: Option<FileKind>)

  datatype DirEntry = DirEntry(name: Bytes, ino: nat, offset: nat, kind: FileKind)

  datatype ReadDirInfo = ReadDirInfo(offset: nat, name: Bytes)

  /** Panicked: a resume assertion failed, or an entry's number or inode could not be read. */
  datatype Batch = Panicked | Batch(entries: seq<DirEntry>)

  ghost function KeysOf(kvs: seq<Kv>): seq<Key> {
    if kvs == [] then [] else [kvs[0].key] + KeysOf(kvs[1..])
  }

  predicate AllValid(kvs: seq<Kv>) {
    kvs == [] || (Valid(kvs[0].key) && AllValid(kvs[1..]))
  }

  predicate Readable(kv: Kv) { kv.key.Entry? ==> Parse(kv.value).Some? && kv.kind.Some? }

  predicate AllReadable(kvs: seq<Kv>) {
    kvs == [] || (Readable(kvs[0]) && AllReadable(kvs[1..]))
  }

  /** A directory's bucket as a cursor meets it, every entry naming an inode. */
  ghost predicate Listing(kvs: seq<Kv>) {
    Ascending(KeysOf(kvs)) && AllValid(kvs) && AllReadable(kvs)
  }

  /** The directory entries among the pairs, numbered from `offset` on. */
  function EntriesFrom(kvs: seq<Kv>, offset: nat): seq<DirEntry>
    requires AllReadable(kvs)
  {
    if kvs == [] then []
    else if kvs[0].key.Entry? then
      [DirEntry(kvs[0].key.name, Parse(kvs[0].value).value, offset, kvs[0].kind.value)] + EntriesFrom(kvs[1..], offset + 1)
    else EntriesFrom(kvs[1..], offset)
  }

  /** What follows `key` for a cursor that has found it: seeking stops at the first pair that is not below it. */
  function SeekPast(kvs: seq<Kv>, key: Key): Option<seq<Kv>>
    requires AllValid(kvs) && Valid(key)
  {
    if kvs == [] then None
    else if kvs[0].key == key then Some(kvs[1..])
    else if Less(KeyBytes(kvs[0].key), KeyBytes(key)) then SeekPast(kvs[1..], key)
    else None
  }

  method Seek(kvs: seq<Kv>, key: Key) returns (rest: Option<seq<Kv>>)
    requires AllValid(kvs) && Valid(key)
    ensures rest == SeekPast(kvs, key)
  {
    NotBelowItself(KeyBytes(key));
    var cursor := kvs;
    while cursor != [] && Less(KeyBytes(cursor[0].key), KeyBytes(key))
      invariant AllValid(cursor) && SeekPast(cursor, key) == SeekPast(kvs, key)
      decreases |cursor|
    {
      cursor := cursor[1..];
    }
    rest := if cursor == [] || cursor[0].key != key then None else Some(cursor[1..]);
  }

  lemma {:induction false} NotBelowItself(a: Bytes)
    ensures !Less(a, a)
  {
    if a != [] { NotBelowItself(a[1..]); }
  }

  /** What one call returns: without a saved place the whole directory, for the batch size is read after the
      vector was cleared and never stops the loop; with one, all that follows it. */
  function BatchOf(kvs: seq<Kv>, saved: Option<ReadDirInfo>, offset: nat): Batch
    requires AllValid(kvs)
  {
    match saved
    case None => BatchFrom(kvs, offset)
    case Some(info) =>
      var rest := SeekPast(kvs, Entry(info.name));
      if offset != info.offset + 1 || rest.None? then Panicked else BatchFrom(rest.value, offset)
  }

  function BatchFrom(kvs: seq<Kv>, offset: nat): Batch {
    if AllReadable(kvs) then Batch(EntriesFrom(kvs, offset)) else Panicked
  }

  method CommonReaddir(kvs: seq<Kv>, saved: Option<ReadDirInfo>, offset: nat) returns (r: Batch)
    requires AllValid(kvs)
    ensures r == BatchOf(kvs, saved, offset)
  {
    var cursor := kvs;
    if saved.Some? {
      if offset != saved.value.offset + 1 { return Panicked; }
      var rest := Seek(kvs, Entry(saved.value.name));
      if rest.None? { return Panicked; }
      cursor := rest.value;
    }
    r := CollectEntries(cursor, offset);
  }

  /** The loop over the cursor. */
  method CollectEntries(kvs: seq<Kv>, offset: nat) returns (r: Batch)
    ensures r == BatchFrom(kvs, offset)
  {
    var cursor, buf: seq<DirEntry>, next := kvs, [], offset;
    while cursor != []
      invariant AllReadable(kvs) <==> AllReadable(cursor)
      invariant AllReadable(kvs) ==> EntriesFrom(kvs, offset) == buf + EntriesFrom(cursor, next)
      decreases |cursor|
    {
      var kv := cursor[0];
      if kv.key.Entry? {
        if Parse(kv.value).None? || kv.kind.None? { return Panicked; }
        var entry := DirEntry(kv.key.name, Parse(kv.value).value, next, kv.kind.value);
        if AllReadable(cursor) { Assoc(buf, [entry], EntriesFrom(cursor[1..], next + 1)); }
        buf, next := buf + [entry], next + 1;
      }
      cursor := cursor[1..];
    }
    r := Batch(buf);
  }

  // ---------- resuming ----------

  /** Where in the bucket the k-th entry is. */
  lemma {:induction false} PlaceOfEntry(kvs: seq<Kv>, offset: nat, k: nat, all: seq<DirEntry>) returns (i: nat)
    requires AllReadable(kvs) && all == EntriesFrom(kvs, offset) && k < |all|
    ensures i < |kvs| && kvs[i].key == Entry(all[k].name) && all[k].offset == offset + k
    ensures AllReadable(kvs[i + 1..]) && EntriesFrom(kvs[i + 1..], offset + k + 1) == all[k + 1..]
  {
    var rest := kvs[1..];
    if kvs[0].key.Entry? {
      var more := EntriesFrom(rest, offset + 1);
      assert all == [all[0]] + more;
      if k == 0 {
        i := 0;
        assert all[1..] == more;
      } else {
        var j := PlaceOfEntry(rest, offset + 1, k - 1, more);
        i := j + 1;
        assert kvs[i + 1..] == rest[j + 1..] && all[k + 1..] == more[k..];
      }
    } else {
      var j := PlaceOfEntry(rest, offset, k, all);
      i := j + 1;
      assert kvs[i + 1..] == rest[j + 1..];
    }
  }

  lemma {:induction false} KeyIn(kvs: seq<Kv>, i: nat)
    requires i < |kvs|
    ensures kvs[i].key in KeysOf(kvs)
  {
    if i > 0 { KeyIn(kvs[1..], i - 1); }
  }

  lemma {:induction false} SeekIndex(kvs: seq<Kv>, i: nat, key: Key)
    requires Listing(kvs) && i < |kvs| && kvs[i].key == key
    ensures Valid(key) && SeekPast(kvs, key) == Some(kvs[i + 1..])
  {
    var rest := kvs[1..];
    assert KeysOf(kvs)[1..] == KeysOf(rest);
    if i > 0 {
      KeyIn(rest, i - 1);
      SeekIndex(rest, i - 1, key);
      assert rest[i..] == kvs[i + 1..];
      NotBelowItself(KeyBytes(key));
    }
  }

  /** Marks the positions that a proof looks at. */
  predicate Seen(i: nat) { true }

  /** What the order of the keys is for: a cursor finds each key where it is. */
  ghost predicate Seekable(kvs: seq<Kv>) {
    && AllValid(kvs) && AllReadable(kvs)
    && forall i: nat {:trigger Seen(i)} ::
         Seen(i) && i < |kvs| && Valid(kvs[i].key) ==> SeekPast(kvs, kvs[i].key) == Some(kvs[i + 1..])
  }

  lemma {:induction false} ListingSeekable(kvs: seq<Kv>)
    requires Listing(kvs)
    ensures Seekable(kvs)
  {
    forall i: nat | i < |kvs| && Valid(kvs[i].key) ensures SeekPast(kvs, kvs[i].key) == Some(kvs[i + 1..]) {
      SeekIndex(kvs, i, kvs[i].key);
    }
  }

  lemma {:induction false} BatchAfter(kvs: seq<Kv>, info: ReadDirInfo, rest: seq<Kv>, following: seq<DirEntry>)
    requires AllValid(kvs) && SeekPast(kvs, Entry(info.name)) == Some(rest) && AllReadable(rest)
    requires EntriesFrom(rest, info.offset + 1) == following
    ensures BatchOf(kvs, Some(info), info.offset + 1) == Batch(following)
  {
  }

  lemma {:induction false} ResumesAt(kvs: seq<Kv>, all: seq<DirEntry>, k: nat)
    requires Seekable(kvs) && all == EntriesFrom(kvs, 0) && k < |all|
    ensures BatchOf(kvs, Some(ReadDirInfo(k, all[k].name)), k + 1) == Batch(all[k + 1..])
  {
    var info := ReadDirInfo(k, all[k].name);
    var i := PlaceOfEntry(kvs, 0, k, all);
    var rest := kvs[i + 1..];
    assert Seen(i);
    BatchAfter(kvs, info, rest, all[k + 1..]);
  }

  /** From the place of any entry of an unchanged directory, a call returns exactly the entries that follow it. */
  lemma {:induction false} ResumeAt(kvs: seq<Kv>, k: nat)
    requires Listing(kvs) && k < |EntriesFrom(kvs, 0)|
    ensures var all := EntriesFrom(kvs, 0);
            BatchOf(kvs, Some(ReadDirInfo(k, all[k].name)), k + 1) == Batch(all[k + 1..])
  {
    ListingSeekable(kvs);
    ResumesAt(kvs, EntriesFrom(kvs, 0), k);
  }

  // ---------- what a listing holds ----------

  ghost function ListedKeys(entries: seq<DirEntry>): seq<Key> {
    if entries == [] then [] else [Entry(entries[0].name)] + ListedKeys(entries[1..])
  }

  ghost predicate Numbered(entries: seq<DirEntry>, offset: nat) {
    entries == [] || (entries[0].offset == offset && Numbered(entries[1..], offset + 1))
  }

  lemma {:induction false} EntriesTail(kvs: seq<Kv>, offset: nat, key: Key)
    requires AllReadable(kvs) && kvs != []
    ensures var all := EntriesFrom(kvs, offset);
            if kvs[0].key.Entry?
            then && all != [] && all[1..] == EntriesFrom(kvs[1..], offset + 1)
                 && ListedKeys(all) == [kvs[0].key] + ListedKeys(all[1..])
            else all == EntriesFrom(kvs[1..], offset)
    ensures key in KeysOf(kvs) <==> key == kvs[0].key || key in KeysOf(kvs[1..])
  {
  }

  lemma {:induction false} ListedIff(kvs: seq<Kv>, offset: nat, key: Key)
    requires AllReadable(kvs)
    ensures key in ListedKeys(EntriesFrom(kvs, offset)) <==> key.Entry? && key in KeysOf(kvs)
    ensures Numbered(EntriesFrom(kvs, offset), offset)
  {
    if kvs != [] {
      EntriesTail(kvs, offset, key);
      ListedIff(kvs[1..], if kvs[0].key.Entry? then offset + 1 else offset, key);
    }
  }

  /** A listing names every entry of the directory exactly once, in key order, with consecutive offsets. */
  lemma {:induction false} ListingComplete(kvs: seq<Kv>, offset: nat)
    requires Listing(kvs)
    ensures forall key :: key in ListedKeys(EntriesFrom(kvs, offset)) <==> key.Entry? && key in KeysOf(kvs)
    ensures Ascending(ListedKeys(EntriesFrom(kvs, offset)))
    ensures Numbered(EntriesFrom(kvs, offset), offset)
    decreases |kvs|
  {
    forall key ensures key in ListedKeys(EntriesFrom(kvs, offset)) <==> key.Entry? && key in KeysOf(kvs) {
      ListedIff(kvs, offset, key);
    }
    ListedIff(kvs, offset, Entry([]));
    if kvs != [] {
      assert KeysOf(kvs)[1..] == KeysOf(kvs[1..]);
      EntriesTail(kvs, offset, kvs[0].key);
      var listed := ListedKeys(EntriesFrom(kvs, offset));
      if kvs[0].key.Entry? {
        ListingComplete(kvs[1..], offset + 1);
        assert listed[1..] == ListedKeys(EntriesFrom(kvs[1..], offset + 1));
      } else {
        ListingComplete(kvs[1..], offset);
      }
    }
  }

  /** e says what the pair does: its name, the inode number that its value prints, and that inode's kind. */
  predicate FromPair(kv: Kv, e: DirEntry) {
    kv.key == Entry(e.name) && Parse(kv.value) == Some(e.ino) && kv.kind == Some(e.kind)
  }

  lemma {:induction false} PairOfEntry(kvs: seq<Kv>, offset: nat, k: nat, all: seq<DirEntry>) returns (i: nat)
    requires AllReadable(kvs) && all == EntriesFrom(kvs, offset) && k < |all|
    ensures i < |kvs| && FromPair(kvs[i], all[k])
  {
    if kvs[0].key.Entry? {
      var more := EntriesFrom(kvs[1..], offset + 1);
      assert all == [all[0]] + more;
      if k == 0 {
        i := 0;
      } else {
        var j := PairOfEntry(kvs[1..], offset + 1, k - 1, more);
        i := j + 1;
      }
    } else {
      var j := PairOfEntry(kvs[1..], offset, k, all);
      i := j + 1;
    }
  }

  lemma {:induction false} EntryOfPair(kvs: seq<Kv>, offset: nat, i: nat, all: seq<DirEntry>) returns (k: nat)
    requires AllReadable(kvs) && all == EntriesFrom(kvs, offset) && i < |kvs| && kvs[i].key.Entry?
    ensures k < |all| && FromPair(kvs[i], all[k])
  {
    if i == 0 {
      k := 0;
    } else if kvs[0].key.Entry? {
      var more := EntriesFrom(kvs[1..], offset + 1);
      assert all == [all[0]] + more;
      var j := EntryOfPair(kvs[1..], offset + 1, i - 1, more);
      k := j + 1;
    } else {
      k := EntryOfPair(kvs[1..], offset, i - 1, all);
    }
  }

  /** Every listed entry says what a pair of the bucket does, and every entry's pair is said by one. */
  lemma {:induction false} ListingFaithful(kvs: seq<Kv>, offset: nat)
    requires AllReadable(kvs)
    ensures var all := EntriesFrom(kvs, offset);
            && (forall k :: 0 <= k < |all| ==> exists i :: 0 <= i < |kvs| && FromPair(kvs[i], all[k]))
            && (forall i :: 0 <= i < |kvs| && kvs[i].key.Entry? ==> exists k :: 0 <= k < |all| && FromPair(kvs[i], all[k]))
  {
    var all := EntriesFrom(kvs, offset);
    forall k | 0 <= k < |all| ensures exists i :: 0 <= i < |kvs| && FromPair(kvs[i], all[k]) {
      var i := PairOfEntry(kvs, offset, k, all);
    }
    forall i | 0 <= i < |kvs| && kvs[i].key.Entry? ensures exists k :: 0 <= k < |all| && FromPair(kvs[i], all[k]) {
      var k := EntryOfPair(kvs, offset, i, all);
    }
  }

  lemma {:induction false} SeekFails(kvs: seq<Kv>, key: Key)
    requires AllValid(kvs) && Valid(key) && key !in KeysOf(kvs)
    ensures SeekPast(kvs, key) == None
  {
    if kvs != [] { SeekFails(kvs[1..], key); }
  }

  lemma {:induction false} IndexOfKey(kvs: seq<Kv>, key: Key) returns (i: nat)
    requires key in KeysOf(kvs)
    ensures i < |kvs| && kvs[i].key == key
  {
    if kvs[0].key == key {
      i := 0;
    } else {
      var j := IndexOfKey(kvs[1..], key);
      i := j + 1;
    }
  }

  lemma {:induction false} TailReadable(kvs: seq<Kv>, i: nat)
    requires AllReadable(kvs) && i <= |kvs|
    ensures AllReadable(kvs[i..])
  {
    if i > 0 {
      TailReadable(kvs[1..], i - 1);
      assert kvs[1..][i - 1..] == kvs[i..];
    }
  }

  /** On a directory that can be read, a call panics exactly if the offset does not follow the saved one or the saved
      name is gone. */
  lemma {:induction false} PanicIff(kvs: seq<Kv>, saved: Option<ReadDirInfo>, offset: nat)
    requires Listing(kvs)
    ensures BatchOf(kvs, saved, offset) == Panicked <==>
            saved.Some? && (offset != saved.value.offset + 1 || Entry(saved.value.name) !in KeysOf(kvs))
  {
    if saved.Some? {
      var key := Entry(saved.value.name);
      if key in KeysOf(kvs) {
        var i := IndexOfKey(kvs, key);
        SeekIndex(kvs, i, key);
        TailReadable(kvs, i + 1);
      } else {
        SeekFails(kvs, key);
      }
    }
  }

  /** One that cannot be read makes a call without a saved place panic. */
  lemma {:induction false} UnreadableIff(kvs: seq<Kv>, offset: nat)
    requires AllValid(kvs)
    ensures BatchOf(kvs, None, offset) == Panicked <==>
            exists i :: 0 <= i < |kvs| && kvs[i].key.Entry? && (Parse(kvs[i].value) == None || kvs[i].kind == None)
  {
    ReadableIff(kvs);
  }

  lemma {:induction false} ReadableIff(kvs: seq<Kv>)
    ensures AllReadable(kvs) <==> forall i :: 0 <= i < |kvs| ==> Readable(kvs[i])
  {
    if kvs != [] {
      ReadableIff(kvs[1..]);
      assert forall i :: 0 < i < |kvs| ==> kvs[i] == kvs[1..][i - 1];
    }
  }

  // ---------- the listing loop ----------

  /** GLOBAL_READDIR_TABLE */
  class ReaddirTable {
    var table: map<nat, ReadDirInfo>

    constructor ()
      ensures table == map[]
    {
      table := map[];
    }

    method Push(ino: nat, info: ReadDirInfo)
      modifies this
      ensures table == old(table)[ino := info]
    {
      table := table[ino := info];
    }

    method Pop(ino: nat) returns (info: Option<ReadDirInfo>)
      modifies this
      ensures table == old(table) - {ino} && info == old(Get(ino))
    {
      info := Get(ino);
      table := table - {ino};
    }

    function Get(ino: nat): (info: Option<ReadDirInfo>)
      reads this
      ensures info.Some? <==> ino in table
    {
      if ino in table then Some(table[ino]) else None
    }
  }

  /** The records that fit, in order, up to the first that does not. `len` is the length of an entry's record. */
  function Fitting(entries: seq<DirEntry>, room: nat, len: Bytes -> nat): seq<DirEntry> {
    if entries == [] || len(entries[0].name) > room then []
    else [entries[0]] + Fitting(entries[1..], room - len(entries[0].name), len)
  }

  function Total(entries: seq<DirEntry>, len: Bytes -> nat): nat {
    if entries == [] then 0 else len(entries[0].name) + Total(entries[1..], len)
  }

  lemma {:induction false} TotalMore(a: seq<DirEntry>, b: seq<DirEntry>, len: Bytes -> nat)
    ensures Total(a + b, len) == Total(a, len) + Total(b, len)
  {
    if a == [] {
      assert a + b == b;
    } else {
      assert (a + b)[1..] == a[1..] + b;
      TotalMore(a[1..], b, len);
    }
  }

  lemma {:induction false} TotalOne(e: DirEntry, len: Bytes -> nat)
    ensures Total([e], len) == len(e.name) && Total([], len) == 0
  {
    assert [e][1..] == [];
  }

  /** What fits is a prefix whose records fill no more than the room, and one more record would not fit. */
  lemma {:induction false} LongestPrefix(entries: seq<DirEntry>, room: nat, len: Bytes -> nat)
    ensures var fit := Fitting(entries, room, len);
            && fit <= entries && Total(fit, len) <= room
            && (|fit| < |entries| ==> Total(fit, len) + len(entries[|fit|].name) > room)
  {
    if entries != [] && len(entries[0].name) <= room {
      LongestPrefix(entries[1..], room - len(entries[0].name), len);
      var rest := Fitting(entries[1..], room - len(entries[0].name), len);
      assert Fitting(entries, room, len) == [entries[0]] + rest && ([entries[0]] + rest)[1..] == rest;
    }
  }

  /** Everything is listed exactly when the buffer holds all records. */
  lemma {:induction false} AllFitIff(entries: seq<DirEntry>, room: nat, len: Bytes -> nat)
    ensures Fitting(entries, room, len) == entries <==> Total(entries, len) <= room
  {
    if entries != [] && len(entries[0].name) <= room {
      AllFitIff(entries[1..], room - len(entries[0].name), len);
      assert entries == [entries[0]] + entries[1..];
    }
  }

  /** Where the loop stands: `at` entries are listed, the place of the last one is saved. */
  datatype Stand = Stand(out: seq<DirEntry>, count: nat, at: nat, saved: Option<ReadDirInfo>)

  ghost predicate ListedTo(all: seq<DirEntry>, len: Bytes -> nat, bufLen: nat, p: Stand) {
    && p.at <= |all| && p.count == Total(p.out, len) <= bufLen
    && Fitting(all, bufLen, len) == p.out + Fitting(all[p.at..], bufLen - p.count, len)
    && (if p.at == 0 then p.saved == None else p.saved == Some(ReadDirInfo(p.at - 1, all[p.at - 1].name)))
  }

  /** The same, for a proof to look into when it needs to. */
  ghost predicate Listed(all: seq<DirEntry>, len: Bytes -> nat, bufLen: nat, p: Stand) {
    forall i: nat {:trigger Seen(i)} :: Seen(i) ==> ListedTo(all, len, bufLen, p)
  }

  lemma {:induction false} SavedPlace(all: seq<DirEntry>, len: Bytes -> nat, bufLen: nat, p: Stand)
    requires Listed(all, len, bufLen, p)
    ensures p.at <= |all| && p.count <= bufLen
    ensures if p.at == 0 then p.saved == None else p.saved == Some(ReadDirInfo(p.at - 1, all[p.at - 1].name))
  {
    assert Seen(0);
  }

  lemma {:induction false} NextBatch(kvs: seq<Kv>, all: seq<DirEntry>, at: nat, saved: Option<ReadDirInfo>)
    requires Seekable(kvs) && all == EntriesFrom(kvs, 0) && at <= |all|
    requires if at == 0 then saved == None else saved == Some(ReadDirInfo(at - 1, all[at - 1].name))
    ensures BatchOf(kvs, saved, at) == Batch(all[at..])
  {
    if at > 0 { ResumesAt(kvs, all, at - 1); }
  }

  lemma {:induction false} LastOffset(kvs: seq<Kv>, all: seq<DirEntry>)
    requires AllReadable(kvs) && all == EntriesFrom(kvs, 0) && all != []
    ensures all[|all| - 1].offset == |all| - 1
  {
    var _ := PlaceOfEntry(kvs, 0, |all| - 1, all);
  }

  lemma {:induction false} BatchWritten(all: seq<DirEntry>, len: Bytes -> nat, bufLen: nat, p: Stand,
                                        written: seq<DirEntry>)
    requires Listed(all, len, bufLen, p) && p.at <= |all| && p.count <= bufLen
    requires written == Fitting(all[p.at..], bufLen - p.count, len)
    ensures Fitting(all, bufLen, len) == p.out + written
    ensures Total(p.out + written, len) == p.count + Total(written, len)
  {
    assert Seen(0);
    TotalMore(p.out, written, len);
  }

  lemma {:induction false} AllListed(all: seq<DirEntry>, len: Bytes -> nat, bufLen: nat, out: seq<DirEntry>, count: nat,
                                     last: DirEntry)
    requires all != [] && last == all[|all| - 1] && last.offset == |all| - 1
    requires Fitting(all, bufLen, len) == out && count == Total(out, len) <= bufLen
    ensures Listed(all, len, bufLen, Stand(out, count, |all|, Some(ReadDirInfo(last.offset, last.name))))
  {
    assert all[|all|..] == [] && out + [] == out;
  }

  /** dbfs_readdir with a buffer. No resume assertion fails, and the records written are those of the directory's
      entries in key order, from the first on, as far as they fit; their length is returned. */
  method ListDirectory(t: ReaddirTable, ino: nat, kvs: seq<Kv>, bufLen: nat, len: Bytes -> nat)
    returns (out: seq<DirEntry>, count: nat, panicked: bool)
    requires Listing(kvs)
    modifies t
    ensures !panicked
    ensures out == Fitting(EntriesFrom(kvs, 0), bufLen, len) && count == Total(out, len)
  {
    ListingSeekable(kvs);
    out, count, panicked := ListBatches(t, ino, kvs, bufLen, len);
  }

  /** The loop over the batches. */
  method ListBatches(t: ReaddirTable, ino: nat, kvs: seq<Kv>, bufLen: nat, len: Bytes -> nat)
    returns (out: seq<DirEntry>, count: nat, panicked: bool)
    requires Seekable(kvs)
    modifies t
    ensures !panicked
    ensures out == Fitting(EntriesFrom(kvs, 0), bufLen, len) && count == Total(out, len)
  {
    ghost var all := EntriesFrom(kvs, 0);
    var _ := t.Pop(ino);
    var offset: nat, saved := 0, t.Get(ino);
    out, count := [], 0;
    while true
      invariant Listed(all, len, bufLen, Stand(out, count, offset, saved)) && saved == t.Get(ino)
      decreases |all| - offset
    {
      var ended, place;
      out, count, ended, panicked, place := ListBatch(kvs, all, len, bufLen, out, count, offset, saved);
      if ended { return; }
      t.Push(ino, place);
      offset, saved := place.offset + 1, t.Get(ino);
    }
  }

  /** One turn: a batch is read and its records are written. */
  method ListBatch(kvs: seq<Kv>, ghost all: seq<DirEntry>, len: Bytes -> nat, bufLen: nat, listed: seq<DirEntry>,
                   start: nat, offset: nat, saved: Option<ReadDirInfo>)
    returns (out: seq<DirEntry>, count: nat, ended: bool, panicked: bool, place: ReadDirInfo)
    requires Lists(kvs, all) && Listed(all, len, bufLen, Stand(listed, start, offset, saved))
    ensures !panicked
    ensures ended ==> out == Fitting(all, bufLen, len) && count == Total(out, len)
    ensures !ended ==> offset <= place.offset < |all|
    ensures !ended ==> Listed(all, len, bufLen, Stand(out, count, place.offset + 1, Some(place)))
  {
    place, panicked := ReadDirInfo(0, []), false;
    SavedPlace(all, len, bufLen, Stand(listed, start, offset, saved));
    var batch := ReadBatch(kvs, all, saved, offset);
    if batch.Panicked? { return listed, start, true, true, place; }
    out, count, ended, place := WriteEntries(all, batch.entries, len, bufLen, listed, start, offset, saved);
  }

  /** `all` are the entries of the directory. */
  ghost predicate Lists(kvs: seq<Kv>, all: seq<DirEntry>) {
    forall i: nat {:trigger Seen(i)} :: Seen(i) ==> Seekable(kvs) && all == EntriesFrom(kvs, 0)
  }

  method ReadBatch(kvs: seq<Kv>, ghost all: seq<DirEntry>, saved: Option<ReadDirInfo>, offset: nat)
    returns (batch: Batch)
    requires Lists(kvs, all) && offset <= |all|
    requires if offset == 0 then saved == None else saved == Some(ReadDirInfo(offset - 1, all[offset - 1].name))
    ensures batch == Batch(all[offset..]) && (all != [] ==> all[|all| - 1].offset == |all| - 1)
  {
    assert Seen(0);
    NextBatch(kvs, all, offset, saved);
    if all != [] { LastOffset(kvs, all); }
    batch := CommonReaddir(kvs, saved, offset);
  }

  /** Writes the records of a batch behind those already listed, and says if and where to go on. */
  method WriteEntries(ghost all: seq<DirEntry>, entries: seq<DirEntry>, len: Bytes -> nat, bufLen: nat,
                      listed: seq<DirEntry>, start: nat, ghost offset: nat, ghost saved: Option<ReadDirInfo>)
    returns (out: seq<DirEntry>, count: nat, ended: bool, place: ReadDirInfo)
    requires Listed(all, len, bufLen, Stand(listed, start, offset, saved)) && offset <= |all| && start <= bufLen
    requires entries == all[offset..] && (all != [] ==> all[|all| - 1].offset == |all| - 1)
    ensures ended ==> out == Fitting(all, bufLen, len) && count == Total(out, len)
    ensures !ended ==> offset <= place.offset < |all|
    ensures !ended ==> Listed(all, len, bufLen, Stand(out, count, place.offset + 1, Some(place)))
  {
    place := ReadDirInfo(0, []);
    if entries == [] {
      EmptyBatch(all, len, bufLen, Stand(listed, start, offset, saved));
      return listed, start, true, place;
    }
    var written, full;
    written, count, full := WriteBatch(entries, start, bufLen, len);
    BatchWritten(all, len, bufLen, Stand(listed, start, offset, saved), written);
    out, ended := listed + written, full || |entries| < 16;
    if !ended {
      var last := LastOf(entries, all, offset);
      AllListed(all, len, bufLen, out, count, last);
      place := ReadDirInfo(last.offset, last.name);
    }
  }

  method LastOf(entries: seq<DirEntry>, ghost all: seq<DirEntry>, ghost offset: nat) returns (last: DirEntry)
    requires offset <= |all| && entries == all[offset..] && entries != []
    ensures all != [] && offset < |all| && last == all[|all| - 1]
  {
    last := entries[|entries| - 1];
  }

  lemma {:induction false} EmptyBatch(all: seq<DirEntry>, len: Bytes -> nat, bufLen: nat, p: Stand)
    requires Listed(all, len, bufLen, p) && p.at <= |all| && all[p.at..] == []
    ensures p.out == Fitting(all, bufLen, len) && p.count == Total(p.out, len)
  {
    assert Seen(0);
    assert p.out + [] == p.out;
  }

  /** Where writing a batch stands: `count` bytes of records are written, `rest` is still to come. */
  ghost predicate Writing(entries: seq<DirEntry>, room: nat, len: Bytes -> nat, written: seq<DirEntry>, count: int,
                          rest: seq<DirEntry>)
  {
    && count == Total(written, len) <= room && entries == written + rest
    && Fitting(entries, room, len) == written + Fitting(rest, room - count, len)
  }

  lemma {:induction false} WritesOne(entries: seq<DirEntry>, room: nat, len: Bytes -> nat, written: seq<DirEntry>,
                                     count: int, rest: seq<DirEntry>)
    requires Writing(entries, room, len, written, count, rest) && rest != [] && count + len(rest[0].name) <= room
    ensures Writing(entries, room, len, written + [rest[0]], count + len(rest[0].name), rest[1..])
  {
    var l := len(rest[0].name);
    TotalMore(written, [rest[0]], len);
    Assoc(written, [rest[0]], Fitting(rest[1..], room - count - l, len));
    Assoc(written, [rest[0]], rest[1..]);
    assert rest == [rest[0]] + rest[1..];
  }

  method WriteBatch(entries: seq<DirEntry>, start: nat, bufLen: nat, len: Bytes -> nat)
    returns (written: seq<DirEntry>, count: nat, full: bool)
    requires start <= bufLen
    ensures written == Fitting(entries, bufLen - start, len) && count == start + Total(written, len) <= bufLen
    ensures !full ==> written == entries
  {
    written, count := [], start;
    var rest := entries;
    while rest != []
      invariant Writing(entries, bufLen - start, len, written, count - start, rest)
      decreases |rest|
    {
      var l := len(rest[0].name);
      if count + l > bufLen {
        full := true;
        return;
      }
      WritesOne(entries, bufLen - start, len, written, count - start, rest);
      written, count, rest := written + [rest[0]], count + l, rest[1..];
    }
    full := false;
  }

  // ---------- asking for the length ----------

  /** What follows the last ':', as rsplitn(2, ..) gives it first. */
  function AfterLastColon(key: Bytes): (rest: Bytes)
    ensures |rest| <= |key|
  {
    if key == [] || key[|key| - 1] == COLON then [] else AfterLastColon(key[..|key| - 1]) + [key[|key| - 1]]
  }

  /** dbfs_readdir without a buffer: the length of the records, taken from what follows the last ':' of each key. */
  function QueriedLength(kvs: seq<Kv>, len: Bytes -> nat): nat
    requires AllValid(kvs)
  {
    if kvs == [] then 0
    else (if kvs[0].key.Entry? then len(AfterLastColon(KeyBytes(kvs[0].key))) else 0) + QueriedLength(kvs[1..], len)
  }

  predicate NoColon(name: Bytes) { forall i :: 0 <= i < |name| ==> name[i] != COLON }

  predicate NoColons(kvs: seq<Kv>) {
    kvs == [] || ((kvs[0].key.Entry? ==> NoColon(kvs[0].key.name)) && NoColons(kvs[1..]))
  }

  lemma {:induction false} LastPart(p: Bytes, name: Bytes)
    ensures NoColon(name) ==> AfterLastColon(p + [COLON] + name) == name
    ensures !NoColon(name) ==> |AfterLastColon(p + [COLON] + name)| < |name|
    decreases |name|
  {
    var key := p + [COLON] + name;
    if name == [] {
      assert key[|key| - 1] == COLON;
    } else {
      var init := name[..|name| - 1];
      LastPart(p, init);
      assert key[..|key| - 1] == p + [COLON] + init && name == init + [name[|name| - 1]];
    }
  }

  lemma {:induction false} EntryPart(name: Bytes)
    ensures NoColon(name) ==> AfterLastColon(KeyBytes(Entry(name))) == name
    ensures !NoColon(name) ==> |AfterLastColon(KeyBytes(Entry(name)))| < |name|
    ensures |AfterLastColon(KeyBytes(Entry(name)))| <= |name|
  {
    assert Ascii("data:") == Ascii("data") + [COLON];
    LastPart(Ascii("data"), name);
  }

  /** rest is what follows the last ':' of key: it holds none, and begins the key or comes right after one. */
  ghost predicate Follows(key: Bytes, rest: Bytes) {
    exists head: Bytes :: key == head + rest && NoColon(rest) && (head == [] || head[|head| - 1] == COLON)
  }

  lemma {:induction false} AfterLastIs(key: Bytes)
    ensures Follows(key, AfterLastColon(key))
    decreases |key|
  {
    var rest := AfterLastColon(key);
    if key == [] || key[|key| - 1] == COLON {
      assert key == key + rest;
    } else {
      var init, c := key[..|key| - 1], key[|key| - 1];
      AfterLastIs(init);
      var head: Bytes :| init == head + AfterLastColon(init) && NoColon(AfterLastColon(init))
                         && (head == [] || head[|head| - 1] == COLON);
      Assoc(head, AfterLastColon(init), [c]);
      assert key == init + [c] == head + rest;
    }
  }

  lemma {:induction false} AfterLastOfKey(p: Bytes, name: Bytes)
    ensures AfterLastColon(p + [COLON] + name) == AfterLastColon(name)
    decreases |name|
  {
    var key := p + [COLON] + name;
    if name == [] {
      assert key[|key| - 1] == COLON;
    } else {
      AfterLastOfKey(p, name[..|name| - 1]);
      assert key[..|key| - 1] == p + [COLON] + name[..|name| - 1];
    }
  }

  function CutNames(entries: seq<DirEntry>): seq<DirEntry> {
    if entries == [] then []
    else [entries[0].(name := AfterLastColon(entries[0].name))] + CutNames(entries[1..])
  }

  /** The query answers the length of the records with each name cut down to what follows its last ':'. */
  lemma {:induction false} QueryCounts(kvs: seq<Kv>, len: Bytes -> nat, offset: nat)
    requires AllValid(kvs) && AllReadable(kvs)
    ensures QueriedLength(kvs, len) == Total(CutNames(EntriesFrom(kvs, offset)), len)
    decreases |kvs|
  {
    if kvs != [] {
      if kvs[0].key.Entry? {
        assert Ascii("data:") == Ascii("data") + [COLON];
        AfterLastOfKey(Ascii("data"), kvs[0].key.name);
        QueryCounts(kvs[1..], len, offset + 1);
        assert EntriesFrom(kvs, offset)[1..] == EntriesFrom(kvs[1..], offset + 1);
        var cut := CutNames(EntriesFrom(kvs, offset));
        assert cut[1..] == CutNames(EntriesFrom(kvs[1..], offset + 1));
      } else {
        QueryCounts(kvs[1..], len, offset);
      }
    }
  }

  /** Longer names have no shorter records. */
  ghost predicate Growing(len: Bytes -> nat) { forall a, b :: |a| <= |b| ==> len(a) <= len(b) }

  /** No record gets shorter when only what follows the last ':' of the name is counted. */
  predicate NoneShortened(kvs: seq<Kv>, len: Bytes -> nat)
    requires AllValid(kvs)
  {
    kvs == [] ||
    (&& (kvs[0].key.Entry? ==> len(AfterLastColon(KeyBytes(kvs[0].key))) == len(kvs[0].key.name))
     && NoneShortened(kvs[1..], len))
  }

  lemma {:induction false} QueryShort(kvs: seq<Kv>, len: Bytes -> nat, offset: nat)
    requires AllValid(kvs) && AllReadable(kvs) && Growing(len)
    ensures QueriedLength(kvs, len) <= Total(EntriesFrom(kvs, offset), len)
    ensures QueriedLength(kvs, len) == Total(EntriesFrom(kvs, offset), len) <==> NoneShortened(kvs, len)
    decreases |kvs|
  {
    if kvs != [] {
      if kvs[0].key.Entry? {
        EntryPart(kvs[0].key.name);
        QueryShort(kvs[1..], len, offset + 1);
        assert EntriesFrom(kvs, offset)[1..] == EntriesFrom(kvs[1..], offset + 1);
      } else {
        QueryShort(kvs[1..], len, offset);
      }
    }
  }

  /** A buffer of the queried length lists the whole directory exactly when no record gets shortened. */
  lemma {:induction false} QueryEnoughIff(kvs: seq<Kv>, len: Bytes -> nat)
    requires AllValid(kvs) && AllReadable(kvs) && Growing(len)
    ensures Fitting(EntriesFrom(kvs, 0), QueriedLength(kvs, len), len) == EntriesFrom(kvs, 0) <==> NoneShortened(kvs, len)
  {
    QueryShort(kvs, len, 0);
    AllFitIff(EntriesFrom(kvs, 0), QueriedLength(kvs, len), len);
  }

  /** Without a ':' in a name none is; with one, some record is, if records grow with every byte of the name. Records
      of a rounded length may hide it. */
  lemma {:induction false} ShortenedIff(kvs: seq<Kv>, len: Bytes -> nat)
    requires AllValid(kvs)
    ensures NoColons(kvs) ==> NoneShortened(kvs, len)
    ensures (forall a, b :: |a| < |b| ==> len(a) < len(b)) && NoneShortened(kvs, len) ==> NoColons(kvs)
  {
    if kvs != [] {
      ShortenedIff(kvs[1..], len);
      if kvs[0].key.Entry? { EntryPart(kvs[0].key.name); }
    }
  }
}
