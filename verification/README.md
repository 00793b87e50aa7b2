# A model of DBFS

DBFS is a file system on top of a transactional, ordered key-value store. Every inode is a bucket: metadata keys, one
`data:<name>` key per directory entry (its value is an inode number in decimal) and one `zdata:<u32>` key per slice of
SLICE_SIZE bytes of file data. A write transaction is one atomic step; an error or a panic before the commit leaves the
store as it was. This project models four parts of it and proves what they keep.

**The sliced file.** `Slices` defines a file as its size and its stored slices, and the flat bytes they stand for (an
absent slice is zeros). SLICE_SIZE is a symbolic positive constant. `SlicedFile` holds the loops of read, write, truncate
and fallocate as methods of a class; `SliceRead`, `SliceWrite` and `SliceTruncate` say what they do to the slices, and
`ReadExact`, `ScatterRead`, `CopyRange` and `FileRuns` what that means for the bytes. A buffer fresh from the allocator
has arbitrary contents. `Keys` covers the byte order of the slice keys.

**The namespace.** `Namespace` has the directory tree, its well-formedness (`Wf`) and the edit that each of create, link,
unlink, rmdir and rename makes; `TreeInvariant`, `TreeRename` and `TreeSteps` prove for each operation exactly when it keeps
the tree well-formed, `TreeRuns` puts them into runs, and `TreeEffects` says what each leaves and what each refusal means. `DbfsStore` is the same on stored buckets, with printed numbers, as a
class whose methods mirror the transactions. `Readdir` lists a directory in batches. `Permission` is the access check.

**Inode numbers.** `InodeNumbers` is a transition system of concurrent creators, deletions, mounts and unmounts.

**The operation interpreter.** `Extend` runs operation lists on nested buckets, with the recursive copy.

## What the proofs found

- `dbfs_common_read` returns the file's bytes, whatever they are, exactly for certain patterns of stored slices
  (`ReadExact.ReadExactIff`): past the first slice it forgets where inside the slice to start, it leaves out the first slice of
  every gap but the first, it returns nothing for a hole that no stored slice follows, and its end key wraps at 2^32.
- A write into a hole, or past the end behind a half-written slice, shows the allocator's bytes; an empty write, which POSIX
  says has no effect, stores a slice and moves the end of the file to its offset (`SliceWrite.WriteExactIff`). A copy of
  nothing is such a write (`CopyRange.CopyNothingIff`). Growing a file by truncate or fallocate shows the allocator's bytes too,
  unless nothing is left over up to the new end (`SliceTruncate.GrowToIff`, `SliceTruncate.FallocateGrowIff`).
- Truncating a file of the largest size, 2^32 slices, takes its first slice as well, because the number after the last one is
  cast to 0 (`SliceTruncate.CutIff`).
- The scatter read underflows exactly if it starts inside the file, not at its beginning, and reaches past its end
  (`ScatterRead.SpecialRead`).
- A create with both the directory bit and special-file bits (block devices and sockets have them), an exchange whose old
  entry is a directory, a move onto a name that is taken in a directory that is not sticky, and an unlink that is given
  the number of another inode than the entry's each break the tree; in every other case the tree stays well-formed (`TreeSteps.StepKeepsIff`). A move onto a file in a sticky directory panics:
  the four-byte link count is read as an eight-byte `usize` (64-bit targets).
- A directory's link count stays 2 however many directories it holds (`TreeEffects.RunTwoLinks`).
- The length query of readdir counts only what follows the last `:` of a name. It is too short exactly if that shortens some
  record (`Readdir.QueryEnoughIff`); with records that grow with every byte, exactly if some name holds a `:`.
  The batch size of 16 never stops a batch, because it is read after the vector was cleared.
- A create and a later lookup answer the same attributes, unless a device has no device number or something else was given one
  (`TreeInvariant.ReplyIff`).
- RenameKey leaves a plain value under its old key as well (`Extend.RenameMovesIff`).
- The comment at `creation_gid` and at the set-group-id bit speak of the parent directory; the code looks at the new inode's
  own permission bits, and at the parent's directory bit. The model follows the code.

## Model

| member | source | states |
|---|---|---|
| `Slices.ScanSpec` | src/file.rs:133-141 | a range scan meets exactly the stored slices of the range, ascending |
| `SlicedFile.DbfsFile.Read` | src/file.rs:74-189 | fills the buffer with the output of the read loop and leaves the rest of it untouched |
| `SlicedFile.ReadSlices` | src/file.rs:142-186 | the loop over the cursor collects the turn of each stored slice, cut off at the buffer's end |
| `SlicedFile.TakeSlice` | src/file.rs:151-178 | one turn: zeros for a gap, then the slice; start_num afterwards |
| `SlicedFile.FillGap` | src/file.rs:153-166 | the gap before a stored slice is filled with the bytes of the absent slices |
| `SliceRead.KeysInFile` | src/file.rs:120-141 | the cursor meets stored slices of the file in ascending order, with no stored slice between them |
| `ReadExact.ReadExactIff` | src/file.rs:87-186 | for a given set of stored slices, read returns the file's bytes whatever they are if and only if the slices have a readable shape: aligned offset, at most one gap, and the last wanted slice reached; or a misaligned range inside one gap |
| `ReadExact.ReadableReads` | src/file.rs:87-186 | in a readable shape, read returns min(len, size - offset) bytes, those of the file |
| `SlicedFile.DbfsFile.Write` | src/file.rs:199-291 | returns the buffer's length and leaves one of the states that WriteOutcomes allows |
| `SlicedFile.PutSlices` | src/file.rs:216-276 | the write loop ends with all slices of the range put, for every content of fresh buffers |
| `SlicedFile.SliceToPut` | src/file.rs:217-267 | the slice put holds the part, around it the old slice if there was one |
| `SliceWrite.WriteBytes` | src/file.rs:211-282 | every position of the range holds the buffer's byte, every other byte of a stored or untouched slice is unchanged, and exactly the touched slices are added |
| `SliceWrite.WriteKeepsWf` | src/file.rs:211-282 | writes keep slices whole and within the size |
| `SliceWrite.WriteExact` | src/file.rs:211-282 | without stray bytes, and not empty past the end, a write is a POSIX write on the flat file |
| `SliceWrite.EmptyWriteGrows` | src/file.rs:279-282 | every empty write past the end changes what a caller sees |
| `SliceWrite.WriteExactIff` | src/file.rs:231-245 | whatever fresh buffers hold, a write is a POSIX write if and only if no byte of a fresh buffer or of an old tail can show and it is not an empty one past the end |
| `SlicedFile.DbfsFile.Truncate` | src/inode.rs:702-784 | AccessError exactly without write permission, NoSpace exactly if the size crosses a slice border upwards by more than the free space, nothing changed on either; otherwise the new file and free space, for every size, and the mode bit by bit |
| `SlicedFile.FreeSlices` | src/inode.rs:740-760 | the deleting loop, its numbers cast to u32, and the zeroed slice give the truncated file |
| `SlicedFile.ZeroFrom` | src/inode.rs:754-757 | the zero-fill loop clears the slice from the offset on |
| `SliceTruncate.TruncateBytes` | src/inode.rs:719-768 | below the new size bytes stay, above it they are zero unless the file grew past a slice border |
| `SliceTruncate.DownThenUp` | src/inode.rs:719-768 | truncating down to n and up to m leaves the first n bytes and shows zeros after them |
| `SliceTruncate.GrowIff` | src/inode.rs:726-739 | growing shows zeros for every new size if and only if no byte is left over behind the end |
| `SliceTruncate.GrowToIff` | src/inode.rs:726-739 | growing to one size shows zeros if and only if no byte is left over up to it |
| `SliceTruncate.CutIff` | src/inode.rs:740-760 | cutting a file keeps what is below the new end if and only if the file is not of the largest size or holds only zeros in its first slice |
| `SliceTruncate.ShrinkCleans` | src/inode.rs:740-760 | after a truncate that does not grow the file nothing is left over behind its end |
| `SliceTruncate.WriteThenGrow` | src/file.rs:234-245 | one byte written to a fresh file and a growth by one can show the allocator's byte |
| `SliceTruncate.TruncateSpace` | src/inode.rs:726-766 | free space plus whole slices changes by exactly the two slice remainders on a growth across a border, and not otherwise |
| `SlicedFile.DbfsFile.Fallocate` | src/inode.rs:845-902 | AccessError and NoSpace exactly as in truncate; otherwise the reserved space and, unless the size is kept, the new size |
| `SliceTruncate.FallocateSpace` | src/inode.rs:872-899 | the same accounting for a fallocate that moves the size |
| `SliceTruncate.FallocateGrowIff` | src/inode.rs:872-899 | a growing fallocate shows zeros if and only if no byte is left over up to the new end |
| `ScatterRead.SpecialRead` | src/fuse/file.rs:30-108 | underflow exactly for 0 < offset < size < offset + need; otherwise the pieces join to the file's bytes and zeros up to need |
| `ScatterRead.CollectPieces` | src/fuse/file.rs:49-82 | the loop ends with the wanted bytes or the underflow |
| `ScatterRead.PadWithZeros` | src/fuse/file.rs:84-94 | the padding loop appends exactly the missing zeros |
| `ScatterRead.ScatterAgrees` | src/fuse/file.rs:43-96 | where dbfs_common_read is exact, the counted bytes are the ones it returns |
| `CopyRange.CopyFileRange` | src/file.rs:450-484 | the destination is written with what the read returned, also for one and the same file |
| `CopyRange.CopyIsMemmove` | src/file.rs:450-484 | from a file without holes the destination range receives the source's earlier bytes, and their number is min(size - offset, len) |
| `CopyRange.CopyWithinFile` | src/file.rs:450-484 | inside one file the flat bytes are spliced, overlapping or not |
| `CopyRange.CopyNothingIff` | src/file.rs:469-473 | a copy of nothing leaves the destination's bytes alone if and only if its offset is in a stored slice of the file, or at an end that is a slice border |
| `FileRuns.FlatFile` | src/file.rs:74-291 | over every run of writes without holes, shrinking truncates and aligned reads, the store is one flat byte sequence and every read returns its bytes |
| `FileRuns.RunKeepsWf` | src/inode.rs:719-768 | over every run of writes, truncates, fallocates and reads, slices stay whole and within the size |
| `FileRuns.RunDownUp` | src/inode.rs:719-768 | after any run, truncating down and then successfully up shows zeros |
| `FileRuns.RunDrift` | src/inode.rs:726-766 | over k resizing operations the accounted space drifts by at most k * (SLICE_SIZE - 1) |
| `Keys.SliceOrder` | src/common.rs:312-316 | the byte order of slice keys is the order of their numbers |
| `Keys.RangeIsSlices` | src/file.rs:133-141 | between two slice keys lie the slices between their numbers and no other key of an inode |
| `Keys.ParseKey` | src/file.rs:150-151 | splitting at the first ':' gives back the number or the name, whatever bytes it holds |
| `Keys.RangeScanIsScan` | src/file.rs:133-151 | on any bucket, the range cursor and the parsing of its keys give the numbers that Scan gives |
| `Decimal.RoundTrip` | src/inode.rs:212-213 | an inode number that was printed is read back |
| `Decimal.PrintIsDecimal` | src/inode.rs:584 | a number is printed as decimal digits of that value, without leading zeros |
| `Decimal.DigitsAre` | src/inode.rs:212-213 | exactly the nonempty strings of digits are read, at their decimal value |
| `Readdir.CommonReaddir` | src/file.rs:364-438 | the entries after a saved place with their numbers, offsets and kinds, or a panic if a resume assertion fails or an entry's number or inode cannot be read |
| `Readdir.ListingFaithful` | src/file.rs:395-420 | every listed entry says the name, inode number and kind of a pair of the bucket, and every entry's pair is said by one |
| `Readdir.PanicIff` | src/file.rs:379-391 | a call on a readable directory panics if and only if the offset does not follow the saved one or the saved name is gone |
| `Readdir.UnreadableIff` | src/file.rs:395-415 | a call from the start panics if and only if some entry's number or inode cannot be read |
| `Readdir.ResumeAt` | src/file.rs:378-391 | from the place of any entry of an unchanged directory, the assertions hold and exactly the later entries follow |
| `Readdir.ListingComplete` | src/file.rs:392-425 | a listing names every entry exactly once, in key order, with consecutive offsets |
| `Readdir.ListDirectory` | src/file.rs:317-359 | the batch loop ends without a panic and writes the records of all entries in order, as far as they fit, and returns their length |
| `Readdir.AllFitIff` | src/file.rs:337-350 | everything is listed if and only if the buffer holds all records |
| `Readdir.LongestPrefix` | src/file.rs:337-353 | what is written is a prefix that fits, and one more record would not |
| `Readdir.QueryEnoughIff` | src/file.rs:301-316 | a buffer of the queried length lists everything if and only if no record is shortened by counting only what follows the last ':' |
| `Readdir.QueryCounts` | src/file.rs:301-316 | the queried length is that of the records with each name cut down to what follows its last ':' |
| `Readdir.ShortenedIff` | src/file.rs:303-312 | no record is shortened without a ':' in a name; with one, some record is, if records grow with every byte |
| `Permission.AccessIsClassBits` | src/inode.rs:506-539 | access is granted exactly if the bits of the requester's class hold all that is asked; root is refused only execution, or search, that nobody has |
| `Permission.KindDecodes` | src/common.rs:161-181 | each of the seven type codes is told apart from the others |
| `Permission.KindBits` | src/common.rs:161-181 | which kind each of the sixteen type codes is taken for |
| `Permission.ClearedBits` | src/attr.rs:269-275 | set-user-id goes, set-group-id stays exactly if the group may not execute, every other bit is unchanged |
| `Permission.WriteAccess` | src/inode.rs:573-576 | the write check is the write bit of the requester's class, or root |
| `TreeInvariant.CreateKeepsIff` | src/inode.rs:578-641 | a create keeps the tree well-formed if and only if the type code is not both directory and special file |
| `TreeInvariant.ReplyIff` | src/inode.rs:665-683 | a create answers what a lookup answers if and only if a device, and nothing else, was given a device number |
| `TreeInvariant.AttrDescribes` | src/inode.rs:218-280 | the attributes read are the inode's fields, a directory's size the number of its entries, any other link count the number of entries that refer to it; which inodes panic |
| `TreeInvariant.LinkKeeps` | src/inode.rs:113-138 | a link keeps the tree well-formed |
| `TreeInvariant.UnlinkKeeps` | src/link.rs:88-108 | an unlink keeps the tree well-formed, whether it deletes the inode or not |
| `TreeInvariant.UnlinkBreaks` | src/link.rs:65-77 | an unlink with the number of another inode always breaks the tree |
| `TreeInvariant.RmdirKeeps` | src/inode.rs:832-839 | removing an empty directory keeps the tree well-formed |
| `TreeInvariant.EmptyIff` | src/inode.rs:805-814 | `size > 2` holds exactly for the directories, other than the root, that have a named entry |
| `TreeRename.MoveLookup` | src/inode.rs:1089-1185 | after a move every lookup is the old one but for the two names and a moved directory's ".." |
| `TreeRename.MoveKeeps` | src/inode.rs:1089-1185 | a move to a free name keeps the tree well-formed |
| `TreeRename.OverIsRemoveThenMove` | src/inode.rs:1109-1133 | replacing an empty directory is removing it and then moving |
| `TreeRename.MoveOverKeeps` | src/inode.rs:1109-1185 | a move over an empty directory keeps the tree well-formed |
| `TreeRename.MoveBreaks` | src/inode.rs:1013-1015 | a move onto a taken name that was not loaded always breaks the tree |
| `TreeRename.ExchangeKeeps` | src/inode.rs:1019-1061 | an exchange whose old entry is no directory keeps the tree well-formed |
| `TreeRename.ExchangeBreaks` | src/inode.rs:1049-1053 | an exchange whose old entry is a directory always breaks the tree |
| `TreeRename.ExchangeTwice` | src/inode.rs:1019-1061 | exchanging two files twice restores every inode and entry |
| `TreeSteps.StepKeepsIff` | src/inode.rs:904-1187 | each legal operation, if it succeeds, keeps the tree well-formed exactly in the sound cases; a failed one always |
| `TreeSteps.LiveIffReferenced` | src/link.rs:99-108 | an inode other than the root is there if and only if a named entry refers to it |
| `TreeRuns.RootWf` | src/fs_type.rs:164-199 | the root that a first mount stores is a well-formed tree |
| `TreeRuns.RunWf` | src/inode.rs:548-1187 | over every run: live entries, "." and "..", one named entry per directory, a way up to the root, sizes and link counts, unused next number |
| `TreeRuns.RunReclaims` | src/link.rs:88-108 | an inode is deleted exactly when its last named entry goes, and no create is refused for its number |
| `TreeRuns.RunPermitted` | src/inode.rs:933-1006 | over every run an entry appears, goes or is replaced only with write permission on its directory, and in a sticky one only by root or an owner |
| `TreeRuns.DoneIffAllowed` | src/inode.rs:904-1080 | a legal request is carried out if and only if every entry it changes may be changed, a removed directory is empty, and a moved one may be written |
| `TreeRuns.MoveEffect` | src/inode.rs:1089-1185 | after a successful move request the new name gives the inode, the old one nothing, all other lookups are unchanged |
| `TreeRuns.ExchangeBack` | src/inode.rs:1019-1061 | a second exchange of two files, never refused to root, restores the tree |
| `TreeEffects.CreateStores` | src/inode.rs:578-656 | the inode that a create stores, field by field and bit by bit, against the request and the parent |
| `TreeEffects.CreateAnswers` | src/inode.rs:665-683 | the answer of a create, field by field; it panics exactly for a permission without a type |
| `TreeEffects.PlainLookup` | src/inode.rs:548-843 | every lookup after a create, link, unlink or rmdir |
| `TreeEffects.ExchangeEffect` | src/inode.rs:1030-1058 | every lookup after an exchange, a wrong "." included |
| `TreeEffects.StepKept` | src/inode.rs:548-1187 | no operation changes mode, owner, group, target or device of an inode that stays, nor a directory's link count, nor a file's size |
| `TreeEffects.StepInodes` | src/inode.rs:548-1187 | exactly which inodes an operation creates and deletes |
| `TreeEffects.RunKept` | src/inode.rs:548-1187 | over every run an inode keeps mode, owner, group, target and device for as long as it lives |
| `TreeEffects.RunTwoLinks` | src/inode.rs:625-626 | over every run the link count of every directory is 2 |
| `TreeEffects.RootStores` | src/fs_type.rs:167-193 | the root's bucket, field by field |
| `TreeEffects.PlainRefusals` | src/inode.rs:559-831 | which error a refused create, link, unlink or rmdir gets, as conditions that exclude each other |
| `TreeEffects.RenameRefusals` | src/inode.rs:916-1087 | which error a refused rename gets, as conditions that exclude each other |
| `DbfsStore.OneTree` | src/inode.rs:208-213 | the stored values determine the tree |
| `DbfsStore.Dbfs.constructor` | src/fs_type.rs:164-199 | the first mount's store holds the root tree, and the counter stands at 2 |
| `DbfsStore.Dbfs.LookupName` | src/inode.rs:200-216 | attributes that describe the inode which the entry's printed number names, field by field; NotFound without an entry, NoData exactly without the directory |
| `DbfsStore.Dbfs.CreateNode` | src/inode.rs:548-686 | result, tree, counter and answer of a create; a number is used up even if it fails |
| `DbfsStore.Dbfs.LinkNode` | src/inode.rs:92-145 | result and tree of a link, and an answer that describes the linked inode with its new link count |
| `DbfsStore.Dbfs.UnlinkNode` | src/link.rs:23-112 | result and tree of an unlink, with or without the caller's inode number |
| `DbfsStore.Dbfs.RemoveDir` | src/inode.rs:786-843 | result and tree of an rmdir |
| `DbfsStore.Dbfs.RenameNode` | src/inode.rs:904-1187 | result and tree of a rename; the invariant survives exactly in the sound cases |
| `DbfsStore.RefuseRename` | src/inode.rs:916-1087 | the checks of a rename in their order, on stored buckets, decide as on the tree |
| `DbfsStore.WriteMove` | src/inode.rs:1089-1185 | the puts and deletes of a move give the moved tree |
| `DbfsStore.WriteExchange` | src/inode.rs:1030-1058 | the puts of an exchange give the exchanged tree |
| `InodeNumbers.NeverReused` | src/inode.rs:559-613 | under every interleaving and sequence of mounts no number is handed out twice, and all are below the next one |
| `InodeNumbers.HandedInOrder` | src/inode.rs:559-613 | the numbers handed out are 1, 2, 3 and so on without a gap, over every run |
| `InodeNumbers.NoCollision` | src/fs_type.rs:167-172 | a commit never finds its bucket taken, and the first mount's counter is 1 |
| `InodeNumbers.ReusedIff` | src/fs_type.rs:269-278 | with creators that go on after an unmount, a number comes twice if and only if one fetched while unmounted, a mount followed, and then a fetch |
| `Extend.CopyBucket` | src/extend.rs:107-120 | the copy merges the source into the new bucket, or fails exactly on a clash; into an empty one it is equal to the source at every depth |
| `Extend.Rename` | src/extend.rs:36-61 | the renamed bucket map, after a deep copy for a bucket |
| `Extend.RenameMovesIff` | src/extend.rs:36-61 | the new key holds what the old one held, siblings are equal, and the old key goes if and only if it held a bucket; nothing happens without an old key or with a new one that is taken |
| `Extend.ExecSingle` | src/extend.rs:33-34 | a list of one operation does that operation, an empty one nothing |
| `Extend.AddKeyEffect` | src/extend.rs:62-66 | each key holds the last value paired with it; a panic exactly if one is that of a bucket |
| `Extend.DeleteKeyEffect` | src/extend.rs:77-81 | no deleted key is left, every other is as it was; a panic exactly for a key that is missing, a bucket's or repeated |
| `Extend.StepIntoEffect` | src/extend.rs:94-100 | what is below the key is what the nested operations leave of its old bucket |
| `Extend.AddBucketEffect` | src/extend.rs:67-76 | an absent key becomes a bucket filled by the nested operations, a bucket is left alone, a value panics |
| `Extend.ReadBytes` | src/extend.rs:82-93 | each byte of each value read is at its place in the buffer |
| `Extend.ReadEnds` | src/extend.rs:82-93 | nothing is written past the values or the buffer; a panic exactly for a key without a value |
| `Extend.ExecuteReal` | src/extend.rs:33-104 | the interpreter loop computes Exec, in its bucket and in the caller's memory |
| `Extend.ExecuteOne` | src/extend.rs:34-101 | one operation computes Exec1 |
| `Extend.ReadKeys` | src/extend.rs:82-93 | the buffer receives exactly its size's worth of the concatenated values, and a missing key panics |
| `Extend.Compose` | src/extend.rs:33-104 | executing a concatenation of lists is executing them in sequence, failures propagating |
| `Extend.Frame` | src/extend.rs:68-101 | whatever the operations do not address is unchanged, at any depth |
| `Extend.MemFrame` | src/extend.rs:82-93 | memory outside the buffers is unchanged, also on a panic |
| `Extend.SplitJoins` | src/extend.rs:22 | splitting a path gives keys without ':' that join to it |
| `Extend.ExecuteOperate` | src/extend.rs:18-31 | runs the operations on the bucket at the path and puts back what they leave of it, committed exactly if there is such a bucket and they do not panic; otherwise the store is unchanged |
| `Extend.DescendEffect` | src/extend.rs:22-29 | executing at a path is executing on the bucket that is there, seen through the path |
| `Extend.AddAtPath` | src/extend.rs:18-66 | a value added at a path is found there |
| `Extend.OffPath` | src/extend.rs:18-31 | what lies off the path is unchanged |

## Left out

- FUSE replies, the FUSE readdir loops and their resume over several calls (src/fuse/file.rs:122-207), mkfs and forwarding code.
- The rvfs adapters and the in-memory inode counters (src/inode.rs:63-90, 381-441).
- chmod, chown, utimens, extended attributes and statfs (src/attr.rs): updates and reads of single fields that touch neither the
  tree nor the slices. Timestamps, block counts and block sizes are not part of the attributes here.
- The store (jammdb), rvfs, dbop and the allocator: not part of this model. A bucket is an ordered map; a put on the key of a
  bucket, a delete of anything but a value and the creation of an existing bucket are taken to fail; fresh memory is arbitrary.
- Bucket handles, directories and inode buckets are values: aliasing of handles inside one transaction is not captured. Rename's two
  read-only checks and its write transaction are one atomic step.
- SlicedFile.DbfsFile.Write: requires that the number of the last slice it puts fits a u32, the documented limit of a file
  (src/file.rs:197-198); beyond it the cast would wrap. Read and write also expect a file within that limit.
- FileRuns.FlatFile: reads whose end key would be slice 2^32 are excluded, because the key wraps and the read returns nothing;
  so are truncates of a file of the largest size.
- Decimal.RoundTrip: numbers are unbounded; the overflow error of parse::<usize>() is not modelled.
- Readdir.ListDirectory: the record of an entry is its length; its bytes (src/file.rs:339-347) are not modelled.
- Readdir.CommonReaddir: the attributes that the readdir-plus form adds to each entry are left out.
- TreeSteps.StepKeepsIff: requires what the virtual file system guarantees of its calls (`Legal`): names that are not "." or "..", fresh
  for create and link, present for unlink and rmdir; link and unlink of files, rmdir of directories; a rename of two different
  entries, not into the moved directory itself.
- The errors of read, write, truncate and fallocate for an inode that is not there; a file is an object here.
- Counter recovery after a crash and on the FUSE mount, which does not load `continue_number`.
