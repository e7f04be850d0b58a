# emufs in Dafny

`emufs` is an inode filesystem kept inside a flat blob store: a directory of
files named by the base64 of an identifier. Every file or directory has an
inode record. The record is a fixed 30-byte little-endian header (size, mode
and three timestamps) followed by the ASCII identifier of the inode's data
blob. A directory's data blob is an insertion-ordered table from child name
to child inode identifier. The root directory's inode has the reserved
identifier `"/"`.

The `EmuFS` object resolves paths, stats them, makes and removes
directories, lists and walks them, and changes modes. `EmuFileIO` opens a
file, creating it when the mode allows, and keeps the record's size and
times up to date on every write and read.

This project models that core and proves what it promises:

- `wrappers.dfy`: `Option` and `Result`.
- `inodes.dfy`: the inode record, its kind tests and timestamp updates, and
  the byte codec, with both round trips.
- `stats.dfy`: the `Stat` projection.
- `tables.dfy`: directory tables as sequences of `(name, id)` pairs, with
  assignment, deletion and lookup.
- `paths.dfy`: the part of `PurePosixPath` the filesystem uses.
- `store.dfy`: the blob store and the record-level helpers of `EmuFS`.
- `resolver.dfy`: path resolution, and a frame rule saying which blobs it
  reads.
- `facade.dfy`: `stat`, `mkdir`, `unlink`, `listdir`, `walk` and `chmod`.
  Each operation that changes the store is a function from the store before
  the call to the store after it and the outcome. An operation that raises
  part way keeps the writes it made before raising.
- `facade_props.dfy`: what those operations guarantee.
- `emufs.dfy`: the `EmuFS` class. Its `store` field is changed in place, and
  each method is proved to do exactly what the matching function says.
- `io.dfy`: the `EmuFileIO` handle as a class over an `EmuFS`, the functions
  that specify opening, writing and reading, and the model of the stream
  Python's `open()` returns.
- `io_props.dfy`: what opening, writing and reading guarantee.

Conventions:

- Identifiers drawn from `uuid4` and readings of the clock are parameters
  (`newId`, `newDataId`, `now`).
- A timestamp is the 64-bit pattern of the float that holds it. The codec
  copies those bytes and never looks inside them.
- Every exception the source raises, or lets through from the library, is
  an `Error` value.

## Model

| member | source | states |
|---|---|---|
| `Inodes.Kind` | emufs/inode.py:59-64 | `mode & 0xF000` is a multiple of 0x1000 no larger than 0xF000 |
| `Inodes.KindIsMask` | emufs/inode.py:59-64 | on the 16 bits of a mode, `Kind` is exactly the bitwise `mode & 0xF000` |
| `Inodes.KindTests` | emufs/inode.py:59-64 | `is_dir` holds exactly when `mode & 0xF000 == TYPE_DIR` and `is_file` exactly when it is `TYPE_FILE`, tested bitwise |
| `Inodes.KindsExclusive` | emufs/inode.py:9-10 | a record is never both a directory and a file |
| `Inodes.Inode.UpdateModifiedTime` | emufs/inode.py:49-53 | `ctime` becomes `now`; `mtime` follows only for a data change; no other field moves |
| `Inodes.Inode.UpdateAccessedTime` | emufs/inode.py:55-57 | only `atime` changes |
| `Inodes.NewEmpty` | emufs/inode.py:39-41 | the three timestamps are the same instant; identifier, size and mode are the ones given |
| `Inodes.LE` | emufs/inode.py:6-7 | a field packs into exactly its width in bytes |
| `Inodes.UnLE` | emufs/inode.py:28 | an unpacked field of `k` bytes is below 256^k |
| `Inodes.UnLEOfLE` | emufs/inode.py:44-45 | unpacking a packed field gives the number back |
| `Inodes.LEOfUnLE` | emufs/inode.py:28 | packing an unpacked field gives the bytes back |
| `Inodes.AsciiEncode` | emufs/inode.py:46 | ASCII encoding keeps the length and maps each character to its code |
| `Inodes.AsciiDecode` | emufs/inode.py:30 | ASCII decoding keeps the length and maps each byte to its character |
| `Inodes.ToBytes` | emufs/inode.py:43-47 | succeeds exactly for a size below 2^32, a mode below 2^16 and an ASCII `data_id`; an out-of-range number is a struct error; the output is 30 + `len(data_id)` bytes, with size at 0-3, mode at 4-5, the times at 6-29 and then `data_id` |
| `Inodes.Field64` | emufs/inode.py:28 | an 8-byte timestamp field unpacks to the one 64-bit value that `<d` packs back into those same bytes |
| `Inodes.FromBytes` | emufs/inode.py:27-36 | a buffer shorter than 30 bytes is a struct error; a decoded record can always be encoded again, and its `data_id` is the rest of the buffer |
| `Inodes.RoundTrip` | emufs/inode.py:27-47 | `from_bytes(to_bytes(i)) == i` for every encodable record |
| `Inodes.HeaderOfFields` | emufs/inode.py:28-45 | fields read from a 30-byte header pack back into that header |
| `Inodes.EncodeOfDecode` | emufs/inode.py:27-47 | `to_bytes(from_bytes(b)) == b` whenever decoding succeeds |
| `Stats.FromInode` | emufs/stat.py:16-18 | `ino` is the identifier given; mode, size and times are the inode's |
| `Stats.FromInodeIgnoresDataId` | emufs/stat.py:8-14 | a stat has no `data_id`: records that differ only there give the same stat |
| `Tables.Names` | emufs/fs.py:85 | one name per entry: the i-th name is the i-th entry's name |
| `Tables.Lookup` | emufs/fs.py:171-173 | a name is found exactly when it is in the table |
| `Tables.Put` | emufs/fs.py:151 | assignment adds an entry only for a new name |
| `Tables.Remove` | emufs/fs.py:159 | deletion never grows a table |
| `Tables.LookupIn` | emufs/fs.py:173 | the entry a lookup finds is in the table |
| `Tables.PutLookup` | emufs/fs.py:151 | after `entries[n] = id`, `n` maps to `id` and every other name as before |
| `Tables.PutNames` | emufs/fs.py:151 | assignment keeps the order of names and appends a new name |
| `Tables.PutUnique` | emufs/fs.py:151 | assignment never duplicates a name |
| `Tables.RemoveLookup` | emufs/fs.py:159 | after `del entries[n]`, `n` is gone and every other name maps as before |
| `Tables.RemoveAbsent` | emufs/fs.py:159 | deleting an absent name changes nothing |
| `Tables.RemoveOne` | emufs/fs.py:159 | with unique names, deletion drops exactly one entry and keeps the others in order |
| `Tables.NamesWhere` | emufs/fs.py:96-101 | filtering entries never yields more names than entries |
| `Tables.NamesWhereSnoc` | emufs/fs.py:96-101 | filtering one more entry appends its name when it passes |
| `Tables.AllIdsSnoc` | emufs/fs.py:96-97 | every entry passes exactly when the earlier ones and the last one do |
| `Tables.NamesWherePartition` | emufs/fs.py:94-101 | a test and its negation split the names of a table between them |
| `Paths.Name` | emufs/fs.py:58 | `path.name` of a well-formed path is empty exactly for a path with no components |
| `Paths.Parent` | emufs/fs.py:47 | the parent keeps absoluteness and has one component fewer, unless there are none; a well-formed path has a well-formed parent |
| `Paths.Join` | emufs/fs.py:107 | `path / name` has that name and that parent; joining an empty name changes nothing |
| `Paths.JoinParentName` | emufs/fs.py:107 | a path is its parent joined with its name |
| `Store.InodeAt` | emufs/fs.py:133-135 | a record is read only from a byte blob that decodes to it; a missing blob is `FileNotFoundError`; every failure is a read error |
| `Store.WithInode` | emufs/fs.py:137-139 | the write succeeds exactly for an encodable record; it adds only that key, and reading it back gives the record |
| `Store.TableAt` | emufs/fs.py:144 | a table is read exactly when its blob holds one |
| `Store.EntriesOf` | emufs/fs.py:141-144 | a directory's table is read exactly when its record decodes, is a directory and its table is there; a record that is not a directory fails the assertion |
| `Store.AddEntry` | emufs/fs.py:146-152 | adding an entry succeeds exactly when the directory's table can be read, fails with that read's error otherwise, and keeps the set of keys |
| `Store.RemoveEntry` | emufs/fs.py:154-160 | removing an entry succeeds exactly when the table can be read and holds the name; an unreadable table gives its read error, an absent name `KeyError`; the set of keys is kept |
| `Store.AddEntryEffect` | emufs/fs.py:146-152 | adding an entry rewrites only the directory's table, now the table with `entries[name] = child` |
| `Store.AddEntryFails` | emufs/fs.py:146-150 | adding an entry fails with the error of reading the directory's table |
| `Store.RemoveEntryEffect` | emufs/fs.py:154-160 | removing a present entry rewrites only the directory's table, now without that name |
| `Store.RemoveEntryAbsent` | emufs/fs.py:159 | removing an absent name raises `KeyError` |
| `Resolver.WalkParts` | emufs/fs.py:170-174 | the loop over the components fails only with a store-read error |
| `Resolver.Resolve` | emufs/fs.py:165-182 | for a relative path or one rooted at `/`, resolution fails only with a store-read error |
| `Resolver.WalkPartsSnoc` | emufs/fs.py:170-174 | walking one component further continues from where the walk stopped |
| `Resolver.ResolveJoin` | emufs/fs.py:170-182 | resolving `p / n` is resolving `p` and looking `n` up in its table; a missing name gives `None` and an error on the way is kept |
| `Resolver.ResolveRoot` | emufs/fs.py:166-177 | the root path resolves to `"/"`; when the root's table cannot be read, every path fails with that error |
| `Resolver.ResolveThroughFile` | emufs/fs.py:141-174 | resolving through a file fails the `is_dir` assertion |
| `Resolver.ResolveMissingExtends` | emufs/fs.py:170-180 | no partial results: once a path resolves to `None`, every longer path through it does too |
| `Resolver.DirReadsOfDir` | emufs/fs.py:141-144 | reading a directory's table reads its record and its table blob |
| `Resolver.EntriesOfFrame` | emufs/fs.py:141-144 | reading a table depends only on those two blobs |
| `Resolver.WalkFrame` | emufs/fs.py:170-174 | the component loop depends only on the blobs it reads |
| `Resolver.ResolveFrame` | emufs/fs.py:165-182 | resolution depends only on the blobs it reads |
| `Resolver.WalkReadsPresent` | emufs/fs.py:170-174 | a component loop that succeeds reads only blobs that exist |
| `Resolver.ResolveReadsPresent` | emufs/fs.py:165-182 | a resolution that succeeds reads only blobs that exist |
| `Facade.DirModeIsDir` | emufs/fs.py:54 | a record of mode `TYPE_DIR \| 0o755` is a directory and not a file |
| `Facade.StatOf` | emufs/fs.py:36-44 | `None` exactly when the path resolves to nothing; otherwise the projection of the record the path resolves to |
| `Facade.MkdirStep` | emufs/fs.py:46-58 | an unresolvable parent raises before anything is written; success adds exactly the two new keys |
| `Facade.MkdirWrites` | emufs/fs.py:51-58 | the writes of `mkdir` add exactly the two new keys when they succeed |
| `Facade.UnlinkChecks` | emufs/fs.py:60-73 | fails with "no such file" exactly when the path resolves to nothing; passing means the path and its parent resolve, the record is readable, and a directory is empty |
| `Facade.UnlinkStep` | emufs/fs.py:60-77 | a failed check leaves the store as it was; success removes exactly the target's record and data blob |
| `Facade.UnlinkWrites` | emufs/fs.py:75-77 | the deletions remove exactly the record and the data blob when they succeed |
| `Facade.ListdirOf` | emufs/fs.py:79-85 | "no such directory" exactly when the path resolves to nothing; otherwise the names of its table in order |
| `Facade.ChmodMode` | emufs/fs.py:122 | the low byte is the new one, every higher bit is kept, and the kind is unchanged |
| `Facade.ChmodStep` | emufs/fs.py:115-124 | a resolution error propagates and a path resolving to nothing raises "no such file", both before any write; success keeps the set of keys |
| `Facade.Classify` | emufs/fs.py:94-101 | the loop raises only store-read errors; on success every entry goes to `dirs` or `nondirs` |
| `Facade.Around` | emufs/fs.py:103-112 | the path's own triple is yielded first top-down and, when the subdirectory walks did not raise, last bottom-up; their triples and their exception are kept |
| `Facade.ListingOf` | emufs/fs.py:87-101 | the triple is for the path itself; a path that resolves to nothing raises "no such directory" |
| `Facade.WalkOf` | emufs/fs.py:87-112 | a walk with no nesting left raises at once; a walk whose own triple cannot be read raises with that error and yields nothing |
| `Facade.WalkFrom` | emufs/fs.py:103-112 | a walk whose own triple failed yields nothing and raises that error |
| `FacadeProps.MkdirFirstWrites` | emufs/fs.py:56-57 | after the new table and record are written, every old blob is in place and the parent reads as before |
| `FacadeProps.MkdirEffect` | emufs/fs.py:51-152 | `mkdir` in a readable directory succeeds, adds exactly an empty table and a record of mode `TYPE_DIR \| 0o755` whose size is that of `"{}"`, and rewrites only the parent's table, where the name now maps to the new directory |
| `FacadeProps.MkdirKeepsParent` | emufs/fs.py:47-58 | the parent still resolves to the same directory afterwards |
| `FacadeProps.MkdirVisible` | emufs/fs.py:36-85 | afterwards the path resolves to the new identifier, `stat` reports the new directory, `listdir` of it is empty, and the parent lists the name last unless it was already there |
| `FacadeProps.UnlinkEffect` | emufs/fs.py:75-160 | the deletions remove exactly the target's record and data blob and one parent entry; every other blob is kept |
| `FacadeProps.UnlinkNotEmpty` | emufs/fs.py:70-73 | unlinking a directory whose table has entries raises "directory is not empty" and writes nothing |
| `FacadeProps.UnlinkChecksEntry` | emufs/fs.py:61-68 | passing the checks means the parent's table holds the name, mapped to the target |
| `FacadeProps.UnlinkKeepsParent` | emufs/fs.py:66-77 | the parent still resolves to the same directory afterwards |
| `FacadeProps.UnlinkGone` | emufs/fs.py:60-85 | afterwards the name does not resolve, `stat` gives `None`, and the parent lists the other names in their old order |
| `FacadeProps.UnlinkRoot` | emufs/fs.py:60-177 | `unlink("/")` on an empty root deletes the root's table and record, then fails: the store is left without a root |
| `FacadeProps.ChmodEffect` | emufs/fs.py:115-124 | `chmod` rewrites only the target's record: new low byte, same kind, `ctime` is now, `mtime` and the rest unchanged |
| `FacadeProps.ChmodKeepsPaths` | emufs/fs.py:115-124 | every path resolves as before, and `stat` of the path succeeds and shows the new low byte of the mode |
| `FacadeProps.SameEntriesWalk` | emufs/fs.py:170-174 | the component loop sees the store only through directory tables |
| `FacadeProps.SameEntriesSamePaths` | emufs/fs.py:165-182 | resolution sees the store only through directory tables |
| `FacadeProps.ClassifySnoc` | emufs/fs.py:96-101 | classifying one more entry appends its name to `dirs` or `nondirs` by its kind, or raises when its record cannot be read |
| `FacadeProps.ClassifySplit` | emufs/fs.py:94-101 | the loop succeeds exactly when every child's record can be read, and then gives the directory names and the other names, each in table order |
| `FacadeProps.ClassifyStops` | emufs/fs.py:96-97 | the loop stops at the first unreadable child |
| `FacadeProps.SplitPartition` | emufs/fs.py:94-101 | every name goes to exactly one of `dirs` and `nondirs` |
| `FacadeProps.ListingSpec` | emufs/fs.py:87-101 | the triple exists exactly when the path resolves to a directory whose table and children's records can be read, and it holds the directory names and the other names in table order |
| `FacadeProps.WalkChildrenNext` | emufs/fs.py:106-109 | one more subdirectory appends its walk's triples |
| `FacadeProps.WalkChildrenStops` | emufs/fs.py:106-109 | once a subdirectory's walk raises, the rest are not walked |
| `FacadeProps.WalkBelow` | emufs/fs.py:87-112 | every triple `walk(p)` yields is for `p` or a path under it |
| `FacadeProps.WalkFromBelow` | emufs/fs.py:103-112 | the same, once the path's own triple has been read |
| `FacadeProps.WalkChildrenBelow` | emufs/fs.py:106-109 | the same, for the subdirectory walks |
| `FacadeProps.WalkYields` | emufs/fs.py:103-112 | a walk that does not raise yields at least the path's own triple |
| `FacadeProps.WalkChildrenYields` | emufs/fs.py:106-109 | walking the subdirectories without raising yields at least one triple per subdirectory |
| `FacadeProps.WalkOrder` | emufs/fs.py:87-112 | top-down, every directory under the path has a triple that comes no later than each triple under it; bottom-up, when the walk does not raise, it has one no earlier than each |
| `FacadeProps.OwnFirst` | emufs/fs.py:103-109 | yielding the path's own triple before its subdirectory walks puts it before everything under it |
| `FacadeProps.OwnLast` | emufs/fs.py:106-112 | yielding it after them puts it after everything under it |
| `FacadeProps.SubtreeBefore` | emufs/fs.py:106-109 | appending one subdirectory's top-down walk keeps the ancestors-first order |
| `FacadeProps.SubtreeAfter` | emufs/fs.py:106-109 | appending one subdirectory's bottom-up walk keeps the ancestors-last order |
| `FacadeProps.WalkBefore` | emufs/fs.py:87-112 | `walk(p, topdown=True)` yields ancestors first |
| `FacadeProps.WalkFromBefore` | emufs/fs.py:103-109 | the same, once the path's own triple has been read |
| `FacadeProps.WalkChildrenBefore` | emufs/fs.py:106-109 | the same, for the subdirectory walks |
| `FacadeProps.WalkAfter` | emufs/fs.py:87-112 | `walk(p, topdown=False)` that does not raise yields ancestors last |
| `FacadeProps.WalkFromAfter` | emufs/fs.py:106-112 | the same, once the path's own triple has been read |
| `FacadeProps.WalkListedAfter` | emufs/fs.py:106-112 | the same, for a triple already classified |
| `FacadeProps.WalkChildrenAfter` | emufs/fs.py:106-109 | the same, for the subdirectory walks |
| `FacadeProps.WalkOwnListing` | emufs/fs.py:103-112 | top-down the first triple is the path's own; bottom-up, a walk that does not raise yields it last |
| `EmuFs.EmuFS.constructor` | emufs/fs.py:22-26 | the filesystem is over the given store |
| `EmuFs.EmuFS.ReadInode` | emufs/fs.py:133-135 | the result is `InodeAt` of the current store |
| `EmuFs.EmuFS.WriteInode` | emufs/fs.py:137-139 | the store becomes `WithInode` of the old store, or stays as it was when the record cannot be encoded |
| `EmuFs.EmuFS.GetDirEntries` | emufs/fs.py:141-144 | the result is `EntriesOf` of the current store |
| `EmuFs.EmuFS.AddDirEntry` | emufs/fs.py:146-152 | the store becomes `AddEntry` of the old store, or stays as it was on failure |
| `EmuFs.EmuFS.RemoveDirEntry` | emufs/fs.py:154-160 | the store becomes `RemoveEntry` of the old store, or stays as it was on failure |
| `EmuFs.EmuFS.ResolvePath` | emufs/fs.py:165-182 | the loop computes `Resolve` |
| `EmuFs.EmuFS.Stat` | emufs/fs.py:36-44 | the result is `StatOf` |
| `EmuFs.EmuFS.Mkdir` | emufs/fs.py:46-58 | the new store and the result are those of `MkdirStep` |
| `EmuFs.EmuFS.Unlink` | emufs/fs.py:60-77 | the new store and the result are those of `UnlinkStep` |
| `EmuFs.EmuFS.Listdir` | emufs/fs.py:79-85 | the result is `ListdirOf` |
| `EmuFs.EmuFS.Chmod` | emufs/fs.py:115-124 | the store becomes the one `ChmodStep` gives, or stays as it was on failure |
| `EmuFs.EmuFS.ListPath` | emufs/fs.py:87-101 | the loop computes `ListingOf` |
| `EmuFs.EmuFS.Walk` | emufs/fs.py:87-112 | the triples yielded and the exception are those of `WalkOf` |
| `EmuFs.EmuFS.WalkSubdirs` | emufs/fs.py:106-109 | the loop over the subdirectories yields what `WalkChildren` says |
| `FileIo.FileModeIsFile` | emufs/io.py:39 | a record of mode `TYPE_FILE \| 0o644` is a file and not a directory |
| `FileIo.Exclusive` | emufs/io.py:21-22 | an exclusive mode is also a creating one |
| `FileIo.ModeFlags` | emufs/io.py:21-22 | on a mode `open()` accepts, `creatable` holds exactly when the mode does not read, and an exclusive mode has no `r`, `w` or `a` |
| `FileIo.ParseMode` | emufs/io.py:21-49 | an unknown character, `t` with `b`, or no kind letter is an invalid mode; a valid mode repeats no character, reads exactly for `r`, creates exactly for `x`, is creatable exactly when it does not read, and updates exactly for `+` |
| `FileIo.OpenBlob` | emufs/io.py:49 | `open()` on the data blob: reading needs a byte blob and changes nothing; `w` empties it; `x` succeeds exactly when there is none yet; `a` starts at its end; readability and writability follow the kind and `+`; only that key changes |
| `FileIo.Zeros` | emufs/io.py:52 | the gap a write past the end leaves is zeros |
| `FileIo.Overwrite` | emufs/io.py:52 | the data lands at the position; the bytes before and after are kept; a gap reads as zeros; the length is the larger end |
| `FileIo.ReadRange` | emufs/io.py:69 | a read returns the bytes from the cursor: exactly `size` of them when the file is long enough, up to the end for size -1 or a short file, nothing past the end |
| `FileIo.CreateWrites` | emufs/io.py:37-42 | implicit creation adds only the new record's key when it succeeds |
| `FileIo.OpenRecord` | emufs/io.py:44-49 | the stream opened is on the record's data blob; an invalid mode raises before anything is written |
| `FileIo.OpenStep` | emufs/io.py:20-49 | a resolution error propagates; an existing path with `x` raises; a missing path without a creating mode raises "no such file"; a missing parent raises "no such directory"; none of these writes anything; otherwise the record found, or the one created, is opened |
| `FileIo.StreamWrite` | emufs/io.py:52 | a read-only stream raises "not writable", then a closed one raises; a successful write keeps the set of keys |
| `FileIo.WriteStep` | emufs/io.py:51-60 | a read-only handle, and then a closed one, raises before anything is written; success keeps the set of keys |
| `FileIo.ReadStep` | emufs/io.py:62-69 | an unreadable record raises before anything is written; success needs a readable open stream and a size of at least -1, and keeps the set of keys |
| `FileIo.FileHandle.constructor` | emufs/io.py:46-49 | the handle holds the filesystem, the record's identifier and the stream, and is open |
| `FileIo.FileHandle.Open` | emufs/io.py:20-49 | the store ends as `OpenStep` says; on success a fresh open handle holds the record's identifier and the stream |
| `FileIo.FileHandle.Write` | emufs/io.py:51-60 | the store, the stream and the result are those of `WriteStep` |
| `FileIo.FileHandle.Read` | emufs/io.py:62-69 | the store, the stream and the result are those of `ReadStep` |
| `FileIo.FileHandle.Exit` | emufs/io.py:75-77 | the handle is closed; nothing else changes |
| `FileIoProps.OverwriteAtEnd` | emufs/io.py:52 | writing at the end appends |
| `FileIoProps.ReadBackWritten` | emufs/io.py:52-69 | reading back the range just written gives the bytes written |
| `FileIoProps.CreateEffect` | emufs/io.py:37-42 | implicit creation in a readable directory adds a file record of mode `TYPE_FILE \| 0o644` and size 0, and maps the name to it in the parent's table |
| `FileIoProps.CreateFrame` | emufs/io.py:41-42 | implicit creation changes no blob but the parent's table |
| `FileIoProps.CreateThenOpen` | emufs/io.py:37-49 | creating and opening leaves a stream at 0 on a new empty blob, with exactly two keys added |
| `FileIoProps.OpenCreates` | emufs/io.py:29-49 | opening a missing path in a creating mode gives a stream at 0 on a new empty data blob; only the record and that blob are added |
| `FileIoProps.OpenCreatesRecord` | emufs/io.py:37-44 | the created file's record has mode `TYPE_FILE \| 0o644` and size 0, the parent maps the name to it, and no other blob changes |
| `FileIoProps.OpenNewRecord` | emufs/io.py:44-49 | opening a just-created record in a creating mode makes its data blob empty and starts at 0 |
| `FileIoProps.OpenTruncates` | emufs/io.py:44-49 | opening an existing file with `w` empties its data but leaves its record, and so its reported size, as it was |
| `FileIoProps.WriteEffect` | emufs/io.py:51-60 | a write stores the bytes at the cursor (at the end in append mode); the cursor ends just after them; the record gets `mtime = ctime = now` and a size equal to the whole file's length; nothing else changes |
| `FileIoProps.WriteOverflow` | emufs/io.py:52-60 | a write that makes the file 2^32 bytes or longer fails packing the size, and the record keeps its old fields |
| `FileIoProps.ReadEffect` | emufs/io.py:62-69 | a read of size -1 or more returns the range `ReadRange` gives from the cursor, moves the cursor past them, and rewrites the record with only `atime` changed |
| `FileIoProps.ReadRefusedStamps` | emufs/io.py:62-69 | a read refused for a write-only stream ("not readable"), then for a size below -1, then for a closed handle, still writes the new `atime` first |
| `FileIoProps.WriteThenRead` | emufs/io.py:51-69 | what a write stored is what a read from the same position returns |

## Left out

- ZIP loading and saving, the temporary directory, `EmuFS.write`, `close`,
  `__enter__`/`__exit__` and the module-level `open` (emufs/fs.py:28-34,
  129-131, 185-196). These are archive and host-filesystem I/O.
- The clock (emufs/inode.py:12-13) and the floating-point timestamps. A
  reading is a `now` parameter, and a timestamp is the 64-bit pattern of the
  float.
- `uuid4` (emufs/fs.py:51-52, emufs/io.py:37-38). The identifiers are the
  parameters `newId` and `newDataId`. The properties of `mkdir` and of
  implicit creation assume they are new to the store, distinct and
  non-empty, and that the data identifier is ASCII, as a uuid4 string is
  (`FreshIds`). The operations themselves take any identifiers.
- JSON encoding of directory tables. A table blob is stored decoded. The
  only text modelled is `"{}"`, whose length is a new directory's size.
- Reading a table blob as bytes, or bytes as a table, is `WrongBlobKind`.
  In Python, opening a directory's data blob as a file would read its JSON
  text. A file's data blob read as a table would fail in `json.loads` when
  its bytes are not JSON, but would be read as a table when they hold a JSON
  object of strings.
- The base64 physical naming (emufs/fs.py:162-163). It is injective, so the
  store is keyed by the identifier itself.
- Non-ASCII identifiers in path lookups. A record whose `data_id` is not
  ASCII cannot be written; that case is modelled.
- Text mode: a stream is modelled on bytes. So are the rest of the
  `RawIOBase` interface (`seek` by the caller, `readinto`, `readline`) and
  buffering.
- Writes to a data blob deleted, or replaced by a table, while the file is
  open. These fail as `MissingBlob` or `WrongBlobKind`, where the host
  would go on writing to the orphaned file.
- `Facade.WalkOf`: the recursion limit is a `depth` budget, and a walk
  nested deeper raises `RecursionLimit`. Python's limit depends on the
  interpreter's stack.
- `Facade.WalkOf`: a table key is joined to the path as one component.
  At emufs/fs.py:107, `path / name` parses the key with pathlib: a key
  holding `/` splits into several components, a key starting with `/`
  replaces the path, and a key `.` is dropped. No operation modelled here
  can create such a key, because `path.name` never contains `/` and is
  never `.`, but a loaded archive could hold one. On a store with such a
  key, the program walks different paths from the model, and
  `FacadeProps.WalkBelow` and `FacadeProps.WalkOrder` are proved only for
  the model's walk.
- `Facade.WalkOf`: the walk is computed whole on the store as it is at the
  call. The generator in emufs/fs.py:87-112 is lazy: it reads each
  subdirectory only when the consumer asks for more, so a `mkdir`, `unlink`
  or `chmod` the consumer makes between yields changes what is yielded
  later. The model does not capture that.
- `EmuFs.EmuFS.Walk`: the `dirs` of a yielded triple is a value. In Python
  it is the list the loop at emufs/fs.py:106 goes on to iterate, so a
  top-down consumer that prunes or reorders it changes which subdirectories
  are walked. The method does not capture that, nor changes made to the
  store between yields.
- `Resolver.Resolve`: a path is relative or rooted at `/`. `PurePosixPath`
  keeps a distinct `//` root (`PurePosixPath("/") / "//a"` is `//a`), and
  for such a path `relative_to("/")` at emufs/fs.py:167 raises
  `ValueError`; that error is not modelled.
- `FacadeProps.MkdirKeepsParent`, `FacadeProps.MkdirVisible`,
  `FacadeProps.UnlinkKeepsParent` and `FacadeProps.UnlinkGone` assume that
  resolving the parent does not read the parent's own table
  (`TableOffPath`). That fails only when a directory above the parent has
  the parent's table as its own table. This happens when the tree has a
  cycle, or when two records share one data blob.
- `FacadeProps.UnlinkKeepsParent` and `FacadeProps.UnlinkGone` also assume
  that the deleted blobs are not read on the way to the parent.
- replace.py, example.py and delete_example.py are not part of this model.
  They are command-line drivers.
