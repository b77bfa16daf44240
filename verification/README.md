# cdfs: a model of the ISO 9660 reader and its FUSE server

This project models the parts of `cdfs` that decide what a user of a disc image sees, and proves
what they promise: the block device every client shares, the parsers for system use entries
(SUSP and Rock Ridge) and directory records, the loop that follows continuation areas, the walk
over a directory, name and path lookup, the cached file reader, the volume descriptor scan, the
start of the FUSE server, and its inode and handle tables.

`dafny verify dfyconfig.toml` checks all of it.

## How to read the model

- **Bytes and text.** A `byte` is a number below 256. A `Text` is a Rust `String` as its UTF-8 bytes,
  so `from_utf8` is the predicate `ValidUtf8` and trimming works on bytes.
- **The device.** A `Device` is an immutable image, a shared cursor, and a finite script of how the
  reads turn out: `Full`, `Short(limit)`, or `Error(left)`, which may leave anything in the caller's
  buffer. When the script has run out every read fails with `Io`. Every finite run of the real program is
  a run for some script, so a statement about all scripts is one about all patterns of transient faults.
- **Faults.** What goes well is told by the reads that a call really makes: `FaultFreeSince(before)` says
  that none since then has gone wrong, `CalmSince(before)` also that the image consists of whole blocks,
  `LastFailed(before)` that the last one failed. A call after which `CalmSince` holds has given what the
  image determines, whatever went wrong before it. Over many calls every fault costs at most one:
  `Faults(script, from, until)` counts the reads that went wrong, and a walk, a client among others, a
  run of requests and a client that lists a directory lose no more calls, turns or requests than that
  (`Directory.Run`, `Sharing.Interleave`, `Server.Perform`, `Server.ListAll`), so that repeating calls gets
  everything as soon as the faults are over.
- **Costs.** Every operation has a cost: how many reads it takes, as a function of the image and of what is
  cached, or `Endless`. `Spent(before, cost)` says that a call made at most that many, and exactly that many
  if none went wrong. `Lasts(cost)` says that the coming reads, as many as that, will go well; then none of
  those made goes wrong. Costs are finite wherever the image has an answer (`Continuation.CollectedStops`,
  `Directory.WalkCostIsFinite`, `Lookup.FindCostIsFinite`, `Quiet.SessionIsFinite`), and for any requests there
  is a number of reads that is enough (`Quiet.BudgetExists`); for packed directories, files and descriptors
  they are counted out (`Packing.DirectoryCost`, `Files.BlocksRead`, `Volume.DescriptorsReadOnce`).
- **Panics.** The default `assertions` feature, `unimplemented!` and out-of-range slices panic. A panic
  is an outcome of its own (`Panicked`, `Failure.Panic`, `Crashed`), never a precondition. Unsigned
  underflow of a length (`usize::from(length) - 4`) wraps to a size that `take` rejects, as it does in a
  release build. The little-endian half of a both-endian number is the one that counts.
- **The server as a protocol.** `Protocol.Replies` relates tables, request, reply and new tables;
  `World.quiet` says that nothing goes wrong while the request is answered. It is exact: then there is only
  one reply and one outcome (`Quiet.RepliesAgree`), and otherwise a listing breaks off early only where a
  read is due. An entry that makes the reader panic (`Directory.EntryPanics`) is kept apart from one that
  ends in an error (`Directory.EntryFails`). The class `Server` is proved to answer every request that
  way, and what holds over whole runs is proved from the relation.
- **Meaning by the image.** `Directory.EntryAt` says which entry the image holds at an offset. The
  methods that read through caches are proved to answer exactly that, so their results do not depend
  on the cursor, on caches, or on other clients.
- **What bytes mean.** The functions that decide what a record, a field, a text, a path or a descriptor
  means are shared by the model's operations and their contracts. What they decide is stated once more
  from outside, by numbers written out, in `Unicode`, `Fields`, `Paths`, `LinkPaths`, `RecordMeaning`,
  `Descriptors`, `Access` and `Joliet`: for all inputs, from what is written on the disc to what a client gets.

The layers, from the bottom up: `Base`, `Strings`, `Unicode`, `Susp`, `SuspRoundTrip`, `Fields`, `Record`,
`Identifier`, `RockRidge`, `DirectoryEntry` (parsing and building entries); `BlockDevice`, `Continuation`, `Nesting`
(device and continuation areas); `Walk`, `Directory`, `Packing`, `Printed`, `Lookup`, `Paths`,
`LinkPaths`, `RecordMeaning` (directories, and what names, paths and records mean);
`Files`, `Sharing` (file readers and clients side by side); `Volume`, `Descriptors` (descriptors);
`ServerState`, `Protocol`, `Server`, `Mounting`, `Joliet`, `Quiet` (the FUSE server, and which root it serves);
`Chains`, `Rebinding` (inode numbers from the image); `Access` (from a name to the bytes of its file); `Disc`,
`TwoRoots` (printed discs from their descriptors on).

## What turned out to hold only under a condition

Each of these is stated with its exact condition, for all inputs.

- The `CE` offset is parsed but ignored: the bytes read are the area's of section 5.1 of SUSP exactly for
  areas of at most 2048 bytes that start their block or are empty (`Continuation.OffsetIsIgnored`).
- Following `CE` entries succeeds exactly when all areas reached can be read and the chains are bounded
  (`Nesting.CollectedIffNested`); areas that lead back to themselves are followed forever
  (`Nesting.CycleNeverEnds`). A directory with one record that leads to such an area is never got past,
  whatever number of reads there is (`Printed.SelfIsACycle`, `Printed.WalkForever`).
- A name cut over several `NM` fields comes back exactly when every piece is valid UTF-8 by itself and has
  no NUL at either end; a piece that ends within a character turns into an unknown entry and is lost
  (`RockRidge.NameReassembly`).
- A `;` in a name, also in a Rock Ridge name, must be followed by a number that fits 16 bits, or the entry
  cannot be read (`Identifier.SemicolonNeedsVersion`), and with it no entry after it
  (`Packing.DirectoryRoundTrip`). The documentation gives versions from 1 to 32767; the code accepts 0 to 65535.
- `block_count` rounds up exactly for sizes up to 2^32 - 2048 (`Directory.BlockCountRoundsUp`).
- The file reader ignores how many bytes a read delivered: its cache stays right exactly for reads that
  deliver all there is or fail without touching the buffer (`Files.HarmlessIffCacheKept`).
- Generated inode numbers never change their meaning (`Protocol.LiveNumbersKeepMeaning`). Numbers taken from
  the image can: some run of requests, up to a panic, rebinds a live number exactly when two chains of
  entries from the root lead to different files with the same number, or one to a file with the root's
  number 1 (`Rebinding.RebindsIff`). Each entry of a chain has a number and lies in the directory before it,
  found there by name or shown in a listing that does not panic on what comes next. "The same file" means the same kind and place (or link
  target), so hard links and `.` entries may share a number. Where numbers identify files in this sense,
  no run with any faults rebinds (`Rebinding.SerialsSuffice`). Two discs on which the server takes numbers
  from the image (`Disc.DiscTakesNumbers`) and which do not meet the condition: a file with serial number 1
  (`Disc.RebindRoot`), and a file whose associated file has the same number, which lookups never bind but
  listings do (`Disc.AssociatedFileRebinds`).

## Model

| member | source | states |
|---|---|---|
| `Base.Print16ReadsBack` | cdfs/src/parse/both_endian.rs:16-31 | a printed 16-bit both-endian number is read back wherever it stands |
| `Base.Print32ReadsBack` | cdfs/src/parse/both_endian.rs:33-48 | the same for 32 bits |
| `Unicode.ValidIffUtf8Text` | cdfs/src/parse/mod.rs:82-85 | the bytes accepted as text are exactly the UTF-8 encodings of lists of Unicode scalar values, in the shortest form |
| `Unicode.Utf16Decodes` | cdfs/src/parse/mod.rs:71-80 | UTF-16 in either byte order decodes if and only if it spells scalar values, surrogate pairs included, and to the UTF-8 text of these |
| `Unicode.Ucs2Texts` | cdfs/src/parse/mod.rs:71-80 | what the decoder makes of Joliet texts: big-endian UTF-16, or what one of the three byte order marks announces |
| `Unicode.TextsDecode` | cdfs/src/parse/mod.rs:67-87 | identifiers and descriptor texts in both encodings are read as the text they spell, less white space at the end |
| `Unicode.OtherBytesDoNotDecode` | cdfs/src/parse/mod.rs:67-87 | bytes that spell no text are an error in ISO 9660 encoding and a panic in UCS-2 |
| `Unicode.TrimEndTrims` | cdfs/src/parse/mod.rs:80-83 | trimming takes characters with the Unicode property White_Space off the end, all of them and nothing else |
| `Unicode.TrimNulsTrims` | cdfs/src/parse/susp.rs:376-381 | the NULs at both ends of a name piece are taken off, all of them, and what lies between stays |
| `Susp.EntryReadsFields` | cdfs/src/parse/susp.rs:25-53 | an entry is recognised exactly where a field of length at least 4 fits, takes exactly its recorded length, and depends on that field alone |
| `Susp.SystemUseTiles` | cdfs/src/parse/susp.rs:808-831 | on any input: the parser fails exactly when no field fits; otherwise fields of their recorded lengths tile what is consumed, one entry each, and it stops at the first place where none fits |
| `SuspRoundTrip.AssignInverts` | cdfs/src/parse/susp.rs:604-639 | time stamps printed in flag order go back to the same flags, for every choice of flags |
| `SuspRoundTrip.EntryRoundTrip` | cdfs/src/parse/susp.rs:365-806 | every well-formed entry of every kind is read back from its field, whatever follows; no earlier alternative claims it. An `ER` entry may spell any identifier that registers an extension, trailing NULs and spaces included, with any valid description and source |
| `SuspRoundTrip.SystemUseRoundTrip` | cdfs/src/parse/susp.rs:808-831 | a printed non-empty list of entries with any zero padding parses to the entries that the list stands for and leaves the padding |
| `Fields.FieldStarts` | cdfs/src/parse/susp.rs:365-806 | the two letters that tell each kind of entry, as byte values, its length and version in front of every printed entry |
| `Fields.OwnKindOrUnknown` | cdfs/src/parse/susp.rs:808-831 | on any field: it is read by the alternative of its own signature, or, if that does not accept it, as an unknown entry; no other alternative has a say |
| `Fields.UnknownSignature` | cdfs/src/parse/susp.rs:794-806 | a field with any other signature is passed over as an unknown entry, whatever it holds |
| `Fields.OtherVersionPanics` | cdfs/src/parse/susp.rs:365-760 | a field of a known kind in another version than 1 makes the reader panic |
| `Fields.MisshapenFields` | cdfs/src/parse/susp.rs:365-772 | by signature as byte values: for which sizes `CE`, `PX`, `RR` and `RE` fields make the reader panic, and for which sizes and contents `CL`, `NM`, `SP`, `SL` and `TF` fields are passed over as unknown |
| `Fields.ReferenceRegisters` | cdfs/src/parse/susp.rs:429-467 | an `ER` field, byte by byte, registers Rock Ridge 1.09 or 1.12 for the three identifiers spelled out, white space at the end apart; any other identifier or version makes the reader panic, and a text that is not valid makes it an unknown entry |
| `Fields.NameFlagBits` | cdfs/src/parse/susp.rs:374 | of the flags of an `NM` field bits 0, 1, 2 and 5 are kept, and no others |
| `Fields.ComponentRead` | cdfs/src/parse/susp.rs:738-747 | a component record, byte by byte, is read as its text and the low six bits of its flags, before anything that follows; not if its text is not valid |
| `Fields.AttributesRead` | cdfs/src/parse/susp.rs:656-687 | a `PX` field of either length gives the 16 bits of its mode, the three numbers after it, and in the long form the serial number |
| `Record.ParsedLength` | cdfs/src/parse/directory_entry.rs:83-109 | a record that parses is at least 34 bytes long, fits its input, and is consumed to exactly its length |
| `Record.RecordRoundTrip` | cdfs/src/parse/directory_entry.rs:61-130 | every printed record (section 9.1 of ECMA-119) is read back: both-endian numbers, flags, identifier bytes, system use bytes, with exactly `length` bytes consumed |
| `Record.SystemUseIsEven` | cdfs/src/parse/directory_entry.rs:100-108 | the system use area starts at an even offset for every identifier length |
| `Record.RefusedRecord` | cdfs/src/parse/directory_entry.rs:65-109 | non-zero interleaving fields make the reader panic; a record cut short, or whose length does not cover identifier and pad byte, is refused |
| `Identifier.TakeVersion` | cdfs/src/directory_entry/isofile.rs:65-85 | the in-place truncation and popping computes the split at the last `;` |
| `Identifier.VersionRoundTrip` | cdfs/src/directory_entry/isofile.rs:73-85 | `base;version` is read back as that version and the base less at most one final dot, for every base, also one with `;`, and every 16-bit version |
| `Identifier.SemicolonNeedsVersion` | cdfs/src/directory_entry/isofile.rs:73-80 | after the last `;` there must be a 16-bit number, or the name is rejected |
| `Identifier.VersionsAccepted` | cdfs/src/directory_entry/isofile.rs:73-80 | a version is read if and only if it is a decimal number below 65536, leading zeros and one plus sign allowed |
| `RockRidge.NameFieldParses` | cdfs/src/parse/susp.rs:365-385 | an `NM` field gives its piece without NULs at the ends, or falls through to the unknown entry when the piece is not valid UTF-8 by itself |
| `RockRidge.NameReassembly` | cdfs/src/directory_entry/isodirectory.rs:217-230 | a name cut into any number of `NM` fields among any other fields is given back if and only if every piece is intact |
| `RockRidge.JoinPathAssociates` | cdfs/src/directory_entry/isodirectory.rs:301-307 | joining paths is associative, absolute and empty components included |
| `RockRidge.ParsedLinksHaveRecords` | cdfs/src/parse/susp.rs:759-762 | a parsed `SL` field carries at least one component record |
| `RockRidge.LinkTargetIgnoresCuts` | cdfs/src/directory_entry/isodirectory.rs:270-308 | the link target depends on the component records alone, not on how they are cut into continued `SL` fields or what lies between |
| `RockRidge.LinkTargetOfRecords` | cdfs/src/directory_entry/isodirectory.rs:270-308 | the fold over fields of a fold over records, each joined as a path, is one fold over all component records of the continued fields; a panic exactly if one of them carries text it must not; which text that is: `LinkPaths.LinkSpellsPath` |
| `LinkPaths.LinkSpellsPath` | cdfs/src/directory_entry/isodirectory.rs:270-308 | a round trip from paths: component records with the flags 8, 2, 4 or none for root, `.`, `..` and names, cut into any continued `SL` fields among any entries, give the text of that path with single slashes, starting over at each root; there is no target exactly if there is no such field |
| `LinkPaths.TargetRoundTrip` | cdfs/src/directory_entry/isodirectory.rs:270-308 | the same for the `SL` entries as they are mastered: a path in any cuts is read back |
| `LinkPaths.UpAndDown` | cdfs/src/parse/susp.rs:344-345 | CURRENT and PARENT told apart: parent and then `x` is `../x`, in one field and cut over two |
| `LinkPaths.SpecialPartWithText` | cdfs/src/directory_entry/isodirectory.rs:283-297 | a root, current or parent component with a text makes the reader panic |
| `BlockDevice.Device.ReadAt` | cdfs/src/fileref.rs:17-22 | the buffer and the count after one read are fixed by image, block and outcome, not by where the shared cursor was |
| `Continuation.OffsetIsIgnored` | cdfs/src/directory_entry/isodirectory.rs:153-161 | for which areas the bytes read are those of section 5.1 of SUSP, on every image: an if and only if |
| `Continuation.ReadArea` | cdfs/src/directory_entry/isodirectory.rs:153-161 | a result is the entries the image holds there; without faults an error means there are none to be had |
| `Continuation.TakeFirst` | cdfs/src/directory_entry/isodirectory.rs:165-179 | takes out the first `CE`, keeping the order of areas and of other entries |
| `Continuation.FollowContinuations` | cdfs/src/directory_entry/isodirectory.rs:134-180 | refines a first-in, first-out worklist from the last inline `CE`, under all faults, and reads no more areas than the worklist has steps; if none of the reads made goes wrong, it reads exactly those, an error means that the worklist has no result, and a panic that it comes to an area on which the reader panics; an endless worklist ends only by a fault |
| `Continuation.CollectedStops` | cdfs/src/directory_entry/isodirectory.rs:152-180 | a worklist with a result takes finitely many reads, and never more than the steps it is visited in |
| `Nesting.CollectedIffNested` | cdfs/src/directory_entry/isodirectory.rs:152-180 | the worklist has a result if and only if all areas reached can be read and nesting is bounded |
| `Nesting.CycleNeverEnds` | cdfs/src/directory_entry/isodirectory.rs:152-180 | areas that can all be read and each lead to another of them leave the worklist unfinished after any number of steps |
| `Nesting.NoContinuationLeft` | cdfs/src/directory_entry/isodirectory.rs:165-180 | no `CE` entry remains in what is handed on |
| `Nesting.NameAcrossAreas` | cdfs/src/directory_entry/isodirectory.rs:152-230 | name reassembly over the record and all its continuation areas in visit order, wherever the cuts fall |
| `Nesting.LinkAcrossAreas` | cdfs/src/directory_entry/isodirectory.rs:152-308 | the link target over the record and all its continuation areas is that of the component records in visit order, wherever the cuts fall; with the text of the path in `RecordMeaning.WrittenFile` |
| `Directory.BlockCountRoundsUp` | cdfs/src/directory_entry/isodirectory.rs:102-106 | the 32-bit sum rounds up if and only if it does not wrap |
| `Directory.EntryStep` | cdfs/src/directory_entry/isodirectory.rs:336-350 | a record that is read fits its block, and the walk goes on at least 34 bytes later in the block or at the next block, below the limit |
| `Directory.LoadBlock` | cdfs/src/directory_entry/isodirectory.rs:115-129 | a block is taken for cached only if the buffer holds that block; a failed or short read never counts as one; exactly one read, or none if the block is cached; if that goes well, an error means that the image has no such block |
| `Directory.ReadEntryAt` | cdfs/src/directory_entry/isodirectory.rs:109-380 | under all faults a result is the entry the image holds at that offset and the offset after it, and no more is read than the block, unless cached, and the areas of the entry; if none of the reads made goes wrong, whatever did before, exactly these are made, an error means that there is no entry, and a panic that there is one on which the reader panics; with faults, an error needs a read that was due, and a panic one for the areas; which entry a written record stands for: `RecordMeaning.WrittenDirectory` and `WrittenFile` |
| `Directory.DirectoryIterator.constructor` | cdfs/src/directory_entry/isodirectory.rs:383-390 | starts at offset 0 with nothing cached |
| `Directory.DirectoryIterator.Next` | cdfs/src/directory_entry/isodirectory.rs:459-471 | an entry is the first one left; an error leaves what is left unchanged and never lets a stale block be parsed; the end comes exactly when nothing is left; a call none of whose reads goes wrong gives the next entry if it can be read, also after calls that failed |
| `Directory.Run` | cdfs/src/directory_entry/isodirectory.rs:459-471 | over any number of calls with any faults the entries come out in order, none lost, repeated or made up, and each read that goes wrong costs at most one call: the end of a readable directory is reached with as many calls as there are entries and faults together; if as many of the coming reads go well as the calls take, none is lost and no more is read |
| `Directory.WalkCostIsFinite` | cdfs/src/directory_entry/isodirectory.rs:459-471 | any number of calls on a directory that can be read to its end takes finitely many reads |
| `Packing.PrintedImageIsPacked` | cdfs/src/directory_entry/isodirectory.rs:336-350 | every list of records that fit their blocks can be printed to an image that holds it as that directory, anywhere on the disc |
| `Packing.DirectoryRoundTrip` | cdfs/src/directory_entry/isodirectory.rs:336-350 | for all records packed as section 6.8.1 of ECMA-119 requires, the walk yields exactly the records in order up to the first unreadable one, and is complete if and only if there is none |
| `Packing.DirectoryCost` | cdfs/src/directory_entry/isodirectory.rs:115-129 | walking over a packed readable directory takes one read for each block and those for the continuation areas, however many records there are |
| `Packing.ReadContents` | cdfs/src/directory_entry/isodirectory.rs:383-390 | iterating over a packed directory gives its records in order under all faults, each of which costs at most one call; with as many calls as records and faults, all of them and then the end; without faults that takes one read for each block and those for the continuation areas |
| `Packing.SixtyPerBlock` | cdfs/src/directory_entry/isodirectory.rs:336-350 | on any image a walk from the start yields at most 60 entries per block |
| `Packing.CutOffIsExact` | cdfs/src/directory_entry/isodirectory.rs:340-344 | the `2048 - 33` cut-off passes over exactly the positions where no record can be |
| `Packing.PanicAtRecord` | cdfs/src/directory_entry/isodirectory.rs:131-376 | reading at the start of a packed record panics exactly if building what the record stands for does |
| `Printed.PrintedRecordMeaning` | cdfs/src/directory_entry/isodirectory.rs:131-338 | a record printed with system use entries and padding stands for the entry built from those that are no `CE` entries and what the worklist collects from the last `CE`, and takes as many reads as the worklist has steps |
| `Printed.ContinuedRecordMeaning` | cdfs/src/directory_entry/isodirectory.rs:131-338 | a record printed with entries that go on in printed areas, laid out in any way that following comes to an end of: it stands for the entry built from all the entries in visit order; its name is the concatenation of all pieces and its link target that of all component records, wherever the cuts fall |
| `RecordMeaning.WrittenDirectory` | cdfs/src/directory_entry/mod.rs:46-66 | a printed record with flag bit 1, continued in areas of any layout or not, is a directory: every field of it, from the record and the entries written for it, `.` and `..` for the identifiers 0 and 1, relocated if there is an `RE` entry; none with a `CL` entry |
| `RecordMeaning.WrittenFile` | cdfs/src/directory_entry/mod.rs:46-66 | a printed record without flag bit 1 is a symbolic link if the mode of its first `PX` entry has bits 13 and 15, with the path its `SL` entries spell, and else a file; or, with a `CL` entry, the directory of one block at the block named there: every field of it |
| `RecordMeaning.PanickingRecord` | cdfs/src/directory_entry/isodirectory.rs:352-376 | a `CL` entry on a directory or symbolic link makes the reader panic, and so does a special component with a text |
| `RecordMeaning.PlainRecord` | cdfs/src/directory_entry/isofile.rs:59-94 | a record without system use is a directory or a file of its name, less version and final dot, and takes no reads |
| `RecordMeaning.DotRecords` | cdfs/src/directory_entry/isodirectory.rs:83-87 | the records with the identifiers 0 and 1 are the directories `.` and `..` in both encodings |
| `RecordMeaning.LinkRecordMeans` | cdfs/src/directory_entry/mod.rs:53-65 | a record with a `PX` field of mode 0o120777 and an `SL` field, written out byte by byte, is the symbolic link to `../a` |
| `Printed.SelfIsACycle` | cdfs/src/directory_entry/isodirectory.rs:109-180 | an image of a directory whose only record has a `CE` entry for an area that holds a `CE` entry for itself: there is no entry to be read there, and trying takes endlessly many reads |
| `Printed.WalkForever` | cdfs/src/directory_entry/isodirectory.rs:459-471 | on that image, with any number of faultless reads, the first call uses them all up and stays at the first record |
| `Walk.Resumes` | cdfs-fuse/src/bin/cdfs_fuse.rs:362-396 | the offset handed out with an entry resumes right after it, past relocated entries |
| `Walk.SessionListsAll` | cdfs-fuse/src/bin/cdfs_fuse.rs:326-399 | however reply buffers cut the calls, the accepted entries are the shown ones in order, and all of them once a call with room comes back empty |
| `Walk.SessionReachesEnd` | cdfs-fuse/src/bin/cdfs_fuse.rs:326-399 | when every call has room for an entry, the calls list exactly the shown entries, in order, after at most as many calls as there are entries |
| `Lookup.PicksFirst` | cdfs/src/directory_entry/isodirectory.rs:402-418 | the first entry that is not an associated file and equals the name up to ASCII case; not found only if the listing was complete |
| `Lookup.FindChild` | cdfs/src/directory_entry/isodirectory.rs:402-418 | under all faults an answer is the image's answer, and no more is read than up to the entry found, or to the end; if none of the reads made goes wrong, exactly these are made, an error means that the directory breaks off before the name, and a panic that it does so at an entry on which the reader panics |
| `Lookup.FindCostIsFinite` | cdfs/src/directory_entry/isodirectory.rs:402-418 | finding a name, or that there is none, takes finitely many reads on any image that answers the question |
| `Lookup.FindRecursive` | cdfs/src/directory_entry/isodirectory.rs:422-438 | the same for paths, which count only by their non-empty segments, with the reads of all the directories gone through; which segments a path has: `Paths.SlashesDoNotCount` and `SegmentsAreNames` |
| `Lookup.PathsCompose` | cdfs/src/directory_entry/isodirectory.rs:424-437 | resolving `p/q` is resolving p and then q from there, not found and broken passed on |
| `Paths.SameUpToCase` | cdfs/src/directory_entry/isodirectory.rs:412 | names are the same if and only if they agree byte by byte up to the case of A to Z |
| `Paths.SlashesDoNotCount` | cdfs/src/directory_entry/isodirectory.rs:425 | slashes (47) at either end of a path and double ones within make no difference to its segments |
| `Paths.SegmentsAreNames` | cdfs/src/directory_entry/isodirectory.rs:425 | every segment is a non-empty name without a slash, and such a name is its own only segment |
| `Paths.PathRoundTrip` | cdfs/src/directory_entry/isodirectory.rs:424-437 | a path written from any names is read back as these names, with further slashes around it, too |
| `Access.NameFindsRecord` | cdfs/src/directory_entry/isodirectory.rs:402-418 | in a packed directory a name finds what its first record of that name stands for that is no associated file (flag bit 2) |
| `Access.PathFindsRecord` | cdfs/src/directory_entry/isodirectory.rs:422-438 | a path finds what following its names from record to record through packed directories leads to |
| `Files.HarmlessIffCacheKept` | cdfs/src/directory_entry/isofile.rs:130-133 | the outcomes of a read for which the cache stays right on every image and buffer: an if and only if |
| `Files.FileReader.constructor` | cdfs/src/directory_entry/isofile.rs:102-111 | starts at position 0 with nothing cached |
| `Files.FileReader.Load` | cdfs/src/directory_entry/isofile.rs:129-133 | a cached block number means that the buffer holds that block of the image; exactly one read, or none if the block is cached, and an error exactly if that read fails |
| `Files.FileReader.WriteTo` | cdfs/src/directory_entry/isofile.rs:135-137 | copies at least one byte, and no more than block, file and caller's buffer have |
| `Files.FileReader.Read` | cdfs/src/directory_entry/isofile.rs:124-144 | returns the file's bytes from the position to the end of the buffer or file and moves by their number; a failed read moves nothing; at most one read for each block that the bytes lie in; it fails exactly if the last read made has failed, so not if as many of the coming reads go well, whatever happened before |
| `Files.FileReader.Seek` | cdfs/src/directory_entry/isofile.rs:146-161 | moves to the target in wrapping 64-bit arithmetic, or refuses a negative one and stays |
| `Files.SeekIsExact` | cdfs/src/directory_entry/isofile.rs:148-152 | the target is the sum modulo 2^64, as a signed number, and so the plain sum if and only if that is a signed 64-bit number |
| `Sharing.AnswersAreDetermined` | cdfs/src/directory_entry/isofile.rs:124-161 | the same operations on a file in the image, without failed reads, always get the same answers |
| `Sharing.LogIsAlone` | cdfs/src/directory_entry/isofile.rs:124-161 | a log of right answers without failed reads is the one that slices of the image and plain seeking give for the same operations |
| `Sharing.Serve` | cdfs/src/directory_entry/isofile.rs:124-161 | one read or seek answers as the file and the position alone determine; a read is refused exactly if the last read made for it has failed |
| `Sharing.Interleave` | cdfs/src/fileref.rs:33-42 | any number of file readers and directory walks on one device, in any order of turns and with harmless faults: every answer is the one the file determines, every walk yields in order, and over all clients no more turns come to nothing than reads went wrong. If nothing has gone wrong, which is so if as many of the coming reads go well as the turns take, every reader has the log of a client alone with its file, every walk has given one entry in each of its turns until there were no more, and no more is read |
| `Sharing.LostCovers` | cdfs/src/fileref.rs:33-42 | the turns counted as lost cover, together, the refused operations of any reader and the entries that any walk is behind its turns |
| `Sharing.SharedAndAlone` | cdfs/src/fileref.rs:33-42 | a reader and a walk that share a device with others, and a second reader and walk that have a device with the same image to themselves, under any harmless faults on the three devices: the readers get the same where no read of their own failed, and one walk the first of what the other gets; where as many of the coming reads go well as they take, no read fails and the walks get the same |
| `Volume.DescriptorRoundTrip` | cdfs/src/parse/volume_descriptor.rs:85-188 | descriptors of every kind laid out as section 8 of ECMA-119 says are read back: boot record, primary and supplementary (in both encodings and with any root record: block size, root record and its identifier), terminator, others; with dates and texts spelled out: `Descriptors.MasteredDescriptor` |
| `Volume.Open` | cdfs/src/lib.rs:147-223 | the loop ends on every image after at most as many reads as there are descriptors to pass over and one more; a volume is the one the image determines, and so is every answer if none of the reads made goes wrong, for which exactly those are made; which images open: `Descriptors.MasteredVolumeOpens` |
| `Volume.OpensIffSelected` | cdfs/src/lib.rs:160-213 | success if and only if there is a terminator, all blocks before the first one hold descriptors of block size 2048, and the last primary and last supplementary one are selected |
| `Volume.DescriptorsReadOnce` | cdfs/src/lib.rs:160-213 | opening reads each block from 16 up to the terminator exactly once |
| `Descriptors.MasteredDescriptor` | cdfs/src/parse/volume_descriptor.rs:85-188 | a block that starts with its type and the bytes of "CD001" and 1, with dates of 16 digits or 16 NULs and any zone, texts in its encoding and any root record, is read as that descriptor |
| `Descriptors.NotMastered` | cdfs/src/parse/date_time.rs:39-46 | a block that does not start so, has other escape sequences, or a byte in a date that is no digit, sign or NUL, is not |
| `Descriptors.TextsNeeded` | cdfs/src/parse/volume_descriptor.rs:132-146 | a descriptor that is as it should be but for one of its eight texts is an error in ISO 9660 encoding and a panic in UCS-2; for the ninth, which is ISO 9660 in both, an error |
| `Descriptors.MasteredVolumeOpens` | cdfs/src/lib.rs:160-222 | an image with such a primary descriptor, maybe a supplementary one, and a terminator opens with their roots if both have block size 2048, and else not |
| `Protocol.StepEvolves` | cdfs-fuse/src/bin/cdfs_fuse.rs:139-407 | every answer to every request keeps the tables in order, changes them only by new numbers and by what is given up, and hands out the numbers the counters stood at, a row of them for a listing |
| `Protocol.NothingIssuedTwice` | cdfs-fuse/src/bin/cdfs_fuse.rs:139-407 | over every run of all requests the file handles, the directory handles and the generated inode numbers handed out are each strictly increasing, those of listings included, and never below the counter at the start |
| `Protocol.LaterIsLarger` | cdfs-fuse/src/bin/cdfs_fuse.rs:139-407 | the same told by the replies alone: of two file handles, directory handles or generated inode numbers, looked up or listed, the one in the later reply, or later in a listing, is larger |
| `Protocol.LiveNumbersKeepMeaning` | cdfs-fuse/src/bin/cdfs_fuse.rs:92-101 | over every run of all requests a live handle or generated inode never changes its meaning, and a number given up never comes back |
| `Protocol.HandedOut` | cdfs-fuse/src/bin/cdfs_fuse.rs:337-397 | a listing hands out the first of the entries shown from the cookie on, no more than there is room for; it is complete with a full buffer or at the end of a readable directory, and when nothing goes wrong it falls short only where the counter ends, an entry has no number, or the directory cannot be read further |
| `Protocol.BoundUnlessDots` | cdfs-fuse/src/bin/cdfs_fuse.rs:369-390 | with generated numbers a listing binds each entry to the number it was listed under, exactly those named `.` or `..` excepted |
| `Access.ReadsWhatTheRecordSays` | cdfs-fuse/src/bin/cdfs_fuse.rs:139-264 | over any run of requests: the bytes read under a handle, for a file that was looked up by name in a packed directory, are those of the image at the place and in the size that the directory record says, whatever requests came between |
| `Quiet.RepliesAgree` | cdfs-fuse/src/bin/cdfs_fuse.rs:139-407 | when nothing goes wrong, image and tables determine the new tables and the reply to every request; the bytes of a read if its file lies in the image and no cache was spoilt |
| `Quiet.SessionIsFinite` | cdfs-fuse/src/bin/cdfs_fuse.rs:326-399 | listing a directory that can be read to its end, call by call with any room, takes finitely many reads |
| `Quiet.BudgetExists` | cdfs-fuse/src/bin/cdfs_fuse.rs:139-407 | for any requests there is a number of reads that pays for them however they are answered without faults, if an attempt to read an entry ends at every offset of every directory that can be reached |
| `Quiet.EveryChainEnds` | cdfs/src/directory_entry/isodirectory.rs:152-180 | that is so for all tables on an image whose continuation areas all lead to an end |
| `Mounting.ReadIsRockRidge` | cdfs/src/lib.rs:252-257 | true only if the first entry of the primary root names a Rock Ridge extension, and exactly then if none of the reads made goes wrong; then a panic exactly if that entry makes the reader panic; told by what is printed: `Joliet.MountWithReference` and `MountWithoutReference` |
| `Mounting.Mount` | cdfs-fuse/src/bin/cdfs_fuse.rs:104-136 | with any faults a server that comes up has the root of one of the two descriptors, and takes numbers from the image only with Rock Ridge and a serial number on the root's first entry; if none of the reads made goes wrong, root and numbering are those the image determines, the reads are counted out, and a server comes up if and only if the volume can be opened, the primary root's first entry does not make the reader panic, and that of the chosen root can be read; which root that is, told by what is printed: `Joliet.MountWithReference` and `MountWithoutReference` |
| `Joliet.MountWithoutReference` | cdfs/src/lib.rs:252-275 | if the first record of the primary root is printed without an `ER` entry and there is a supplementary descriptor, a server set up without faults serves that directory, under generated numbers; and it comes up exactly if the two first entries allow it |
| `Joliet.MountWithReference` | cdfs/src/lib.rs:252-275 | if that record is printed with a registered reference, it serves the primary directory, even with a supplementary one present, and numbers come from the image exactly if the record's first `PX` entry has a serial number |
| `Rebinding.SerialsSuffice` | cdfs-fuse/src/bin/cdfs_fuse.rs:151-162 | with numbers from the image: if chains of entries from the root to one number lead to the same file (and none but the root has 1), no run of any requests, up to a panic, with any faults changes what a live number leads to |
| `Rebinding.RebindsIff` | cdfs-fuse/src/bin/cdfs_fuse.rs:139-400 | some run of any requests, listings included, up to a panic, changes what a live number leads to, if and only if two chains of entries from the root, by name or by what is listed without a panic, lead to different files that the image gives the same number, or the root's; an image is a file, so of less than 2^63 bytes |
| `Chains.ShortChain` | cdfs-fuse/src/bin/cdfs_fuse.rs:139-400 | what a chain of entries leads to, one leads to that has no more links than the image has bytes, so that following it never runs out of handles |
| `Chains.SameFile` | cdfs-fuse/src/bin/cdfs_fuse.rs:151-162 | "the same file": if and only if both are directories, or files, of the same place and size (and encoding), or links to the same target |
| `Disc.DiscTakesNumbers` | cdfs-fuse/src/bin/cdfs_fuse.rs:104-136 | a printed disc, with any files on it, whose root directory registers Rock Ridge and has a serial number: its volume opens, its root is the primary one, inode numbers are taken from the image, and setting up the server takes five reads |
| `Disc.RootIsRebound` | cdfs-fuse/src/bin/cdfs_fuse.rs:139-171 | on that disc with a single file of serial number 1, looking the file up cannot but make the root's number mean it |
| `Disc.RebindRoot` | cdfs-fuse/src/bin/cdfs_fuse.rs:104-171 | the server is set up on that disc and does so, with any script whose first six reads go well |
| `Disc.LookupIsAffordable` | cdfs-fuse/src/bin/cdfs_fuse.rs:139-171 | on that disc looking the file up on a freshly started server is paid for with one read |
| `Disc.AssociatedFileRebinds` | cdfs-fuse/src/bin/cdfs_fuse.rs:369-390 | on the same disc with a file and its associated file of one serial number, some run of requests rebinds that number |
| `TwoRoots.ReadByLongName` | cdfs-fuse/src/bin/cdfs_fuse.rs:104-264 | on a printed disc with a primary and a Joliet root, with eight reads without faults: the server comes up with the Joliet root, finds the file by its long name in capitals, opens it, and reads its bytes |
| `TwoRoots.OpenPath` | cdfs/src/lib.rs:247-249 | the path `//A B/` finds that file, in one read |
| `Server.Server.constructor` | cdfs-fuse/src/bin/cdfs_fuse.rs:104-136 | only the root is bound, and its number is behind the counter |
| `Server.Server.Lookup` | cdfs-fuse/src/bin/cdfs_fuse.rs:140-171 | the error is fixed by the tables in the order of the checks; otherwise what the image has under that name is bound to the next number or its own. If none of the reads made goes wrong, it is refused only if the image has no such entry or its directory ends in an error before it, and the server panics only if its directory makes the reader panic before it or the entry has no number; no more is read than finding the name takes; a name that is not UTF-8 is a panic |
| `Server.Server.Forget` | cdfs-fuse/src/bin/cdfs_fuse.rs:173-177 | unbinds exactly that inode |
| `Server.Server.Open` | cdfs-fuse/src/bin/cdfs_fuse.rs:205-222 | an unbound inode, one that is no file, and a counter at its end are told apart; in every other case the file is opened under the next handle |
| `Server.Server.Read` | cdfs-fuse/src/bin/cdfs_fuse.rs:224-264 | returns the slice of the file fixed by handle, offset and size alone, whatever ran before; an error exactly for a negative offset or unknown handle, or if the last read made has failed; at most one read for each block of the slice; changes no table |
| `Server.Server.Release` | cdfs-fuse/src/bin/cdfs_fuse.rs:266-280 | gives up exactly that file handle |
| `Server.Server.OpenDirectory` | cdfs-fuse/src/bin/cdfs_fuse.rs:282-300 | an unbound inode, one that is no directory, and a counter at its end are told apart; in every other case the directory is opened under the next handle |
| `Server.Server.Remember` | cdfs-fuse/src/bin/cdfs_fuse.rs:369-390 | binds a listed entry, dot entries excepted, to a number never used before or to the entry's own |
| `Server.CookieFits` | cdfs-fuse/src/bin/cdfs_fuse.rs:362-365 | every offset the walk hands out fits the signed cookie |
| `Server.Server.ReadDirectory` | cdfs-fuse/src/bin/cdfs_fuse.rs:313-400 | under all faults a listing reply holds the shown entries from the cookie on, as many as fit, with generated numbers in a row or the entries' own, each bound to its number, and the counter moved by their number. The other replies, too, bind exactly the entries they came past: the counter is at its end; the next entry ends in an error, or a read for it was due and something went wrong; the next entry has no number or makes the reader panic, or reads for its areas were due and something went wrong |
| `Server.ListAll` | cdfs-fuse/src/bin/cdfs_fuse.rs:326-399 | a client that goes on from its last cookie and repeats failed calls gets the shown entries in order, and all of them once a call with room comes back empty. On a readable directory whose entries can be given numbers, with room in every call: each read that goes wrong costs at most one call, so that the end is reached with more calls than entries and faults together, unless a fault makes the server panic; and with one more call than entries if as many of the coming reads go well as the calls take |
| `Server.Server.ReleaseDirectory` | cdfs-fuse/src/bin/cdfs_fuse.rs:402-407 | gives up exactly that directory handle |
| `Server.Handle` | cdfs-fuse/src/bin/cdfs_fuse.rs:139-407 | every request is answered as the protocol relation says, as one that nothing goes wrong with if none of the reads made for it did, and takes no more reads than it may |
| `Server.Perform` | cdfs-fuse/src/bin/cdfs_fuse.rs:139-407 | any sequence of all requests, up to a panic, is a run of the protocol; so no handle and no generated inode number is handed out twice in it, listed ones included. No more requests are troubled than reads went wrong: all others are answered as ones that nothing goes wrong with. If as many of the coming reads go well as the requests can take, it is a run in which nothing goes wrong |

## Left out

- Time stamps: `TF` stamps and recording times stay opaque 7-byte values; calendar construction and the merge of several `TF` entries are not modelled, and the long form of `TF` is not acted on by the code.
- Component-level CONTINUE in `SL` records: the code does not act on it, so a component cut over two records gets a separator; agreement with section 4.1.3.1 of RRIP is not claimed for such records.
- `Symlink::new`: it repeats the version logic of `ISOFile::new` and shares its model.
- `root_at`, descriptor string getters, file modes, permission masks, owners and the other attribute getters: short case distinctions that would only add easy members.
- CURRENT, PARENT and HOST flags of `NM` entries: the code does not act on them.
- FUSE plumbing: reply objects become return values, and the room of a `readdir` reply is a number of entries; `getattr`, `readlink` and `getxattr` change no state and are not modelled.
- `Rc`, `RefCell` and operating system errors: one device object and one error value stand for them.
- The `big-endian` and `verbose-error` features, and panics of arithmetic overflow checks in debug builds.
- `Server.Server.Read`: a file whose extent reaches past the end of the image is promised right bytes only as far as the image goes, because the code then returns whatever its buffer held.
- `Files.FileReader.Read`: promises right bytes only on a device without the harmful outcomes of `Files.HarmlessIffCacheKept`, because the code ignores the count of a read.
