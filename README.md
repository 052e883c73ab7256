# magiskboot cpio editor and magiskinit boot-time patching, in Dafny

This project models two pieces of an early Magisk tree.

**The newc cpio ramdisk editor of magiskboot** (`jni/magiskboot/cpio.c`):
- Parsing an archive into a vector of entries sorted by name, and dumping it back.
- Each `cpio` command: `test`, `restore`, `stocksha1`, `backup`, `rm [-r]`, `patch`, `extract`, `mkdir`, `add`.
- The rewrite rules `patch` applies to `init.rc`, to `fstab*` files and to `verity_key`.

**The boot-time helpers of magiskinit** (`jni/init/magiskinit.c`):
- The kernel command-line parser (`parse_cmdline`).
- The `uevent` reader (`parse_device`) and the block-device lookup (`setup_block`).
- The `init.rc` rewrite (`patch_init_rc`) and the in-place rename of the stock policy path in `/init` (the byte loop of `patch_ramdisk`).
- `strend`.

How the model is built:
- Bytes are `char`s, payloads and names are `seq<char>`, and names are kept without their terminating NUL.
- An archive entry is the datatype `Entries.Entry` (name, mode, uid, gid, payload, tombstone).
- The vector the editor mutates is the class `Store.Ramdisk`. `struct device` and `struct cmdline` are the classes `Devices.Device` and `Cmdline.Cmdline`.
- Every loop that updates state is a method proved against a specification function. The lemmas beside each function state what the source promises: round trips, sortedness, first-match rules and sizes.
- Files, directories and the command line reach the model as values:
  - the archive bytes;
  - the bytes of `/init`, `/init.rc` and `/proc/cmdline`;
  - the listing of `/sys/dev/block` with each entry's `uevent` text.
- Fatal exits become `Results.Result` errors or the `Commands.Outcome` record, which holds the exit status, the archive written back, the text printed and the entry extracted.

Module by module:
- `Strings`: the C string functions as functions. `strcmp` order is `Less`/`Cmp`, `strstr` is `Contains`, `strsep` is `Split` and `strtok` is `Tokens`.
- `Hex`: `x8u` and the `%08x` header fields.
- `Entries`: entries, modes, name order and `vec_sort`.
- `Codec`: `parse_cpio` and `dump_cpio`.
- `Store`: the vector operations `cpio_vec_insert`, `cpio_rm`, `cpio_mkdir`, `cpio_add`, `cpio_extract` and `cpio_test`.
- `Patch`: `cpio_patch`.
- `Backup`: `cpio_backup`.
- `Restore`: `cpio_restore`.
- `RestoreView`: what `cpio_restore` leaves under each name, on a vector that holds every name once: the fold of the backups that touch that name.
- `Undo`: `cpio_restore` after `cpio_backup` gives the pristine archive back.
- `StockSha`: `cpio_stocksha1`.
- `Commands`: `cpio_commands`.
- `InitRc`, `InitPatch`, `Scanf`, `Devices` and `Cmdline`: the magiskinit parts.

## Model

| member | source | states |
|---|---|---|
| Strings.Cmp | jni/magiskboot/cpio.c:59-61 | `strcmp` as used for ordering: zero exactly on equal names, negative exactly when the first sorts before the second |
| Strings.LessTotal | jni/magiskboot/cpio.c:59-61 | any two different names are ordered one way or the other, so `cpio_compare` is a total order |
| Strings.LessTransitive | jni/magiskboot/cpio.c:59-61 | the name order is transitive |
| Strings.LessIrreflexive | jni/magiskboot/cpio.c:59-61 | no name sorts before itself |
| Strings.LessAsymmetric | jni/magiskboot/cpio.c:59-61 | two names never sort before each other |
| Strings.SameIsEqual | jni/magiskboot/cpio.c:87-94 | the byte-by-byte `strcmp(...) == 0` test used on record names holds exactly for equal names |
| Strings.ContainsAt | jni/magiskboot/cpio.c:267-268 | `strstr` finds a needle exactly when it occurs at some offset |
| Strings.Find | jni/magiskboot/cpio.c:478 | the `strchr` search returns the first offset of the character, or the length when it is absent |
| Strings.JoinSplit | jni/magiskboot/cpio.c:224-237 | the pieces `strsep` cuts a block into, joined again with the separator, give the block back |
| Strings.SplitJoin | jni/magiskboot/cpio.c:224-237 | pieces free of the separator, joined and cut again, come back unchanged |
| Strings.SplitPiecesFree | jni/magiskboot/cpio.c:224-237 | no piece `strsep` yields contains the separator |
| Strings.NonEmpty | jni/init/magiskinit.c:78-90 | `strtok` yields only non-empty pieces, each one of the `strsep` pieces |
| Hex.SkipZeros | jni/magiskboot/cpio.c:10-13 | skipping leading `0`s succeeds exactly on hex text and yields its value; all zeros yield 0 |
| Hex.LeadingZerosValue | jni/magiskboot/cpio.c:10-13 | leading zeros do not change the value of a hex field |
| Hex.X8u | jni/magiskboot/cpio.c:6-20 | a header field converts exactly when all 8 characters are hex, to its value, below 2^32; otherwise "bad cpio header" |
| Hex.HexBound | jni/magiskboot/cpio.c:6-20 | k hex digits hold a value below 16^k |
| Hex.Digit | jni/magiskboot/cpio.c:115 | each digit `%x` prints reads back as its value |
| Hex.HexDigitsValue | jni/magiskboot/cpio.c:115 | k digits of a number below 16^k read back as that number |
| Hex.Hex8 | jni/magiskboot/cpio.c:115 | `%08x` prints exactly 8 characters |
| Hex.Hex8RoundTrip | jni/magiskboot/cpio.c:115-129 | every field `dump_cpio` prints with `%08x` is read back by `x8u` as the same value |
| Entries.WithKind | jni/magiskboot/cpio.c:171 | `S_IFDIR \| mode` / `S_IFREG \| mode` carries the file-type bits |
| Entries.NewEntry | jni/magiskboot/cpio.c:169-193 | a new `mkdir`/`add` entry has the given name and payload, owner 0:0, is live, and carries the requested file type |
| Entries.InsertByName | jni/magiskboot/cpio.c:104 | one insertion step of the sort adds exactly the entry and loses none |
| Entries.InsertByNameSorted | jni/magiskboot/cpio.c:104 | inserting into a name-sorted vector keeps it sorted |
| Entries.InsertByNameLast | jni/magiskboot/cpio.c:104 | an entry that sorts last goes at the end |
| Entries.SortByName | jni/magiskboot/cpio.c:104 | `vec_sort` returns a permutation of the vector |
| Entries.SortByNameSorted | jni/magiskboot/cpio.c:104 | the result of `vec_sort` is sorted by `cpio_compare` |
| Entries.SortByNameSortedIdentity | jni/magiskboot/cpio.c:104 | sorting an already sorted vector changes nothing |
| Entries.StrictlySortedIsSorted | jni/magiskboot/cpio.c:104 | a vector with strictly increasing names is sorted |
| Entries.Live | jni/magiskboot/cpio.c:113-114 | the entries `dump_cpio` writes are exactly the ones not tombstoned |
| Entries.LiveIndex | jni/magiskboot/cpio.c:113-114 | every written entry comes from the vector |
| Codec.Align4 | jni/magiskboot/cpio.c:86 | `file_align(fd, 4, …)` moves to the next multiple of 4, by fewer than 4 bytes |
| Codec.Align4Shift | jni/magiskboot/cpio.c:86 | alignment counted from a record that starts at a multiple of 4 equals alignment counted in the file |
| Codec.FieldAt | jni/magiskboot/cpio.c:72-82 | each header field is 8 characters |
| Codec.ReadFields | jni/magiskboot/cpio.c:72-82 | the fields read (mode, uid, gid, filesize, namesize) are all below 2^32 |
| Codec.ReadFieldsOf | jni/magiskboot/cpio.c:72-82 | fields printed in hex read back as the printed values |
| Codec.NameOf | jni/magiskboot/cpio.c:84-85 | the name is the bytes before the first NUL of the name field; a field with no NUL is an error |
| Codec.StepIn | jni/magiskboot/cpio.c:69-101 | one record: `.`/`..` are skipped, the trailer stops, others become a live entry; the next record starts at a multiple of 4 |
| Codec.ReadRecord | jni/magiskboot/cpio.c:69-101 | reading one record computes exactly `StepIn` |
| Codec.ParseFrom | jni/magiskboot/cpio.c:64-101 | every entry read is live and has a NUL-free name |
| Codec.ParseFromStep | jni/magiskboot/cpio.c:69-101 | parsing continues after a skipped record and prepends an emitted one |
| Codec.ParseCpioSorted | jni/magiskboot/cpio.c:103-104 | a parsed vector is sorted by name; parsing fails exactly when reading the records fails |
| Codec.ReadCpio | jni/magiskboot/cpio.c:64-105 | the read loop plus the sort produce exactly `ParseCpio` |
| Codec.HexFields | jni/magiskboot/cpio.c:115 | 13 fields print as 8 characters each |
| Codec.HexFieldsAt | jni/magiskboot/cpio.c:115 | field k of the printed header is the `%08x` of value k |
| Codec.HeaderValues | jni/magiskboot/cpio.c:115-129 | the header carries mode, uid and gid, and filesize and namesize as 32-bit values |
| Codec.HeaderText | jni/magiskboot/cpio.c:115-130 | the header written is 110 bytes |
| Codec.HeaderTextField | jni/magiskboot/cpio.c:115-129 | each printed field is the hex of its value |
| Codec.HeaderTextFields | jni/magiskboot/cpio.c:115-129 | a header `dump_cpio` prints parses back as the same mode, owner and sizes |
| Codec.Pad | jni/magiskboot/cpio.c:132 | padding brings the output to the next multiple of 4 |
| Codec.Nuls | jni/magiskboot/cpio.c:132 | padding is k NUL bytes |
| Codec.Frame | jni/magiskboot/cpio.c:130-136 | a written record (header, name, NUL, padding, payload, padding) is a multiple of 4 bytes |
| Codec.Record | jni/magiskboot/cpio.c:113-137 | each written record keeps the output aligned to 4 |
| Codec.Trailer | jni/magiskboot/cpio.c:139-142 | the trailer record keeps the output aligned to 4 |
| Codec.FrameLayout | jni/magiskboot/cpio.c:130-136 | the record holds the header, then the name with its NUL, then the payload at the next multiple of 4 |
| Codec.FrameStep | jni/magiskboot/cpio.c:69-101 | reading a written record gives back its entry, or stops at the trailer |
| Codec.RecordParses | jni/magiskboot/cpio.c:69-137 | a written live entry is read back as the same entry |
| Codec.TrailerParses | jni/magiskboot/cpio.c:91-94 | the written trailer ends parsing with nothing more |
| Codec.DumpRecordsParse | jni/magiskboot/cpio.c:107-137 | the written records read back as the live entries, in order |
| Codec.DumpedRecords | jni/magiskboot/cpio.c:107-144 | a dumped archive reads back as its live entries |
| Codec.DumpParseRoundTrip | jni/magiskboot/cpio.c:64-144 | `parse_cpio(dump_cpio(v))` is the live part of a sorted vector `v` |
| Codec.ParseCpioOf | jni/magiskboot/cpio.c:103-104 | sorting records that are already in order changes nothing |
| Codec.LiveSorted | jni/magiskboot/cpio.c:113-114 | dropping tombstoned entries keeps the order |
| Codec.LiveAppend | jni/magiskboot/cpio.c:113-114 | the live entries of two parts are those of each part, in order |
| Codec.WriteCpio | jni/magiskboot/cpio.c:107-144 | the dump loop writes exactly `DumpCpio`, with inodes counting from 300000 over live entries |
| Store.InsertAt | jni/magiskboot/cpio.c:34-52 | the insertion point is the first entry whose name does not sort before the new one |
| Store.Inserted | jni/magiskboot/cpio.c:30-57 | after `cpio_vec_insert` the new entry is in the vector |
| Store.InsertedExisting | jni/magiskboot/cpio.c:41-45 | an entry with the same name is replaced in place and the size is unchanged |
| Store.InsertedNew | jni/magiskboot/cpio.c:46-56 | a new name is inserted once, after every smaller name and before every larger one, and nothing else moves |
| Store.InsertedSorted | jni/magiskboot/cpio.c:30-57 | insertion keeps the vector sorted |
| Store.InsertedReplace | jni/magiskboot/cpio.c:41-45 | a name match at the insertion point replaces that entry |
| Store.InsertedBefore | jni/magiskboot/cpio.c:46-51 | a larger name at the insertion point shifts the tail one place on |
| Store.InsertedLast | jni/magiskboot/cpio.c:53-56 | with no larger name the entry is appended |
| Store.ShiftEnd | jni/magiskboot/cpio.c:34-54 | the shifting loop plus the final push leave the entry inserted at its place |
| Store.Ramdisk.Insert | jni/magiskboot/cpio.c:30-57 | the vector after the in-place insertion loop is `Inserted(old, n)` |
| Store.Removed | jni/magiskboot/cpio.c:155-167 | `cpio_rm` keeps the length of the vector |
| Store.RemovedMarks | jni/magiskboot/cpio.c:155-167 | only tombstones change: an entry is tombstoned afterwards exactly when it was before or matched (the first exact match, or every name with the prefix under `-r`) |
| Store.RemovedIdempotent | jni/magiskboot/cpio.c:155-167 | removing the same name twice equals removing it once |
| Store.RemovedSorted | jni/magiskboot/cpio.c:155-167 | removal keeps the vector sorted |
| Store.Ramdisk.Rm | jni/magiskboot/cpio.c:155-167 | the in-place tombstoning loop computes `Removed` |
| Store.Ramdisk.Mkdir | jni/magiskboot/cpio.c:169-177 | `mkdir` inserts an empty directory entry with the given mode |
| Store.Ramdisk.Add | jni/magiskboot/cpio.c:179-193 | `add` inserts a regular entry with the given mode and payload |
| Store.Ramdisk.Extract | jni/magiskboot/cpio.c:331-345 | extraction succeeds exactly when a regular entry of that name exists and yields the first one; otherwise "Cannot find the file entry" |
| Store.Ramdisk.Test | jni/magiskboot/cpio.c:195-211 | the status is 2 when another root's file is present, else 1 when `init.magisk.rc` is present, else 0 |
| Store.FlagOther | jni/magiskboot/cpio.c:202-205 | the other-tool flag ends up set exactly when it was set before or the name is one of `OTHER_LIST`; the Magisk flag and the unused bits stay as they were |
| Store.PrefixNames | jni/magiskboot/cpio.c:201-208 | scanning one more entry adds exactly its name to what was seen |
| Store.Ramdisk.constructor | jni/magiskboot/cpio.c:523-525 | the vector starts out as the parsed entries |
| Patch.Kept | jni/magiskboot/cpio.c:266-287 | once injection is settled, the walk never adds lines |
| Patch.RcLinesInjected | jni/magiskboot/cpio.c:267-271 | after an injection the walk only drops `selinux.reload_policy` lines without `import` |
| Patch.RcLinesNoImport | jni/magiskboot/cpio.c:266-287 | an `init.rc` without `import` gets no injected line |
| Patch.RcLinesFirstImport | jni/magiskboot/cpio.c:267-279 | exactly one line is injected, right before the first line containing `import`, and none when that line names `init.magisk.rc` |
| Patch.RcPlainHead | jni/magiskboot/cpio.c:280-286 | a leading line without `import` is kept or dropped on its own |
| Patch.RcDropsHead | jni/magiskboot/cpio.c:280-286 | a dropped line shrinks the size by its length plus one |
| Patch.RcDropsOnlyLine | jni/magiskboot/cpio.c:280-286 | a lone `selinux.reload_policy` line is dropped and costs its length plus one |
| Patch.LinesSize | jni/magiskboot/cpio.c:243-247 | lines written with a newline each take at least one byte per line |
| Patch.SplitSize | jni/magiskboot/cpio.c:224-237 | the `strsep` pieces plus one newline each are one byte more than the block |
| Patch.JoinSize | jni/magiskboot/cpio.c:224-237 | joined lines are one byte shorter than the lines with a newline each |
| Patch.RcDeltaSize | jni/magiskboot/cpio.c:277-283 | the `filesize` bookkeeping (+23 per injection, −len−1 per drop) matches the lines kept |
| Patch.ListToBlock | jni/magiskboot/cpio.c:239-249 | `list_to_block` writes every line followed by a newline |
| Patch.BlockToList | jni/magiskboot/cpio.c:224-237 | `block_to_list` yields no line exactly for an empty payload (never allocated, cpio.c:95-99), and its pieces rejoin to the payload |
| Patch.BlockToListAgrees | jni/magiskboot/cpio.c:224-237 | walking `block_to_list`'s pieces gives the same injection flag, size change and patched payload as walking the `strsep` split, empty payload included |
| Patch.RcSizeExact | jni/magiskboot/cpio.c:239-283 | the tracked size equals the joined kept lines, and `list_to_block` writes one byte more than that size for a non-empty payload and nothing for an empty one |
| Patch.RcSizeWraps | jni/magiskboot/cpio.c:283 | when every line is dropped the unsigned size wraps to 0xFFFFFFFF |
| Patch.PatchRcLines | jni/magiskboot/cpio.c:266-287 | the line walk computes `RcLines`, and the size modulo 2^32 |
| Patch.InjectLineMarks | jni/magiskboot/cpio.c:267-271 | the injected line starts with `import`, names `init.magisk.rc` and holds no newline |
| Patch.KeptKept | jni/magiskboot/cpio.c:280-286 | once injected, dropping `selinux.reload_policy` lines a second time drops nothing more |
| Patch.RcLinesIdempotent | jni/magiskboot/cpio.c:266-287 | walking the lines a walk produced, from the same flag, gives the same lines and flag: nothing is injected twice |
| Patch.RcLinesFree | jni/magiskboot/cpio.c:224-237 | the walk's lines hold no newline when the `strsep` pieces hold none |
| Patch.RcLinesEmpty | jni/magiskboot/cpio.c:266-287 | a walk that keeps no line met no `import` line, so the flag is unchanged |
| Patch.RcWalkIdempotent | jni/magiskboot/cpio.c:264-290 | re-patching a patched `init.rc` payload gives the same payload and the same injection flag |
| Patch.DelimAt | jni/magiskboot/cpio.c:219 | the value scan stops at the first space, newline or comma |
| Patch.Lead | jni/magiskboot/cpio.c:215 | one leading comma is allowed |
| Patch.VerityPattern | jni/magiskboot/cpio.c:213-222 | −1 exactly when no `verify` starts at the position (after an optional comma); otherwise the length of `[,]verify[=value]` |
| Patch.VerityPatternValue | jni/magiskboot/cpio.c:213-222 | the option found is `verify`, optionally `=` and a delimiter-free value ending at a delimiter or the end |
| Patch.VerityStripped | jni/magiskboot/cpio.c:296-304 | the compaction never lengthens an fstab payload |
| Patch.VerityStrippedNone | jni/magiskboot/cpio.c:296-304 | an fstab without `verify` is left as it is |
| Patch.VerityStrippedAsWritten | jni/magiskboot/cpio.c:296-304 | the compaction as written, copying the byte past the payload when an option ends it |
| Patch.VerityOverRead | jni/magiskboot/cpio.c:296-304 | a payload `verify` becomes one stray byte as written, and empty once corrected |
| Patch.VerityStep | jni/magiskboot/cpio.c:297-302 | one turn of the compaction loop is one step of `VerityStripped` |
| Patch.StripVerity | jni/magiskboot/cpio.c:296-304 | the in-place loop leaves `VerityStripped` of the payload in the first `w` bytes |
| Patch.EncryptMatch | jni/magiskboot/cpio.c:313-321 | 0 exactly when no word of `ENCRYPT_LIST` starts here; otherwise the length of the first one that does |
| Patch.EncryptReplaced | jni/magiskboot/cpio.c:312-324 | the rewrite never lengthens an fstab payload |
| Patch.EncryptReplacedNone | jni/magiskboot/cpio.c:312-324 | an fstab with none of the words is left as it is |
| Patch.EncryptReplacedAsWritten | jni/magiskboot/cpio.c:312-324 | the rewrite as written, copying the byte past the payload when a word ends it |
| Patch.EncryptOverRead | jni/magiskboot/cpio.c:312-324 | a payload `forceencrypt` gains a stray byte as written, and becomes exactly `encryptable` once corrected |
| Patch.EncryptStep | jni/magiskboot/cpio.c:313-322 | one turn of the rewrite loop is one step of `EncryptReplaced` |
| Patch.EncryptWordAt | jni/magiskboot/cpio.c:313-321 | the inner loop over `ENCRYPT_LIST` computes `EncryptMatch` |
| Patch.WriteWord | jni/magiskboot/cpio.c:315 | the `memcpy` of `encryptable` writes those 11 bytes and leaves the unread tail alone |
| Patch.ReplaceEncrypt | jni/magiskboot/cpio.c:312-324 | the in-place loop leaves `EncryptReplaced` of the payload in the first `w` bytes |
| Patch.EncryptTurn | jni/magiskboot/cpio.c:313-322 | one turn of the loop moves the read position forward and keeps the bytes written so far plus `EncryptReplaced` of the unread rest equal to the final payload |
| Patch.VerityKeyIsNotFstab | jni/magiskboot/cpio.c:295-305 | `verity_key` never takes the fstab branch |
| Patch.PatchedEntry | jni/magiskboot/cpio.c:264-327 | one entry: names, modes and owners are kept, only `verity_key` is tombstoned (when verity is not kept), and only `init.rc` and fstab payloads change; fstab payloads never grow |
| Patch.PatchedEntries | jni/magiskboot/cpio.c:263-328 | the patch keeps the vector's length |
| Patch.PatchedEntriesShape | jni/magiskboot/cpio.c:263-328 | the per-entry facts hold at every index of the vector |
| Patch.PatchedKeepsSorted | jni/magiskboot/cpio.c:263-328 | the patch keeps the vector sorted |
| Patch.PatchedKeepAll | jni/magiskboot/cpio.c:293-326 | with both options kept and no `init.rc`, the patch changes nothing |
| Patch.PatchEntry | jni/magiskboot/cpio.c:264-327 | the per-entry body, run on a buffer copy of the payload and on `block_to_list`'s lines, computes `PatchedEntry` |
| Patch.PatchRamdisk | jni/magiskboot/cpio.c:256-329 | `cpio_patch` leaves `PatchedEntries` of the old vector, carrying the injection flag across entries |
| Patch.PatchedInitRcIdempotent | jni/magiskboot/cpio.c:264-290 | `patch` applied to its own `init.rc` result returns that result and flag again |
| Backup.Changed | jni/magiskboot/cpio.c:389-400 | at most one backup per pristine entry |
| Backup.AddedNames | jni/magiskboot/cpio.c:401-409 | at most one `.rmlist` name per working entry |
| Backup.WalkDiff | jni/magiskboot/cpio.c:374-420 | on strictly sorted archives, the merge walk backs up exactly the pristine entries missing from the working archive or differing in payload, and lists exactly the live working names the pristine archive lacks |
| Backup.WalkDiffSame | jni/magiskboot/cpio.c:394-400 | an entry present on both sides is backed up only when its payload differs |
| Backup.TerminatedCons | jni/magiskboot/cpio.c:405-407 | each recorded name is appended to `.rmlist` followed by its NUL |
| Backup.WithBackups | jni/magiskboot/cpio.c:422-432 | the vector gains the `.backup` directory, `.backup/.rmlist` and the backups |
| Backup.RemovedStrictlySorted | jni/magiskboot/cpio.c:362-363 | tombstoning old `.backup` entries keeps names strictly ordered |
| Backup.BackupResultContents | jni/magiskboot/cpio.c:347-439 | the result is sorted and is a permutation of the working vector plus `.backup`, `.rmlist` and the walk's backups |
| Backup.WalkLoop | jni/magiskboot/cpio.c:374-420 | the index loop over both vectors computes `Walk` |
| Backup.BackupRamdisk | jni/magiskboot/cpio.c:347-439 | `cpio_backup` leaves `BackupResult` of the old vector and the pristine entries |
| Restore.Restored | jni/magiskboot/cpio.c:454-461 | a restored copy keeps payload, mode and owner, is live, and drops the `.backup/` prefix |
| Restore.RestoreUndoesBackup | jni/magiskboot/cpio.c:454-461 | restoring a backed-up entry gives the original entry back, live |
| Restore.RmNamesTerminated | jni/magiskboot/cpio.c:450-451 | the names `restore` reads from `.rmlist` are exactly the NUL-free names `backup` wrote there |
| Restore.RmAll | jni/magiskboot/cpio.c:450-451 | removing the listed names keeps the vector's length |
| Restore.BackupLength | jni/magiskboot/cpio.c:445-458 | a name containing `.backup` other than `.backup` is at least 8 bytes, so stripping the prefix is in bounds |
| Restore.Count | jni/magiskboot/cpio.c:444-446 | the number of backup entries is at most the length |
| Restore.CountExists | jni/magiskboot/cpio.c:443-446 | `ret` becomes 0 exactly when some entry's name contains `.backup` |
| Restore.StepReady | jni/magiskboot/cpio.c:444-465 | each turn keeps the loop's precondition and makes progress |
| Restore.LoopStep | jni/magiskboot/cpio.c:444-465 | one turn of the loop keeps the backup count and moves on by one |
| Restore.StepLength | jni/magiskboot/cpio.c:444-465 | a turn never shrinks the vector |
| Restore.StepTombstoned | jni/magiskboot/cpio.c:445-447 | each backup visited is tombstoned |
| Restore.RestoreFromFacts | jni/magiskboot/cpio.c:444-465 | the loop leaves a sorted vector, no shorter, with every backup tombstoned |
| Restore.RestoreResult | jni/magiskboot/cpio.c:441-471 | after restore the vector is sorted, no shorter, and every `.backup` entry is tombstoned |
| Restore.RestoreAt | jni/magiskboot/cpio.c:445-463 | the body for one entry computes `RestoreStep` |
| Restore.RemoveListed | jni/magiskboot/cpio.c:449-452 | the `.rmlist` loop removes exactly the listed names, in order |
| Restore.RemoveNameAt | jni/magiskboot/cpio.c:450-451 | one turn of the `.rmlist` loop advances past one name |
| Restore.Strlen | jni/magiskboot/cpio.c:450 | `strlen` within the payload: the NUL-free run from the position |
| Restore.StrlenFind | jni/magiskboot/cpio.c:450 | that length is the first NUL offset |
| Restore.ListedStep | jni/magiskboot/cpio.c:450-451 | removing one listed name and moving past it preserves what remains to be removed |
| Restore.RestoreLoop | jni/magiskboot/cpio.c:444-465 | the loop computes `RestoreFrom`, and returns 0 exactly when a backup exists |
| Restore.RestoreRamdisk | jni/magiskboot/cpio.c:441-471 | `cpio_restore` leaves `RestoreResult` and returns 0 exactly when some entry is a backup, else 1 |
| RestoreView.Slot | jni/magiskboot/cpio.c:441-471 | the entry found under a name is an entry of the vector with that name |
| RestoreView.Touch | jni/magiskboot/cpio.c:445-463 | a visited backup tombstones its own name and the names of `.rmlist`, restores its name without the prefix, and leaves every other name alone |
| RestoreView.StepSlot | jni/magiskboot/cpio.c:445-463 | one turn of the loop changes the entry under a name exactly as `Touch` says, and keeps every name once |
| RestoreView.InsertedSlot | jni/magiskboot/cpio.c:463 | `cpio_vec_insert` puts the entry under its name, replacing any entry there, and leaves other names alone |
| RestoreView.TombSlot | jni/magiskboot/cpio.c:447 | tombstoning the visited entry kills its name only |
| RestoreView.RmAllSlot | jni/magiskboot/cpio.c:450-451 | the `.rmlist` loop kills exactly the listed names |
| RestoreView.RemovedSlot | jni/magiskboot/cpio.c:467-469 | `cpio_rm(0, name, v)` kills the entry under that name and leaves other names alone |
| RestoreView.LoopSlot | jni/magiskboot/cpio.c:444-465 | the whole loop leaves under each name the fold of the backups it visits, in vector order, over the entry that was there |
| RestoreView.ResultSlot | jni/magiskboot/cpio.c:441-471 | after `cpio_restore` each name holds that fold, tombstoned when it is one of the three leftovers |
| RestoreView.RestoredComesBack | jni/magiskboot/cpio.c:454-463 | a restorable backup that no later backup touches comes back live under its name without `.backup/`, with the backup's payload, mode and owner |
| RestoreView.ListedRemoved | jni/magiskboot/cpio.c:449-452 | every name `.backup/.rmlist` lists is dead afterwards unless a later backup restores it |
| RestoreView.LeftoversRemoved | jni/magiskboot/cpio.c:467-469 | `sbin/magic_mask.sh`, `init.magisk.rc` and `magisk` are dead afterwards |
| RestoreView.BackupsRemoved | jni/magiskboot/cpio.c:445-447 | every entry whose name contains `.backup` is dead afterwards |
| RestoreView.EffectOnlyRestorer | jni/magiskboot/cpio.c:444-465 | when one backup alone touches a name and it restores it, the name holds the restored copy |
| RestoreView.EffectKilledIn | jni/magiskboot/cpio.c:444-465 | when some backup kills a name and none restores it, the name ends dead |
| Undo.StagedDistinct | jni/magiskboot/cpio.c:405-425 | the working entries, `.backup`, `.backup/.rmlist` and the renamed pristine entries all have different names |
| Undo.SortByNameDistinct | jni/magiskboot/cpio.c:435 | sorting keeps every name once |
| Undo.BackedUpReady | jni/magiskboot/cpio.c:347-439 | the vector `cpio_backup` leaves is strictly sorted and meets the restore loop's precondition, with every restorable backup sorting before its restored name |
| Undo.ListReadsBack | jni/magiskboot/cpio.c:449-451 | `cpio_restore` reads back from `.rmlist` exactly the names `cpio_backup` recorded |
| Undo.KeptName | jni/magiskboot/cpio.c:394-397 | a pristine entry whose payload the working archive already holds is not backed up, and the working entry stays |
| Undo.RestoredName | jni/magiskboot/cpio.c:454-463 | a pristine entry missing or changed in the working archive comes back exactly as it was |
| Undo.GoneName | jni/magiskboot/cpio.c:445-452 | a name the pristine archive lacks is dead after the round trip |
| Undo.BackupThenRestore | jni/magiskboot/cpio.c:347-471 | backup then restore: every pristine name holds a live entry with the pristine payload (the pristine entry itself when it was backed up), and no other name is live |
| Undo.BackupThenRestoreLive | jni/magiskboot/cpio.c:347-471 | the entries left live are exactly the pristine names, each with its pristine payload |
| StockSha.ScanFindsFirstLine | jni/magiskboot/cpio.c:478-486 | the corrected scan returns nothing exactly when no line starts with `# STOCKSHA1=`; otherwise the 40 bytes after the first such line's prefix |
| StockSha.MatchHere | jni/magiskboot/cpio.c:479-484 | a line starting with the prefix yields its digest |
| StockSha.SkipLine | jni/magiskboot/cpio.c:478 | across a line without the prefix, neither the absence of a prefixed line nor the first prefixed line changes |
| StockSha.ScanSkips | jni/magiskboot/cpio.c:478 | the scan passes over a line without the prefix to the next line start |
| StockSha.EmptyLineHidesNext | jni/magiskboot/cpio.c:478 | as written, an empty line makes the scan skip the following line |
| StockSha.StockShaOf | jni/magiskboot/cpio.c:473-489 | a digest printed comes from an `init.magisk.rc` entry; nothing is printed exactly when no such entry has one |
| StockSha.StockSha1 | jni/magiskboot/cpio.c:473-489 | the loop over the vector computes `StockShaOf` |
| StockSha.StockShaStep | jni/magiskboot/cpio.c:476-488 | the first `init.magisk.rc` with a digest wins |
| StockSha.ScanLines | jni/magiskboot/cpio.c:478-486 | the line loop computes the corrected `Scan` |
| StockSha.ScanTurn | jni/magiskboot/cpio.c:478-486 | one line of the loop either ends the scan with `Scan` of the position, or moves to a later line start with the same `Scan` result |
| StockSha.StartsWithSha | jni/magiskboot/cpio.c:479 | the `memcmp` test holds exactly when the text from the position starts with `# STOCKSHA1=` |
| StockSha.NextNewline | jni/magiskboot/cpio.c:478 | the next newline at or after the position, or the payload end |
| StockSha.ScanMatch | jni/magiskboot/cpio.c:479-484 | a prefix at the position yields its digest |
| StockSha.ScanStep | jni/magiskboot/cpio.c:478 | without a prefix the scan goes on after the next newline, or ends |
| Commands.Select | jni/magiskboot/cpio.c:497-522 | each command is chosen exactly for its name and argument count; `rm -r x` sets the recursive flag and drops `-r`; anything else is NONE; the chosen command always has its arguments |
| Commands.OctalRun | jni/magiskboot/cpio.c:548 | `strtoul(…, 8)` reads the leading octal digits |
| Commands.OctalDigits | jni/magiskboot/cpio.c:548 | k octal digits of a number |
| Commands.OctalRoundTrip | jni/magiskboot/cpio.c:548 | k octal digits of a number below 8^k read back as it |
| Commands.OctalRunStops | jni/magiskboot/cpio.c:548 | the run stops at the first non-octal character |
| Commands.ModeArgRoundTrip | jni/magiskboot/cpio.c:548-551 | a 32-bit mode written in octal, followed by anything but an octal digit, is the mode `mkdir`/`add` receive |
| Commands.ModeArgEleven | jni/magiskboot/cpio.c:548-551 | any 32-bit mode written as 11 octal digits is read back |
| Commands.Pow8 | jni/magiskboot/cpio.c:548 | powers of 8 are positive |
| Commands.Dispatch | jni/magiskboot/cpio.c:526-558 | each command's outcome: `test` exits with the test status; `restore` dumps the restored vector with status 0 exactly when a backup existed; `stocksha1` prints the digest and dumps nothing; `backup` falls through to `rm` of its argument; `rm`, `patch`, `mkdir`, `add` dump the edited vector; `extract` yields the first regular match or exits 1; NONE exits 1 |
| Commands.Run | jni/magiskboot/cpio.c:491-559 | an unreadable archive exits with 1; otherwise the outcome meets the dispatched command's rule on the parsed, sorted vector |
| Commands.Written | jni/magiskboot/cpio.c:556-558 | the archive is dumped from the edited vector and the process exits with `ret` |
| InitRc.FirstImport | jni/init/magiskinit.c:133 | the first line starting with `import`, or the line count |
| InitRc.RewriteAfter | jni/init/magiskinit.c:132-148 | once injected, every line is kept except those containing `selinux.reload_policy` |
| InitRc.RewriteShape | jni/init/magiskinit.c:132-148 | the output is the lines before the first `import` line (reload lines dropped), the injected line unless that line names `init.magisk.rc`, that line itself, then the rest |
| InitRc.SkipFirst | jni/init/magiskinit.c:141-147 | a non-`import` first line is written or dropped on its own |
| InitRc.SplitTotal | jni/init/magiskinit.c:132 | the `strsep` lines' lengths plus their count is the size plus one |
| InitRc.RewriteLength | jni/init/magiskinit.c:132-148 | each line costs at most its length plus one, and injection at most 23 bytes once |
| InitRc.InitRcFits | jni/init/magiskinit.c:126-152 | the output always fits `*size + 24` bytes |
| InitRc.InitRcOverflow | jni/init/magiskinit.c:128 | for `import\n` the output is 31 bytes, one more than the 30 allocated as written |
| InitRc.Put | jni/init/magiskinit.c:137-138 | `strcpy` at `pos` appends the string to what was written |
| InitRc.CopyLine | jni/init/magiskinit.c:133-147 | the loop body appends exactly the line's rewrite |
| InitRc.RewriteCons | jni/init/magiskinit.c:132-148 | one turn of the loop is one step of `Rewrite` |
| InitRc.PatchInitRc | jni/init/magiskinit.c:126-152 | the new buffer holds, in its first `size` bytes, exactly the rewritten file described by `RewriteShape` |
| InitRc.WriteLines | jni/init/magiskinit.c:132-148 | the line loop writes exactly the rewritten file into the buffer |
| InitRc.LineGroupBlock | jni/init/magiskinit.c:134-147 | one line's output is its kept lines, each followed by a newline |
| InitRc.RewriteBlock | jni/init/magiskinit.c:132-148 | the whole output is the kept lines, each followed by a newline |
| InitRc.SplitBlock | jni/init/magiskinit.c:132 | cutting that output at newlines gives back the kept lines plus the empty piece after the last newline |
| InitRc.KeptMarked | jni/init/magiskinit.c:133-140 | the first `import` line written names `init.magisk.rc` |
| InitRc.KeptTwice | jni/init/magiskinit.c:132-148 | keeping the kept lines again changes nothing when the first `import` line is not dropped |
| InitRc.RewrittenLines | jni/init/magiskinit.c:126-152 | the rewritten file is the kept lines with newlines, and cuts back into them |
| InitRc.RewriteTwiceNoMarker | jni/init/magiskinit.c:133-140 | a second run injects nothing: its first `import` line names `init.magisk.rc` |
| InitRc.RewriteTwice | jni/init/magiskinit.c:126-152 | a second run writes the first run's file back plus one newline for the empty last piece |
| InitPatch.FirstMatch | jni/init/magiskinit.c:158-159 | the first offset where the stock policy path occurs, or the size |
| InitPatch.FirstMatchFrom | jni/init/magiskinit.c:158-159 | the first occurrence at or after an offset |
| InitPatch.Patched | jni/init/magiskinit.c:158-163 | the patch keeps the size of `/init` |
| InitPatch.PatchedKeeps | jni/init/magiskinit.c:158-163 | nothing changes exactly when the path does not occur; otherwise only the 3 extension bytes of the first occurrence change |
| InitPatch.RenameAt | jni/init/magiskinit.c:158-161 | renaming an occurrence changes the text, and only in the 3 extension bytes |
| InitPatch.PatchedMovesOn | jni/init/magiskinit.c:158-163 | after the patch the first occurrence is gone and no earlier one appears |
| InitPatch.NoMatchOverX | jni/init/magiskinit.c:159-160 | a window whose extension covers a renamed `x` cannot match `.cil` |
| InitPatch.SameWindow | jni/init/magiskinit.c:159-160 | windows ending before the renamed bytes are unchanged |
| InitPatch.Rename | jni/init/magiskinit.c:160 | the `memcpy` replaces exactly the 37 bytes at the offset |
| InitPatch.PatchInit | jni/init/magiskinit.c:158-163 | the loop leaves `/init` as `Patched` of its old bytes |
| InitPatch.Strend | jni/init/magiskinit.c:177-181 | 0 exactly when the first string ends with the second |
| Scanf.SpaceRun | jni/init/magiskinit.c:85 | `%s` first skips the leading white space |
| Scanf.WordRun | jni/init/magiskinit.c:85 | `%s` reads up to the next white space |
| Scanf.ScanString | jni/init/magiskinit.c:85-87 | a converted `%s` is a non-empty word without white space |
| Scanf.ScanStringWord | jni/init/magiskinit.c:85-87 | a word after white space and before white space or the end is read back by `%s` |
| Scanf.DigitRun | jni/init/magiskinit.c:81-83 | `%ld` reads the leading decimal digits |
| Scanf.DecimalText | jni/init/magiskinit.c:81-83 | a number printed in decimal is non-empty digits |
| Scanf.DecimalTextValue | jni/init/magiskinit.c:81-83 | decimal digits of a number read back as it |
| Scanf.ScanDecimalText | jni/init/magiskinit.c:81-83 | a number in decimal followed by a non-digit is read back by `%ld` |
| Devices.Convert | jni/init/magiskinit.c:81-87 | `MAJOR`/`MINOR` give numbers and `DEVNAME`/`PARTNAME` give words, and only after the literal `KEY=` |
| Devices.Setting | jni/init/magiskinit.c:80-88 | each line sets at most the field its key selects, with a value of that field's kind |
| Devices.LastSetting | jni/init/magiskinit.c:78-90 | nothing exactly when no line sets the field |
| Devices.LastSettingIs | jni/init/magiskinit.c:78-90 | the value of the last line that sets a field wins |
| Devices.ApplyField | jni/init/magiskinit.c:80-88 | one line changes a field only if it sets it, and never touches `path` |
| Devices.ParseAllLast | jni/init/magiskinit.c:76-91 | after `parse_device`, each field holds the last value a line set, or keeps its old value; `path` is untouched |
| Devices.Device.ParseLine | jni/init/magiskinit.c:80-88 | one line updates the device in place as `Apply` says |
| Devices.Device.ParseDevice | jni/init/magiskinit.c:76-91 | `parse_device` leaves `ParseAll` of the old fields over the `strtok` lines |
| Devices.LookupFirst | jni/init/magiskinit.c:100-114 | the first non-dot entry whose parsed partition name matches stops the loop; the device is the state built up to it, with path `/dev/block/<devname>` |
| Devices.LookupNone | jni/init/magiskinit.c:100-118 | with no match every entry is parsed into the same device and the lookup fails |
| Devices.StaleDevname | jni/init/magiskinit.c:108-110 | the reused device: a matching `uevent` with no `DEVNAME=` line gets its path from an earlier entry's name |
| Devices.StateShift | jni/init/magiskinit.c:100-108 | the state after k+1 entries is the state after k entries of the rest |
| Devices.SetupBlock | jni/init/magiskinit.c:93-124 | a missing directory gives 1 and leaves the device alone; otherwise the device is `Lookup`'s state and the result is 0 exactly on a match |
| Devices.Device.constructor | jni/init/magiskinit.c:310-311 | the device starts with whatever fields it is given |
| Cmdline.SlotArg | jni/init/magiskinit.c:66-67 | a slot is set only by `androidboot.slot_suffix=` followed by a non-empty word |
| Cmdline.LastSlot | jni/init/magiskinit.c:65-73 | nothing exactly when no word sets a slot |
| Cmdline.LastSlotIs | jni/init/magiskinit.c:65-73 | the last word that sets a slot wins |
| Cmdline.Blanked | jni/init/magiskinit.c:63 | newlines read as spaces and nothing else changes |
| Cmdline.SplitSnoc | jni/init/magiskinit.c:63 | a trailing separator adds only an empty last piece |
| Cmdline.NonEmptySnoc | jni/init/magiskinit.c:63 | an empty last piece adds no token |
| Cmdline.TrailingNewlineIgnored | jni/init/magiskinit.c:63-73 | the corrected tokens of `text\n` are those of `text` |
| Cmdline.NoNewlineAsWritten | jni/init/magiskinit.c:63-73 | without newlines the corrected tokens are exactly those `strtok(buffer, " ")` yields |
| Cmdline.OneWord | jni/init/magiskinit.c:63 | a word without separators is the only token |
| Cmdline.LastWord | jni/init/magiskinit.c:63-73 | a final word followed by the kernel's newline keeps the newline as written, and loses it once corrected |
| Cmdline.TrailingNewlineHidesSkip | jni/init/magiskinit.c:68-70 | a command line ending in `skip_initramfs` does not set the flag as written, and sets it once corrected |
| Cmdline.Cmdline.ParseWord | jni/init/magiskinit.c:66-71 | one word sets the slot if it carries one, else sets the flag if it is exactly `skip_initramfs` |
| Cmdline.Cmdline.Parse | jni/init/magiskinit.c:53-74 | the flag is 1 exactly when some word is `skip_initramfs` (else 0), and the slot is the last one set (else empty) |
| Cmdline.Cmdline.ParseWords | jni/init/magiskinit.c:65-73 | over the words, the flag is 1 exactly when some word is `skip_initramfs`, and the slot is the last one set |

## Left out

- I/O is not modelled:
  - opening, reading, writing, `mmap`/`munmap`, `mount`/`umount`, `mkdir`, `mknod`, `fchmod`/`fchown`, `exit`, and the messages printed to stderr;
  - the archive, `/init`, `/init.rc`, `/proc/cmdline`, the `uevent` texts and the `/sys/dev/block` listing are parameters;
  - the results are returned as values;
  - the pristine archive of `backup` and the file read by `add` are parameters too.
- Memory management is left out: `cpio_free`, `cpio_vec_destroy`, `free_newline` and the list nodes.
- Hex.X8u: `sscanf("%Nx")` also accepts leading white space, a sign and a `0x` prefix inside a field; the model accepts hex digits only.
- Codec.ParseFrom: reads of names, payloads and C strings are bounded by the data present. A name field with no NUL, or a record cut off by the end of the file, is an error instead of an over-read. The `070701` magic is not checked, as in the source.
- Codec.NameOf: keeps only the bytes before the first NUL of the name field. The source keeps the whole field of `namesize` bytes (cpio.c:84-85), so bytes after that NUL are lost: the field `abc\0\0\0` with namesize 6 becomes the name `abc`.
- Codec.Record: writes `namesize` as the name length plus 1, where the source writes the stored `namesize` and that many bytes of the field (cpio.c:127, 131). The two differ only for a name field with bytes after its first NUL: `abc\0\0\0` is written back with namesize 4 instead of 6.
- Entries.SortByName: `qsort` is not stable. The model sorts stably, so the order of equal names may differ from the source's.
- Restore.RestoreRamdisk: requires that the vector is sorted, that every backup sorts before its restored name, and that no restored name contains `.backup`. The source does not require this. Without it, the copy inserted inside the loop can land at or before the cursor, and the model does not cover that order.
- Commands.Run: inherits `RestoreRamdisk`'s precondition for the `restore` command.
- Commands.Dispatch: inherits the same precondition for the `restore` command.
- Restore.RestoreLoop: has the same precondition as `RestoreRamdisk`.
- Restore.RestoreResult: its own contract states order, length and the tombstoned backups only. What each name holds afterwards (restored copies, names listed in `.rmlist`, the three leftovers) is stated by `RestoreView.ResultSlot` and the lemmas after it, for vectors that hold every name once.
- Undo.BackupThenRestore: the round trip is proved for archives as `parse_cpio` leaves them, with every name at most once in each archive (strictly sorted), names free of `.backup` and NUL, every pristine name sorting after its backup name, and no pristine name that is `.rmlist` or one of the three leftovers. Outside these hypotheses it fails:
  - `parse_cpio` keeps duplicate records: with the pristine archive `[a:"1", a:"2"]` and the working archive `[a:"1"]`, the walk matches the first `a` and backs up only `a:"2"` (cpio.c:377-395), and restore's insert-or-replace leaves one live `a:"2"`, so the pristine `a:"1"` never comes back;
  - with the pristine archive `[init.magisk.rc]` and an empty working archive, the backup is restored and then removed by the final `cpio_rm` (cpio.c:468), so nothing is live (`RestoreView.LeftoversRemoved`);
  - a pristine entry named `.rmlist` would be backed up under the list's own name;
  - an entry whose payload matches but whose mode or owner differs is not backed up, because cpio.c:396 compares only size and bytes, so the working mode and owner stay (the third clause of the lemma's ensures).
- Commands.ModeArg: the leading white space and sign that `strtoul` accepts are not modelled. `mode_t` is taken as 32 bits.
- Patch.PatchEntry: the 32-bit size that the `init.rc` walk tracks is computed and then discarded. The payload kept is the joined lines; see Findings.
- Strings.Split: `strsep` and `strtok` are computed up front over the whole text instead of one piece per call, and they never see NUL bytes inside the text. A NUL inside `init.rc` or a `uevent` would end the C string early.
- StockSha.ShaAt: `memcmp`/`memcpy` past the payload end take only the bytes present. The digest is printed as a string of up to 40 bytes, whereas `printf` stops at a NUL.
- InitPatch.PatchInit: the source's `memcmp` reads up to 36 bytes past the end of `/init` near its tail; the model only matches windows that fit.
- InitPatch.Strend: requires `s2` to be no longer than `s1`. The address arithmetic of the source reads before `s1` otherwise. Its callers pass directory entries such as `.` that are shorter than the suffix; those callers are not part of this model.
- InitRc.PatchInitRc: the mapped `init.rc` is treated as ending at its size. The source runs `strsep` over a mapping with no terminating NUL.
- InitRc.RewriteTwice: requires `Settles`. When the file's first `import` line mentions `selinux.reload_policy` but not `init.magisk.rc`, the first run writes it after the injected line and the second run drops it. The file then changes again on the second run, beyond the extra newline.
- Scanf.ScanDecimal: `%ld` also accepts a sign, overflows `long`, and stores through `long *` into `dev_t`. The model reads unsigned unbounded digits.
- Devices.Device.ParseLine: buffer sizes are not modelled:
  - `devname` and `partname` are 32-byte buffers that a long word overflows;
  - `path` is truncated at 64 bytes by `snprintf`;
  - a `uevent` longer than 1023 bytes is cut by the read;
  - a failed read writes `buffer[-1]`.
- Cmdline.Cmdline.Parse: the 3-byte `slot` buffer is overflowed by a longer suffix and that is not modelled. A 4096-byte command line makes `buffer[size]` write past the buffer.
- The rest of magiskinit (policy loading, mounts, `compile_cil`, `main`) and the rest of magiskboot are not part of this model.

## Findings

| source | as written | input that shows it | evidently intended | confidence | as-written member | corrected member |
|---|---|---|---|---|---|---|
| jni/magiskboot/cpio.c:239-249 | `list_to_block` writes a newline after every `strsep` piece, including the last one, into `xmalloc(filesize)`: filesize + 1 bytes | any non-empty `init.rc` run through `patch`, e.g. `on boot\n` (an empty one has no line and writes nothing) | a buffer of filesize bytes holding the kept lines joined by newlines | not executed; high | Patch.ListToBlock, Patch.RcSizeExact | Patch.RcPayload, Patch.RcSizeExact, Patch.PatchedEntry |
| jni/magiskboot/cpio.c:283 | `f->filesize -= strlen(line) + 1` on a `uint32_t` wraps when every line is dropped | `init.rc` holding only `selinux.reload_policy`, with no newline: the size becomes 0xFFFFFFFF | size 0 and an empty payload | not executed; high | Patch.PatchRcLines, Patch.RcSizeWraps | Patch.RcPayload, Patch.PatchedEntry |
| jni/magiskboot/cpio.c:296-304 | after skipping a `verify` option that ends the payload, `f->data[write] = f->data[read]` copies the byte past the end and counts it | fstab payload `verify` | the option removed and nothing else: an empty payload | not executed; high | Patch.VerityStrippedAsWritten, Patch.VerityOverRead | Patch.VerityStripped, Patch.StripVerity |
| jni/magiskboot/cpio.c:312-324 | after replacing a word that ends the payload, the byte past the end is copied and counted | fstab payload `forceencrypt` | exactly `encryptable` | not executed; high | Patch.EncryptReplacedAsWritten, Patch.EncryptOverRead | Patch.EncryptReplaced, Patch.ReplaceEncrypt |
| jni/magiskboot/cpio.c:478 | `pos = strchr(pos + 1, '\n') + 1` starts the search one byte past the line start, so an empty line swallows the next line | `init.magisk.rc` = `\n# STOCKSHA1=x` | every line checked for the prefix; prints `x` | not executed; high | StockSha.ScanAsWritten, StockSha.EmptyLineHidesNext | StockSha.Scan, StockSha.ScanFindsFirstLine, StockSha.ScanLines |
| jni/init/magiskinit.c:128 | `malloc(*size + 23)`, but a rewrite that injects and drops nothing writes `*size + 24` bytes: there is one more line than newlines, and each line gets a newline | `init.rc` = `import\n`: 31 bytes written into 30 | a buffer of `*size + 24` bytes | not executed; high | InitRc.AllocatedAsWritten, InitRc.InitRcOverflow | InitRc.Allocated, InitRc.InitRcFits, InitRc.PatchInitRc |
| jni/init/magiskinit.c:63-73 | `/proc/cmdline` is split on spaces only. The kernel ends it with a newline, so a last word `skip_initramfs` reaches `strcmp` as `skip_initramfs\n` | `/proc/cmdline` = `skip_initramfs\n` | the newline treated as a separator, so the flag is set | not executed; medium (depends on the kernel's trailing newline) | Cmdline.CmdlineTokensAsWritten, Cmdline.TrailingNewlineHidesSkip | Cmdline.CmdlineTokens, Cmdline.TrailingNewlineIgnored, Cmdline.Cmdline.Parse |
