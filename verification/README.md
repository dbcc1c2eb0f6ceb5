# Models of update-flash, ubootenv, libdigi, the OpenGL ES helpers, btconfig and v4l2_still

A Dafny project about the algorithms of this repository's board tools. It states what each of
them is for and proves it for all inputs.

Flash, environment and checksum

- `Checksum.dfy`: CRC-32 (section 8 of RFC 1952). The reference is a shift register fed bit by
  bit; the table-driven loop is proved against it. Streaming and error detection follow.
- `Strides.dfy`, `MtdLayout.dfy`, `MtdDevice.dfy`: a partition is an array of bytes with a fixed
  bad-block map. Erasing sets a block to 0xff, programming ANDs bits. `Layout.Logical` is the
  one mapping from flash offsets to file offsets on which all loops of the updater agree.
- `UpdateFlash.dfy`: `MtdPartition` has the fields of `mtdPartition_t` and one method per
  function of update_flash.c: erase by block, write and verify by page, checksum by block.
  `UpdateRun.dfy` is the whole update over several partitions.
- `EnvFormat.dfy`, `EnvFuncs.dfy`: the U-Boot environment as a buffer
  (`<string>\0<string>\0\0`), as a list of strings and as a map; the edits in place refine the
  list operations.
- `MainEnv.dfy`: one run of ubootenv or prodinfoenv on a stored section, and sequences of runs.
  `RunEffect.dfy` says for every list of options when a run succeeds and which value it leaves
  for every name.

Linear algebra, over exact reals

- `Matrix4.dfy`, `Determinant.dfy`: 4x4 matrices stored flat, products, determinant, adjugate.
- `FslMatrix.dfy`, `FslProject.dfy`: Gauss-Jordan inversion in place, and un-projection.
- `Glu3.dfy`: minors by shifted columns, determinant, cofactor inverse, products. A GLUmat4 is
  four columns in a row, so its flat form is the transposed matrix.

State machine and buffers

- `MasterBlaster.dfy`, `MasterBlasterLoop.dfy`: the settings of Master Blaster test mode, their
  field functions, the command loop, and whole sessions with any input and any answers of the
  controller. `MasterBlasterKeys.dfy` says in characters and numbers what each key does.
- `HexString.dfy`: reversal of hex strings in place, and their decoding.
- `V4l2Still.dfy`: conversion from packed YUV to planar YUV 4:2:0.

`Basics.dfy` holds the definitions shared by the modules. Code that changes buffers or records
is written as methods over arrays and classes and proved against functions; what the functions
are worth is stated by lemmas.

Assumptions: the machine is little endian (the padding node is written as a C struct); integers
do not overflow; linux/jffs2.h is not part of this model, its magic 0x1985 and padding node type
0x2004 are written out; a regular file is read short only at its end.

Where the code does not do what one would expect

- `MtdPartWrite` does not notice a file that filled its partition and has grown since
  (`UpdateFlash.MtdPartition.Write`, `GrownFileUnnoticed`).
- The comment of the pivot search announces the largest entry; the code compares with the
  diagonal entry and takes the last larger one (`FslMatrix.PivotLargestExactly`,
  `PivotNotLargest`). Inversion is right all the same (`PivotZero`).
- A product-info dump can be reloaded only if every entry is shorter than the line buffer and
  every name shorter than the name buffers (`MainEnv.ReloadExact`, `LongLineLost`,
  `LongNameLost`).
- `fmt_convert` reads behind the frame for an odd width and height in YUYV and UYVY unless rows
  are padded, and in YUV444 with the stride the program asks for
  (`V4l2Still.InsideFrameExactly`, `OddFrameOverrun`, `OwnStrideOverrun`).
- In Master Blaster mode a continuous tx command goes out although continuous tx is off whenever
  a special test starts or restarts with all modes off (`MasterBlasterLoop.StrayTxExactly`): at
  the first start key (`FirstStartTransmits`), or at the test mode key during a continuous rx
  test (`TestModeKeyTransmits`, `TransmitsInSession`).
- The flag for the running test can stop matching the modes (`StaleExactly`, `StaleInSession`),
  and after a continuous tx start it goes by the wrong answer (`FlagTellsAnswerExactly`,
  `RefusedButEnabled`).

## Model

| member | source | states |
|---|---|---|
| Checksum.Crc32 | meta-digi-arm/recipes-bsp/libdigi/libdigi/crc32.c:72-86 | the table-driven loop returns the CRC-32 that the bit-serial shift register defines, for every start value, buffer and stretch of it |
| Checksum.TableIsEightShifts | meta-digi-arm/recipes-bsp/libdigi/libdigi/crc32.c:17-70 | each of the 256 constants is eight shifts of the reflected polynomial 0xedb88320 on its index |
| Checksum.TableStepFeeds | meta-digi-arm/recipes-bsp/libdigi/libdigi/crc32.c:80-81 | one table look-up does what eight bit steps of the register do |
| Checksum.CrcAppend | meta-digi-arm/recipes-bsp/libdigi/libdigi/crc32.c:76-85 | checksums compose: cutting a stream into blocks anywhere gives the same result |
| Checksum.FeedInjective | meta-digi-arm/recipes-bsp/libdigi/libdigi/crc32.c:80-81 | on equal message bits different registers stay different |
| Checksum.BurstDetected | meta-digi-arm/recipes-bsp/libdigi/libdigi/crc32.c:72-86 | two messages that differ only in a burst of at most 32 bits end in different registers |
| Checksum.WindowDetected | meta-digi-arm/recipes-bsp/libdigi/libdigi/crc32.c:72-86 | buffers of equal length that differ only inside one window of at most four bytes never share a checksum |
| Checksum.BareRegister | meta-digi-arm/recipes-bsp/update-flash/update-flash/update_flash.c:1338-1352 | crc32(0xffffffff, ..) ^ 0xffffffff is the un-inverted register started at 0 |
| Checksum.CheckValue | meta-digi-arm/recipes-bsp/libdigi/libdigi/crc32.c:17-86 | the checksum of 123456789 is 0xcbf43926, the check value of CRC-32 |
| MtdLayout.LogicalStride | meta-digi-arm/recipes-bsp/update-flash/update-flash/update_flash.c:894-1008 | crossing one aligned stretch of a block advances the logical position by its length if the block is good, else by nothing |
| MtdLayout.StrideInOneBlock | meta-digi-arm/recipes-bsp/update-flash/update-flash/update_flash.c:648 | a page, or any aligned stride that divides the erase block size, never straddles two erase blocks |
| MtdLayout.LogicalMonotone | meta-digi-arm/recipes-bsp/update-flash/update-flash/update_flash.c:894-1008 | logical positions never decrease, and grow strictly over a good byte: no two good bytes share one |
| MtdLayout.LogicalOnto | meta-digi-arm/recipes-bsp/update-flash/update-flash/update_flash.c:894-1008 | every logical position below the good size is some good flash offset |
| MtdLayout.GoodByteAt | meta-digi-arm/recipes-bsp/update-flash/update-flash/update_flash.c:894-1008 | the good byte at flash offset x is byte number Logical(x) of the good bytes |
| MtdLayout.GoodBytesStride | meta-digi-arm/recipes-bsp/update-flash/update-flash/update_flash.c:1183-1201 | reading in strides of any dividing size and skipping bad blocks collects the same good bytes, page-wise or block-wise |
| MtdLayout.GoodSize | meta-digi-arm/recipes-bsp/update-flash/update-flash/update_flash.c:657-661 | taking one erase block per bad block off the size leaves exactly the number of good bytes |
| MtdDevice.Mtd.IsBadBlock | meta-digi-arm/recipes-bsp/update-flash/update-flash/update_flash.c:719-731 | reports the bad-block flag of the block of an offset inside the partition |
| MtdDevice.Mtd.EraseBlock | meta-digi-arm/recipes-bsp/update-flash/update-flash/update_flash.c:805-808 | MEMERASE sets exactly the bytes of one good block to 0xff |
| MtdDevice.Mtd.PWrite | meta-digi-arm/recipes-bsp/update-flash/update-flash/update_flash.c:951-965 | programming ANDs the buffer into a stretch of one good block and touches nothing else |
| MtdDevice.Mtd.PRead | meta-digi-arm/recipes-bsp/update-flash/update-flash/update_flash.c:968-974 | reads a stretch of the partition unchanged |
| MtdDevice.Read | meta-digi-arm/recipes-bsp/update-flash/update-flash/update_flash.c:902-906 | read(2) is short at the end of the file only |
| MtdDevice.EraseThenProgram | meta-digi-arm/recipes-bsp/update-flash/update-flash/update_flash.c:797-1008 | on AND-programming flash, erasing the first n good bytes and programming an image no longer than that leaves image, 0xff up to n, and the old rest, whatever was there before |
| MtdDevice.ProgramStep | meta-digi-arm/recipes-bsp/update-flash/update-flash/update_flash.c:948-1007 | a page burned at the next good offset extends the programmed image by that page |
| MtdDevice.EraseStep | meta-digi-arm/recipes-bsp/update-flash/update-flash/update_flash.c:797-833 | erasing the next good block extends the erased prefix of the good bytes by one block |
| UpdateFlash.CountBadBlocks | meta-digi-arm/recipes-bsp/update-flash/update-flash/update_flash.c:631-646 | the counting loop finds the number of bad erase blocks |
| UpdateFlash.MtdPartition.Init | meta-digi-arm/recipes-bsp/update-flash/update-flash/update_flash.c:611-686 | the good size is the number of good bytes, the file is accepted if and only if it fits in them, and a JFFS2 image erases everything unless only verified |
| UpdateFlash.MtdPartition.Erase | meta-digi-arm/recipes-bsp/update-flash/update-flash/update_flash.c:778-836 | a byte ends up as 0xff if and only if it is good and either erase-all is set or the good bytes before its erase block are fewer than the file's bytes; every other byte is what it was |
| UpdateFlash.TakePage | meta-digi-arm/recipes-bsp/update-flash/update-flash/update_flash.c:902-937 | one page of the file, padded, and the running checksum of the file unless it is known |
| UpdateFlash.PadPage | meta-digi-arm/recipes-bsp/update-flash/update-flash/update_flash.c:911-937 | the slack of a short page is 0xff, or for JFFS2 a padding node and zeros when a node fits; no file byte changes |
| UpdateFlash.InitPaddingNode | meta-digi-arm/recipes-bsp/update-flash/update-flash/update_flash.c:1338-1352 | writes magic, padding type, length and header checksum into twelve bytes and nowhere else |
| UpdateFlash.PaddingNodeChecksum | meta-digi-arm/recipes-bsp/update-flash/update-flash/update_flash.c:1349-1351 | the stored header checksum is that of the register started at 0 over magic, type and length |
| UpdateFlash.PaddingBytes | meta-digi-arm/recipes-bsp/update-flash/update-flash/update_flash.c:911-937 | byte for byte: magic, type, what is left on the page, header checksum, zeros; or 0xff when twelve bytes or fewer are left |
| UpdateFlash.WritePages | meta-digi-arm/recipes-bsp/update-flash/update-flash/update_flash.c:894-1008 | the page loop programs the padded image of what it could take from the file into the first good bytes, for every bad-block map |
| UpdateFlash.MtdPartition.Write | meta-digi-arm/recipes-bsp/update-flash/update-flash/update_flash.c:867-1022 | flash afterwards is the image programmed over what was there; a changed file size is noticed except when the file filled the partition and has grown; otherwise the checksum is that of the file |
| UpdateFlash.GrownFileUnnoticed | meta-digi-arm/recipes-bsp/update-flash/update-flash/update_flash.c:1008-1014 | that exception at a partition of four bytes and a file of five |
| UpdateFlash.MemCmp | meta-digi-arm/recipes-bsp/libdigi/libdigi/mem.c:24-40 | -1 exactly for equal memory, else the first difference |
| UpdateFlash.FirstNonBlank | meta-digi-arm/recipes-bsp/update-flash/update-flash/update_flash.c:1127-1130 | the emptiness check stops at the first byte of the slack that is not 0xff |
| UpdateFlash.VerifyPages | meta-digi-arm/recipes-bsp/update-flash/update-flash/update_flash.c:1061-1151 | the verify loop decides exactly whether the good bytes match the file, for every flash content |
| UpdateFlash.MtdPartition.Verify | meta-digi-arm/recipes-bsp/update-flash/update-flash/update_flash.c:1032-1155 | true if and only if the size is right, the good bytes start with the file, and unless JFFS2 every good byte behind it on the page of its last byte is 0xff; a file that filled the partition may have grown |
| UpdateFlash.ChecksumReadback | meta-digi-arm/recipes-bsp/update-flash/update-flash/update_flash.c:1183-1201 | read back by erase block with the tail cut off, the checksum is that of the first fileSize good bytes |
| UpdateFlash.MtdPartition.CheckCRC32 | meta-digi-arm/recipes-bsp/update-flash/update-flash/update_flash.c:1166-1206 | succeeds if and only if the first fileSize good bytes have the expected checksum |
| UpdateFlash.MtdPartition.DamageNoticed | meta-digi-arm/recipes-bsp/update-flash/update-flash/update_flash.c:1166-1206 | it fails when the stored file was damaged inside any window of at most four bytes |
| UpdateFlash.SumBlocks | meta-digi-arm/recipes-bsp/update-flash/update-flash/update_flash.c:1237-1256 | block-sized streaming gives the checksum of the file, and a true copy of it |
| UpdateFlash.MtdPartition.VerifyFile | meta-digi-arm/recipes-bsp/update-flash/update-flash/update_flash.c:1544-1581 | sets the file's checksum, or fails if and only if a given one differs from it |
| UpdateFlash.MtdPartition.CopyFile | meta-digi-arm/recipes-bsp/update-flash/update-flash/update_flash.c:1215-1271 | the copy is the file, and the checksum is set or compared as in verify-file; a changed size is an error |
| UpdateFlash.CalcCRC32OfFile | meta-digi-arm/recipes-bsp/update-flash/update-flash/update_flash.c:1704-1728 | streaming in 65536-byte pieces gives the same checksum |
| UpdateFlash.MtdPartition.Prepare | meta-digi-arm/recipes-bsp/update-flash/update-flash/update_flash.c:423-451 | before anything is erased: fails if and only if a checksum was given that is not the file's; whatever checksum is known afterwards is the file's |
| UpdateFlash.MtdPartition.Flash | meta-digi-arm/recipes-bsp/update-flash/update-flash/update_flash.c:459-513 | erase, write and check of one partition: no error occurs, the good bytes start with the file, and bad blocks and blocks without file bytes keep what they held |
| UpdateRun.PrepareAll | meta-digi-arm/recipes-bsp/update-flash/update-flash/update_flash.c:423-451 | the first pass over all files succeeds if and only if no given checksum is wrong |
| UpdateRun.DoMtdUpdate | meta-digi-arm/recipes-bsp/update-flash/update-flash/update_flash.c:419-516 | over any number of partitions: one wrong checksum leaves every partition as it was; otherwise every partition reads back as its file and keeps its other blocks, whatever the bad-block maps and the old contents |
| UpdateFlash.MtdPartition.UpdateStores | meta-digi-arm/recipes-bsp/update-flash/update-flash/update_flash.c:459-513 | after erase and write the good bytes are the file, its padding, 0xff up to the erased length and the old rest; what is programmed lies in what was erased; verify and checksum readback agree; bad blocks are untouched |
| UpdateFlash.MtdPartition.UpdatedBytes | meta-digi-arm/recipes-bsp/update-flash/update-flash/update_flash.c:778-1022 | every byte of the partition after erase and write, by its place: bad blocks as before; file; padding on the page of the last file byte; 0xff in the blocks in which file bytes lie, or in all with erase-all; as before everywhere else |
| UpdateFlash.MtdPartition.OthersKeep | meta-digi-arm/recipes-bsp/update-flash/update-flash/update_flash.c:778-1022 | after an update bad blocks, and without erase-all blocks in which no byte of the file lies, hold what they held |
| UpdateFlash.EraseCovers | meta-digi-arm/recipes-bsp/update-flash/update-flash/update_flash.c:791-1008 | whole pages for the file never exceed the erased length, nor that the good size |
| EnvFormat.BodyAppend | meta-digi-arm/recipes-bsp/ubootenv/ubootenv/env_funcs.c:66-85 | packing is a homomorphism from lists of strings to bytes |
| EnvFormat.BodyOne | meta-digi-arm/recipes-bsp/ubootenv/ubootenv/env_funcs.c:66-85 | one entry is packed as its bytes and a zero |
| EnvFormat.UnpackRep | meta-digi-arm/recipes-bsp/ubootenv/ubootenv/env_funcs.c:66-85 | a well-formed buffer holds one list of entries only, the one scanning it returns |
| EnvFormat.DeleteLookup | meta-digi-arm/recipes-bsp/ubootenv/ubootenv/env_funcs.c:128-148 | with unique names a deleted key is gone and every other key keeps its entry |
| EnvFormat.DeleteUnique | meta-digi-arm/recipes-bsp/ubootenv/ubootenv/env_funcs.c:128-148 | deleting keeps names unique and entries well formed |
| EnvFormat.PutUnique | meta-digi-arm/recipes-bsp/ubootenv/ubootenv/env_funcs.c:155-183 | adding keeps names unique and entries well formed |
| EnvFormat.PutLookup | meta-digi-arm/recipes-bsp/ubootenv/ubootenv/env_funcs.c:155-183 | adding an entry changes the value of exactly its name |
| EnvFormat.LookupFinds | meta-digi-arm/recipes-bsp/ubootenv/ubootenv/env_funcs.c:87-108 | a key is found if and only if some entry has that name |
| EnvFormat.LookupExactly | meta-digi-arm/recipes-bsp/ubootenv/ubootenv/env_funcs.c:87-108 | a key has the value e if and only if e is in the list and starts with the key and an equals sign |
| EnvFormat.DeleteFirst | meta-digi-arm/recipes-bsp/ubootenv/ubootenv/env_funcs.c:128-148 | the first entry that starts with the key and an equals sign goes, and nothing else; without one nothing changes |
| EnvFormat.DeleteLookupAny | meta-digi-arm/recipes-bsp/ubootenv/ubootenv/env_funcs.c:128-148 | deleting any key, with an equals sign inside or not, takes the value from exactly the names whose entry starts with it and an equals sign |
| EnvFormat.PutLast | meta-digi-arm/recipes-bsp/ubootenv/ubootenv/env_funcs.c:155-183 | the first entry of the name goes and the new one is appended |
| EnvFuncs.GetNextEnvString | meta-digi-arm/recipes-bsp/ubootenv/ubootenv/env_funcs.c:66-85 | finds the second string of a packed list, or the end, and the rest of the list is packed there |
| EnvFuncs.GetVarAddr | meta-digi-arm/recipes-bsp/ubootenv/ubootenv/env_funcs.c:87-108 | finds the first entry of that name, at its packed offset, and nothing if and only if there is none |
| EnvFuncs.GetEndMark | meta-digi-arm/recipes-bsp/ubootenv/ubootenv/env_funcs.c:110-126 | finds the second of the two terminators, wherever the scan starts |
| EnvFuncs.MoveDown | meta-digi-arm/recipes-bsp/ubootenv/ubootenv/env_funcs.c:138-139 | the overlapping front-to-back copy moves the bytes as if read first |
| EnvFuncs.ClearUpTo | meta-digi-arm/recipes-bsp/ubootenv/ubootenv/env_funcs.c:140-141 | zeros exactly the bytes that were left over |
| EnvFuncs.RemoveVar | meta-digi-arm/recipes-bsp/ubootenv/ubootenv/env_funcs.c:128-148 | refines deletion: the entry goes, the order of the rest stays, the tail is zero, bytes before the start are untouched; it reports whether the key was there |
| EnvFuncs.GetVarName | meta-digi-arm/recipes-bsp/ubootenv/ubootenv/env_funcs.c:45-64 | the part before the first equals sign, if there is one |
| EnvFuncs.Append | meta-digi-arm/recipes-bsp/ubootenv/ubootenv/env_funcs.c:170-175 | writes the string and two terminators, nothing else |
| EnvFuncs.AddVar | meta-digi-arm/recipes-bsp/ubootenv/ubootenv/env_funcs.c:155-183 | refines insertion: an older entry of the name goes, the new one is last; without a name nothing changes |
| MainEnv.EnvIsEmpty | meta-digi-arm/recipes-bsp/ubootenv/ubootenv/main_env.c:89-101 | on a packed buffer: true exactly when it holds no entry |
| MainEnv.ReadLine | meta-digi-arm/recipes-bsp/ubootenv/ubootenv/main_env.c:251-256 | the bytes up to a newline, which is skipped, or 308 of them, or the rest of the file: no newline is in the line, and only a newline is ever cut off |
| MainEnv.EnvAddVar | meta-digi-arm/recipes-bsp/ubootenv/ubootenv/main_env.c:209-240 | fails exactly on a string without an equals sign |
| MainEnv.AddVarsFromFile | meta-digi-arm/recipes-bsp/ubootenv/ubootenv/main_env.c:242-270 | adds the lines of the file in order, fails exactly at a line without a name; a file of one line is added whole, with or without a newline at its end |
| MainEnv.RemoveVarList | meta-digi-arm/recipes-bsp/ubootenv/ubootenv/main_env.c:272-283 | deletes the listed names one after the other, present or not |
| MainEnv.EditBuffer | meta-digi-arm/recipes-bsp/ubootenv/ubootenv/main_env.c:511-533 | the buffer refines the list through file, erase list and set, in that order; RunEffect.StoredValue says what that makes of every name |
| MainEnv.Section.Validate | meta-digi-arm/recipes-bsp/ubootenv/ubootenv/main_env.c:285-300 | true exactly when the stored checksum is that of the data |
| MainEnv.Section.Run | meta-digi-arm/recipes-bsp/ubootenv/ubootenv/main_env.c:480-559 | one run: the stored image changes as a whole or not at all, to what RunEffect.SucceedsExactly and RunEffect.StoredValue say |
| RunEffect.SucceedsExactly | meta-digi-arm/recipes-bsp/ubootenv/ubootenv/main_env.c:380-559 | a run succeeds if and only if clean and an erase list do not meet, product info that is valid and not empty is not to be changed, the checksum is right or everything is wiped, the file can be read, and every string added has an equals sign; it stores if and only if it succeeds and has something to change |
| RunEffect.LastLineIs | meta-digi-arm/recipes-bsp/ubootenv/ubootenv/main_env.c:250-258 | the last line for a name is the one behind which no line assigns to it |
| RunEffect.AddAllValue | meta-digi-arm/recipes-bsp/ubootenv/ubootenv/main_env.c:242-270 | after a file a name has the value of its last line there, or the value it had |
| RunEffect.DeleteEachValue | meta-digi-arm/recipes-bsp/ubootenv/ubootenv/main_env.c:272-283 | after an erase list exactly the values are gone that some listed key and an equals sign start |
| RunEffect.StoredValue | meta-digi-arm/recipes-bsp/ubootenv/ubootenv/main_env.c:480-559 | what a storing run leaves for every name: the set string if it assigns to it; else nothing if an erase key and an equals sign start the entry; else the last added line for it, or what was stored unless wiped |
| RunEffect.ErasedGone | meta-digi-arm/recipes-bsp/ubootenv/ubootenv/main_env.c:521-533 | a name in the erase list has no value afterwards unless it is set again |
| MainEnv.WriteOnce | meta-digi-arm/recipes-bsp/ubootenv/ubootenv/main_env.c:81-101 | a valid, non-empty product-info image survives every sequence of runs with any options |
| MainEnv.LockedRun | meta-digi-arm/recipes-bsp/ubootenv/ubootenv/main_env.c:489-497 | on such an image any changing option is refused and the image stays |
| MainEnv.SealSound | meta-digi-arm/recipes-bsp/ubootenv/ubootenv/main_env.c:541-548 | a saved list is checksum-valid, well formed with a zero tail, and reads back as that list |
| MainEnv.RunStaysSound | meta-digi-arm/recipes-bsp/ubootenv/ubootenv/main_env.c:480-559 | one run leads from a sound image to a sound image, also when it stops at a failed add |
| MainEnv.RunsStaySound | meta-digi-arm/recipes-bsp/ubootenv/ubootenv/main_env.c:480-559 | so does every sequence of runs whose entries fit |
| MainEnv.CleanRunSound | meta-digi-arm/recipes-bsp/ubootenv/ubootenv/main_env.c:499-501 | a successful clean run makes any section sound, garbage included |
| MainEnv.DamageNoticed | meta-digi-arm/recipes-bsp/ubootenv/ubootenv/main_env.c:285-300 | damage within any four consecutive data bytes breaks the checksum, and every run without clean refuses it |
| MainEnv.Dump | meta-digi-arm/recipes-bsp/ubootenv/ubootenv/main_env.c:385-390 | prints every entry with a newline, in order |
| MainEnv.DumpAppend | meta-digi-arm/recipes-bsp/ubootenv/ubootenv/main_env.c:385-390 | each entry is printed in its place with a newline behind it |
| MainEnv.LinesBack | meta-digi-arm/recipes-bsp/ubootenv/ubootenv/main_env.c:250-258 | reading a dump back line by line gives the entries, if each is below the line limit and has no newline |
| MainEnv.LinesFirst | meta-digi-arm/recipes-bsp/ubootenv/ubootenv/main_env.c:250-258 | the first line of any file: up to a newline, 308 bytes, or the rest |
| MainEnv.LinesOfDump | meta-digi-arm/recipes-bsp/ubootenv/ubootenv/main_env.c:250-258 | a last line without a newline is a line like the others |
| MainEnv.UnterminatedAdds | meta-digi-arm/recipes-bsp/ubootenv/ubootenv/main_env.c:242-270 | so a dump without its last newline adds every entry whole |
| MainEnv.UnterminatedStored | meta-digi-arm/recipes-bsp/ubootenv/ubootenv/main_env.c:499-548 | and a clean run with it stores them all |
| MainEnv.AddAllAppends | meta-digi-arm/recipes-bsp/ubootenv/ubootenv/main_env.c:242-270 | adding entries with new unique names one by one rebuilds the list in order |
| MainEnv.ReloadNeedsShortLines | meta-digi-arm/recipes-bsp/ubootenv/ubootenv/main_env.c:250-258 | an entry of the line limit or longer makes the reload fail or differ |
| MainEnv.CanAddAllExactly | meta-digi-arm/recipes-bsp/ubootenv/ubootenv/env_funcs.c:155-183 | entries with new names can be added one by one if and only if every name is below fifty characters and all of them fit |
| MainEnv.ReloadExact | meta-digi-arm/recipes-bsp/ubootenv/ubootenv/main_env.c:209-270 | reloading a product-info dump with clean is a run the code can take, and stores just the dumped entries, if and only if the section is not locked, every line is below 308 bytes, every name below 50 and the entries fit |
| MainEnv.DumpReload | meta-digi-arm/recipes-bsp/ubootenv/ubootenv/main_env.c:379-559 | the dump of a sound product-info section loads into a section of its size if and only if that one is not locked and lines and names are short; then it holds the same image byte for byte, checksum included |
| MainEnv.LongLineLost | meta-digi-arm/recipes-bsp/ubootenv/ubootenv/main_env.c:245-258 | an entry of 308 bytes that dumps but does not reload |
| MainEnv.LongNamesOverrun | meta-digi-arm/recipes-bsp/ubootenv/ubootenv/main_env.c:209-220 | any entry with a name over the limit puts the reload outside what the code can take |
| MainEnv.LongNameLost | meta-digi-arm/recipes-bsp/ubootenv/ubootenv/main_env.c:212-219 | for one, a name of fifty characters |
| Matrix4.MulAssoc | meta-digi-dey/recipes-digi/dey-examples/dey-examples-opengles/ccimx6/opengles/common/src/fslutil.c:584-602 | matrix products are associative |
| Matrix4.MulEntries | meta-digi-dey/recipes-digi/dey-examples/dey-examples-opengles/ccimx6/opengles/common/src/fslutil.c:584-602 | every entry of a product is the sum of four products, row by column |
| Matrix4.InverseUnique | meta-digi-dey/recipes-digi/dey-examples/dey-examples-opengles/ccimx6/opengles/common/src/fslutil.c:604-684 | a left inverse and a right inverse are the same matrix |
| Determinant.Expand | meta-digi-dey/recipes-digi/dey-examples/dey-examples-opengles/ccimx5/opengles/lib/glu3/glu3.c:380-400 | Laplace expansion along any row equals the sum over permutations |
| Determinant.DetSwap | meta-digi-dey/recipes-digi/dey-examples/dey-examples-opengles/ccimx6/opengles/common/src/fslutil.c:645-658 | exchanging two rows negates the determinant |
| Determinant.DetTriangular | meta-digi-dey/recipes-digi/dey-examples/dey-examples-opengles/ccimx5/opengles/lib/glu3/glu3.c:380-400 | with zeros below the diagonal the determinant is the product of the diagonal |
| Determinant.MulAdjugate | meta-digi-dey/recipes-digi/dey-examples/dey-examples-opengles/ccimx5/opengles/lib/glu3/glu3.c:403-430 | a matrix times its adjugate is the determinant times the identity |
| Determinant.AdjugateMul | meta-digi-dey/recipes-digi/dey-examples/dey-examples-opengles/ccimx5/opengles/lib/glu3/glu3.c:403-430 | and so in the other order |
| Determinant.CofactorInverseWorks | meta-digi-dey/recipes-digi/dey-examples/dey-examples-opengles/ccimx5/opengles/lib/glu3/glu3.c:403-430 | with a non-zero determinant the cofactor matrix over it is an inverse on both sides |
| FslMatrix.PivotZero | meta-digi-dey/recipes-digi/dey-examples/dey-examples-opengles/ccimx6/opengles/common/src/fslutil.c:635-643 | although the search does not find the largest entry, it leaves a zero pivot only when the whole rest of the column is zero |
| FslMatrix.PivotLargestExactly | meta-digi-dey/recipes-digi/dey-examples/dey-examples-opengles/ccimx6/opengles/common/src/fslutil.c:635-643 | it finds a largest entry, as its comment says, if and only if no earlier entry above the diagonal one exceeds the last such entry |
| FslMatrix.PivotNotLargest | meta-digi-dey/recipes-digi/dey-examples/dey-examples-opengles/ccimx6/opengles/common/src/fslutil.c:635-643 | with 1, 3, 2, 0 in the column it stops at the third row |
| FslMatrix.SwapRelated | meta-digi-dey/recipes-digi/dey-examples/dey-examples-opengles/ccimx6/opengles/common/src/fslutil.c:645-658 | a row exchange keeps temp = inverse * source, what temp annihilates, and whether inverse is singular |
| FslMatrix.DivideRelated | meta-digi-dey/recipes-digi/dey-examples/dey-examples-opengles/ccimx6/opengles/common/src/fslutil.c:668-672 | so does normalizing the pivot row |
| FslMatrix.SubtractRelated | meta-digi-dey/recipes-digi/dey-examples/dey-examples-opengles/ccimx6/opengles/common/src/fslutil.c:673-681 | so does clearing another row |
| FslMatrix.NullVector | meta-digi-dey/recipes-digi/dey-examples/dey-examples-opengles/ccimx6/opengles/common/src/fslutil.c:660-666 | a zero pivot shows a non-zero vector that the source matrix annihilates |
| FslMatrix.InverseCorrect | meta-digi-dey/recipes-digi/dey-examples/dey-examples-opengles/ccimx6/opengles/common/src/fslutil.c:604-684 | a returned matrix is the inverse on both sides and the one of the cofactors |
| FslMatrix.InverseExact | meta-digi-dey/recipes-digi/dey-examples/dey-examples-opengles/ccimx6/opengles/common/src/fslutil.c:604-684 | elimination succeeds if and only if the matrix is invertible, if and only if its determinant is not zero |
| FslMatrix.PivotSearch | meta-digi-dey/recipes-digi/dey-examples/dey-examples-opengles/ccimx6/opengles/common/src/fslutil.c:635-643 | returns the last row whose entry exceeds the diagonal entry, else the row itself |
| FslMatrix.SwapLoop | meta-digi-dey/recipes-digi/dey-examples/dey-examples-opengles/ccimx6/opengles/common/src/fslutil.c:645-658 | exchanges two rows of both matrices in place |
| FslMatrix.DivideLoop | meta-digi-dey/recipes-digi/dey-examples/dey-examples-opengles/ccimx6/opengles/common/src/fslutil.c:668-672 | divides one row of both matrices by the pivot |
| FslMatrix.SubtractLoop | meta-digi-dey/recipes-digi/dey-examples/dey-examples-opengles/ccimx6/opengles/common/src/fslutil.c:676-679 | subtracts the multiple of the pivot row in both matrices |
| FslMatrix.ReduceColumn | meta-digi-dey/recipes-digi/dey-examples/dey-examples-opengles/ccimx6/opengles/common/src/fslutil.c:634-682 | one turn of the outer loop: pivot, exchange, normalize and clear, or the zero pivot |
| FslMatrix.InvertMatrix4x4 | meta-digi-dey/recipes-digi/dey-examples/dey-examples-opengles/ccimx6/opengles/common/src/fslutil.c:604-684 | the nested loops in place compute that elimination: result and failure |
| FslProject.MultRow | meta-digi-dey/recipes-digi/dey-examples/dey-examples-opengles/ccimx6/opengles/common/src/fslutil.c:586-601 | four of the sixteen sums: one row of the product |
| FslProject.MultMatrix4x4 | meta-digi-dey/recipes-digi/dey-examples/dey-examples-opengles/ccimx6/opengles/common/src/fslutil.c:584-602 | the sixteen sums are the matrix product |
| FslProject.MultMatrix4x4Vec4x1 | meta-digi-dey/recipes-digi/dey-examples/dey-examples-opengles/ccimx6/opengles/common/src/fslutil.c:713-721 | the row vector times the matrix |
| FslProject.UnProject | meta-digi-dey/recipes-digi/dey-examples/dey-examples-opengles/ccimx6/opengles/common/src/fslutil.c:333-380 | computes the un-projection; fails exactly when the product is singular or the point is at infinity |
| FslProject.UnProjectUndoes | meta-digi-dey/recipes-digi/dey-examples/dey-examples-opengles/ccimx6/opengles/common/src/fslutil.c:333-380 | for an invertible transformation and non-zero clip w, un-projecting a projected point gives the point back |
| FslProject.ProjectUndoes | meta-digi-dey/recipes-digi/dey-examples/dey-examples-opengles/ccimx6/opengles/common/src/fslutil.c:333-380 | whatever point is returned projects onto the window point that was given |
| FslProject.UnProjectExact | meta-digi-dey/recipes-digi/dey-examples/dey-examples-opengles/ccimx6/opengles/common/src/fslutil.c:333-380 | a point is returned if and only if it projects onto the window point through an invertible transformation |
| FslProject.UnProjectInNumbers | meta-digi-dey/recipes-digi/dey-examples/dey-examples-opengles/ccimx6/opengles/common/src/fslutil.c:333-380 | a point is returned if and only if the transformation is invertible and the point, taken through the model matrix and then the projection, sits at the window point: viewport across, depth from 0 to 1 |
| Glu3.CopyColumns | meta-digi-dey/recipes-digi/dey-examples/dey-examples-opengles/ccimx5/opengles/lib/glu3/glu3.c:343-351 | the six stored columns are the three columns other than the struck one, twice |
| Glu3.DropRow | meta-digi-dey/recipes-digi/dey-examples/dey-examples-opengles/ccimx5/opengles/lib/glu3/glu3.c:353-360 | the struck row goes and the rows below it move up, in all six columns |
| Glu3.DiagonalsAreMinor | meta-digi-dey/recipes-digi/dey-examples/dey-examples-opengles/ccimx5/opengles/lib/glu3/glu3.c:363-377 | the rule of Sarrus over the shifted columns is the three by three minor |
| Glu3.Determinant3 | meta-digi-dey/recipes-digi/dey-examples/dey-examples-opengles/ccimx5/opengles/lib/glu3/glu3.c:331-378 | det3 is the minor for every removed column and row |
| Glu3.ExpansionIsDet | meta-digi-dey/recipes-digi/dey-examples/dey-examples-opengles/ccimx5/opengles/lib/glu3/glu3.c:380-400 | the signed sum along the last row is the determinant |
| Glu3.Determinant4 | meta-digi-dey/recipes-digi/dey-examples/dey-examples-opengles/ccimx5/opengles/lib/glu3/glu3.c:380-400 | the loop that skips zero entries computes the determinant |
| Glu3.FillInverse | meta-digi-dey/recipes-digi/dey-examples/dey-examples-opengles/ccimx5/opengles/lib/glu3/glu3.c:413-427 | each entry is the signed minor of the transposed place over the determinant |
| Glu3.Inverse4 | meta-digi-dey/recipes-digi/dey-examples/dey-examples-opengles/ccimx5/opengles/lib/glu3/glu3.c:403-430 | fails if and only if the matrix has no inverse, leaving the result alone; otherwise the result is the inverse on both sides |
| Glu3.SameAsElimination | meta-digi-dey/recipes-digi/dey-examples/dey-examples-opengles/ccimx5/opengles/lib/glu3/glu3.c:403-430 | cofactors and Gauss-Jordan elimination agree on which matrices can be inverted and on every inverse |
| Glu3.MultMatVec | meta-digi-dey/recipes-digi/dey-examples/dey-examples-opengles/ccimx5/opengles/lib/glu3/glu3.c:121-134 | the columns weighted by the vector, added pairwise; the result may be the vector itself |
| Glu3.MultMatMat | meta-digi-dey/recipes-digi/dey-examples/dey-examples-opengles/ccimx5/opengles/lib/glu3/glu3.c:136-147 | the matrix product; the result may be either factor |
| MasterBlaster.MenuGoesForward | meta-digi-dey/recipes-digi/dey-examples/files/btconfig/btconfig.c:4254-4278 | no menu entry ever toggles backward, since the table itself is passed as the option |
| MasterBlaster.ToggleOption | meta-digi-dey/recipes-digi/dey-examples/files/btconfig/btconfig.c:4793-4817 | moves on from the first place of the value by the step given, round the end, or back if the option's first letter is the key's capital; fails if and only if the value is not in the table |
| MasterBlaster.GetOptionIndex | meta-digi-dey/recipes-digi/dey-examples/files/btconfig/btconfig.c:4330-4358 | the first index of a value, or -1 |
| MasterBlaster.MinMaxOption | meta-digi-dey/recipes-digi/dey-examples/files/btconfig/btconfig.c:4821-4831 | accepts exactly the values in range and leaves the setting alone otherwise |
| MasterBlaster.Ask | meta-digi-dey/recipes-digi/dey-examples/files/btconfig/btconfig.c:4500-4514 | the first of the three typed numbers that is in range, else failure and the old value |
| MasterBlaster.RefusedAll | meta-digi-dey/recipes-digi/dey-examples/files/btconfig/btconfig.c:4500-4514 | it fails if and only if none of them is |
| MasterBlaster.Settings.constructor | meta-digi-dey/recipes-digi/dey-examples/files/btconfig/btconfig.c:4284-4304 | the defaults of the menu table |
| MasterBlaster.Settings.CheckField | meta-digi-dey/recipes-digi/dey-examples/files/btconfig/btconfig.c:4308-4326 | the place of the key, refused exactly for hop mode in continuous tx, frequencies while hopping, tx type outside continuous tx, and keys not in the menu |
| MasterBlaster.Settings.SetTestMode | meta-digi-dey/recipes-digi/dey-examples/files/btconfig/btconfig.c:4458-4472 | the next test mode; continuous rx and tx are off |
| MasterBlaster.Settings.SetHopMode | meta-digi-dey/recipes-digi/dey-examples/files/btconfig/btconfig.c:4476-4487 | hop mode is toggled and nothing else changes |
| MasterBlaster.Settings.SetTxFreq | meta-digi-dey/recipes-digi/dey-examples/files/btconfig/btconfig.c:4491-4516 | the first typed number within the limit that LE mode imposes |
| MasterBlaster.Settings.SetRxFreq | meta-digi-dey/recipes-digi/dey-examples/files/btconfig/btconfig.c:4520-4543 | likewise for the rx channel |
| MasterBlaster.Settings.SetPacketType | meta-digi-dey/recipes-digi/dey-examples/files/btconfig/btconfig.c:4547-4559 | the next packet type, and its own largest payload as data length |
| MasterBlaster.Settings.SetDataLen | meta-digi-dey/recipes-digi/dey-examples/files/btconfig/btconfig.c:4563-4584 | likewise for the data length |
| MasterBlaster.Settings.SetContTxMode | meta-digi-dey/recipes-digi/dey-examples/files/btconfig/btconfig.c:4632-4651 | continuous tx on puts the three other modes off |
| MasterBlaster.Settings.SetContTxType | meta-digi-dey/recipes-digi/dey-examples/files/btconfig/btconfig.c:4655-4666 | the next tx type and nothing else |
| MasterBlaster.Settings.SetLERxMode | meta-digi-dey/recipes-digi/dey-examples/files/btconfig/btconfig.c:4670-4697 | LE rx on puts the three other modes off and caps the rx channel; LE mode follows |
| MasterBlaster.Settings.SetLETxMode | meta-digi-dey/recipes-digi/dey-examples/files/btconfig/btconfig.c:4701-4728 | LE tx on puts the three other modes off and caps the tx channel; LE mode follows |
| MasterBlaster.Settings.SetLETxPktPayload | meta-digi-dey/recipes-digi/dey-examples/files/btconfig/btconfig.c:4732-4743 | the next payload and nothing else |
| MasterBlaster.Settings.SetContRxMode | meta-digi-dey/recipes-digi/dey-examples/files/btconfig/btconfig.c:4747-4766 | continuous rx on puts the three other modes off |
| MasterBlaster.Settings.SetBERType | meta-digi-dey/recipes-digi/dey-examples/files/btconfig/btconfig.c:4769-4779 | the next bit error rate type and nothing else |
| MasterBlaster.Settings.PrintMenu | meta-digi-dey/recipes-digi/dey-examples/files/btconfig/btconfig.c:4389-4404 | caps the rx channel in LE rx and the data length in LE tx |
| MasterBlaster.Settings.CallField | meta-digi-dey/recipes-digi/dey-examples/files/btconfig/btconfig.c:2019 | the call through the menu table does what the key's own field function does |
| MasterBlasterLoop.AppliedExactly | meta-digi-dey/recipes-digi/dey-examples/files/btconfig/btconfig.c:4458-4779 | on sound settings no toggle fails; a number field fails if and only if three attempts are out of range |
| MasterBlasterLoop.AppliedExclusive | meta-digi-dey/recipes-digi/dey-examples/files/btconfig/btconfig.c:4632-4766 | at most one of the four modes is on, and LE mode says whether it is an LE mode, after every field function |
| MasterBlasterLoop.AppliedModes | meta-digi-dey/recipes-digi/dey-examples/files/btconfig/btconfig.c:4632-4766 | the four mode keys toggle their mode against all others, the test mode key ends the continuous ones, no other key touches a mode |
| MasterBlasterLoop.AppliedSound | meta-digi-dey/recipes-digi/dey-examples/files/btconfig/btconfig.c:4362-4779 | a field function followed by the menu keeps settings in their tables and ranges |
| MasterBlasterKeys.ModeKeys | meta-digi-dey/recipes-digi/dey-examples/files/btconfig/btconfig.c:4632-4766 | keys n and c in numbers: on with the other three modes off, or off |
| MasterBlasterKeys.LeKeys | meta-digi-dey/recipes-digi/dey-examples/files/btconfig/btconfig.c:4670-4728 | keys q and w in numbers, with the channel cap of 39 |
| MasterBlasterKeys.TableKeys | meta-digi-dey/recipes-digi/dey-examples/files/btconfig/btconfig.c:4458-4779 | keys m, u, k, y, h in numbers: test modes 1, 2, 3, 4, 9, 10 and round; five tx types, fourteen error rate types, eight payloads, hop mode; nothing else changes |
| MasterBlasterKeys.PacketKey | meta-digi-dey/recipes-digi/dey-examples/files/btconfig/btconfig.c:4547-4559 | key p: the twelve packet types in their order, each with its largest payload |
| MasterBlasterKeys.NumberKeys | meta-digi-dey/recipes-digi/dey-examples/files/btconfig/btconfig.c:4491-4584 | keys t, r, l: the first of three typed numbers up to 79 or 1021, in LE mode up to 39 or 37 |
| MasterBlasterKeys.OtherKeys | meta-digi-dey/recipes-digi/dey-examples/files/btconfig/btconfig.c:2019 | no other key changes a setting |
| MasterBlasterKeys.KeysOffered | meta-digi-dey/recipes-digi/dey-examples/files/btconfig/btconfig.c:4308-4326 | the twenty-two keys, and when h, t, r and u are refused |
| MasterBlasterKeys.KeysThatStop | meta-digi-dey/recipes-digi/dey-examples/files/btconfig/btconfig.c:1958-1997 | for each running test the keys that end it, if the controller accepts the reset |
| MasterBlasterKeys.LeavingKeys | meta-digi-dey/recipes-digi/dey-examples/files/btconfig/btconfig.c:1943-2006 | refused keys change nothing; s, x and b change no setting, s and x forget the test, only x and b leave |
| MasterBlasterKeys.SettingsAfter | meta-digi-dey/recipes-digi/dey-examples/files/btconfig/btconfig.c:1943-2027 | any other key leaves what its field function makes, with the length capped at 37 in LE tx |
| MasterBlasterKeys.LaunchAfter | meta-digi-dey/recipes-digi/dey-examples/files/btconfig/btconfig.c:2029-2187 | which test command goes out after a key, with which settings; an LE command is never refused by its range checks |
| MasterBlasterKeys.TestAfter | meta-digi-dey/recipes-digi/dey-examples/files/btconfig/btconfig.c:2074-2196 | which test is remembered, by the command sent and the controller's answer |
| MasterBlasterKeys.TestModeKey | meta-digi-dey/recipes-digi/dey-examples/files/btconfig/btconfig.c:4458-4472 | while no test and no continuous mode is on, the test mode key only goes one place on |
| MasterBlasterKeys.TestModesGoRound | meta-digi-dey/recipes-digi/dey-examples/files/btconfig/btconfig.c:1926-2202 | in a session: the first press goes from 3 to 4, six presses are back at the start |
| MasterBlasterKeys.PlayedOnce | meta-digi-dey/recipes-digi/dey-examples/files/btconfig/btconfig.c:1943-2202 | a session takes its commands in order until one leaves |
| MasterBlasterLoop.Session.StopRunningTest | meta-digi-dey/recipes-digi/dey-examples/files/btconfig/btconfig.c:1958-1997 | which key stops which running test, and when the test is forgotten |
| MasterBlasterLoop.Session.LERxTest | meta-digi-dey/recipes-digi/dey-examples/files/btconfig/btconfig.c:3661-3680 | refused exactly outside channels 0 to 39 |
| MasterBlasterLoop.Session.LETxTest | meta-digi-dey/recipes-digi/dey-examples/files/btconfig/btconfig.c:3712-3742 | refused exactly outside channels 0 to 39, lengths 0 to 37 and payloads 0 to 7 |
| MasterBlasterLoop.Session.EnableTx | meta-digi-dey/recipes-digi/dey-examples/files/btconfig/btconfig.c:2029-2085 | the start of the tx test with every refusal of the controller |
| MasterBlasterLoop.Session.EnableSpecial | meta-digi-dey/recipes-digi/dey-examples/files/btconfig/btconfig.c:2095-2196 | which test starts for which modes; the final memory write decides a continuous tx start |
| MasterBlasterLoop.Session.Turn | meta-digi-dey/recipes-digi/dey-examples/files/btconfig/btconfig.c:1943-2202 | one turn of the command loop refines the step function, for every key, input and answer of the controller |
| MasterBlasterLoop.Session.Play | meta-digi-dey/recipes-digi/dey-examples/files/btconfig/btconfig.c:1943-2202 | a whole session refines the sequence of steps |
| MasterBlasterLoop.StepSafe | meta-digi-dey/recipes-digi/dey-examples/files/btconfig/btconfig.c:1943-2202 | a step keeps the settings sound, and an LE test it starts passes the range checks |
| MasterBlasterLoop.SessionSafe | meta-digi-dey/recipes-digi/dey-examples/files/btconfig/btconfig.c:1943-2202 | over every session: at most one mode on, LE mode right, settings in their tables (so that the menu prints valid entries), and no LE start is ever refused by SU_LERxTest or SU_LETxTest |
| MasterBlasterLoop.EverySession | meta-digi-dey/recipes-digi/dey-examples/files/btconfig/btconfig.c:1926-2202 | so from the defaults of the menu on, for every sequence of commands |
| MasterBlasterLoop.StaleExactly | meta-digi-dey/recipes-digi/dey-examples/files/btconfig/btconfig.c:1958-2196 | the test flag stops matching the modes exactly when a key ends the mode under test and the restart breaks off before it sends a test command |
| MasterBlasterLoop.StrayTxExactly | meta-digi-dey/recipes-digi/dey-examples/files/btconfig/btconfig.c:2093-2187 | a continuous tx command goes out while continuous tx is off if and only if a special test is started or restarted with all four modes off and the sleep and DUT commands are accepted |
| MasterBlasterLoop.FirstStartTransmits | meta-digi-dey/recipes-digi/dey-examples/files/btconfig/btconfig.c:2125-2187 | the start key at the defaults does so |
| MasterBlasterLoop.TestModeKeyTransmits | meta-digi-dey/recipes-digi/dey-examples/files/btconfig/btconfig.c:1958-2196 | the test mode key during a continuous rx test does so if and only if sleep and DUT are accepted, and leaves a continuous tx test enabled if and only if the memory write is accepted too |
| MasterBlasterLoop.FlagTellsAnswerExactly | meta-digi-dey/recipes-digi/dey-examples/files/btconfig/btconfig.c:2074-2196 | after a test command the test flag says what the controller answered, except for a continuous tx start whose memory write is answered differently |
| MasterBlasterLoop.RefusedButEnabled | meta-digi-dey/recipes-digi/dey-examples/files/btconfig/btconfig.c:2155-2187 | the start key at the defaults, refused, can leave a continuous tx test enabled |
| MasterBlasterLoop.TransmitsInSession | meta-digi-dey/recipes-digi/dey-examples/files/btconfig/btconfig.c:1943-2202 | from the start, the keys n, j, m send a continuous tx command and leave continuous tx off |
| MasterBlasterLoop.StaleInSession | meta-digi-dey/recipes-digi/dey-examples/files/btconfig/btconfig.c:1943-2202 | the same keys with the last sleep command refused leave the test flag stale |
| MasterBlasterLoop.SessionMatches | meta-digi-dey/recipes-digi/dey-examples/files/btconfig/btconfig.c:1958-2196 | while the controller accepts the sleep and DUT commands the test flag matches the modes throughout |
| HexString.ReverseHexString | meta-digi-dey/recipes-digi/dey-examples/files/btconfig/btconfig.c:2261-2280 | in place, the pairs of digits behind blanks and 0x change places from the outside in; what follows the string is untouched |
| HexString.PairsTwice | meta-digi-dey/recipes-digi/dey-examples/files/btconfig/btconfig.c:2272-2279 | turning pairs round twice changes nothing, for any number of digits |
| HexString.ReversedTwice | meta-digi-dey/recipes-digi/dey-examples/files/btconfig/btconfig.c:2261-2280 | on hex strings of any length the function is its own inverse |
| HexString.ReversedHex | meta-digi-dey/recipes-digi/dey-examples/files/btconfig/btconfig.c:2261-2280 | the prefix that was skipped is found again afterwards |
| HexString.LastHex | meta-digi-dey/recipes-digi/dey-examples/files/btconfig/btconfig.c:2293-2295 | the end of the run of hex digits |
| HexString.GetByteSeq | meta-digi-dey/recipes-digi/dey-examples/files/btconfig/btconfig.c:2282-2317 | writes exactly size bytes, those that DecodesDigits names for any text; a negative size writes nothing |
| HexString.DecodesDigits | meta-digi-dey/recipes-digi/dey-examples/files/btconfig/btconfig.c:2282-2317 | blanks, perhaps 0x, and digits in either case: digit k is nibble k, the high one of a byte first, and what is missing is zero |
| HexString.DecodesBytes | meta-digi-dey/recipes-digi/dey-examples/files/btconfig/btconfig.c:2261-2317 | any text that spells bytes in hex in either case decodes to them, and turned round to their reverse |
| HexString.PairAt | meta-digi-dey/recipes-digi/dey-examples/files/btconfig/btconfig.c:2272-2279 | pair k of the reversed digits is pair k from the end |
| HexString.PairsSwap | meta-digi-dey/recipes-digi/dey-examples/files/btconfig/btconfig.c:2272-2279 | for any number of digits pair k from the front changes places with pair k from the end |
| HexString.MiddleStays | meta-digi-dey/recipes-digi/dey-examples/files/btconfig/btconfig.c:2272-2279 | and the up to three digits in the middle stay |
| HexString.ReversedDecodes | meta-digi-dey/recipes-digi/dey-examples/files/btconfig/btconfig.c:2261-2317 | reversing 2n digits and decoding gives the n bytes in reverse order, then zeros |
| HexString.HexRoundTrip | meta-digi-dey/recipes-digi/dey-examples/files/btconfig/btconfig.c:2261-2317 | bytes written in hex decode to themselves, and after reversing to their reverse |
| V4l2Still.CopyRow | meta-digi-dey/recipes-digi/dey-examples/files/v4l2_test/v4l2_still.c:118-119 | one row of samples is added to a plane |
| V4l2Still.CopyPlane | meta-digi-dey/recipes-digi/dey-examples/files/v4l2_test/v4l2_still.c:116-131 | writes each place of the plane once, in row order, and nothing else |
| V4l2Still.FmtConvert | meta-digi-dey/recipes-digi/dey-examples/files/v4l2_test/v4l2_still.c:92-132 | the output is the full Y plane followed by the U and the V plane sampled in every second row and column; what follows is untouched |
| V4l2Still.LumaAt | meta-digi-dey/recipes-digi/dey-examples/files/v4l2_test/v4l2_still.c:92-119 | byte (i, k) of the Y plane is byte 2k, 2k + 1 or 4k of row i, by format |
| V4l2Still.ChromaAt | meta-digi-dey/recipes-digi/dey-examples/files/v4l2_test/v4l2_still.c:92-131 | byte (i, k) of the U plane is byte 4k + 1, 4k or 8k + 1 of row 2i, that of the V plane byte 4k + 3, 4k + 2 or 8k + 2 |
| V4l2Still.IndexWithin | meta-digi-dey/recipes-digi/dey-examples/files/v4l2_test/v4l2_still.c:116-131 | no sample lies behind the last one of its plane |
| V4l2Still.ReadableExactly | meta-digi-dey/recipes-digi/dey-examples/files/v4l2_test/v4l2_still.c:92-132 | for every stride, every read is inside height * stride bytes if and only if the last row has room for its luma, and for its V where it is sampled |
| V4l2Still.InsideFrameExactly | meta-digi-dey/recipes-digi/dey-examples/files/v4l2_test/v4l2_still.c:92-132 | given room for the pixels of a row, that is so except exactly for a two-byte format with odd width and odd height and too little padding behind the last row |
| V4l2Still.OddFrameOverrun | meta-digi-dey/recipes-digi/dey-examples/files/v4l2_test/v4l2_still.c:128-131 | one pixel in YUYV is such a case |
| V4l2Still.OwnStrideOverrun | meta-digi-dey/recipes-digi/dey-examples/files/v4l2_test/v4l2_still.c:206 | in YUV444 the stride that the program asks for, one byte a pixel, is never enough |
| V4l2Still.TotalEven | meta-digi-dey/recipes-digi/dey-examples/files/v4l2_test/v4l2_still.c:92-132 | for even sizes the output takes width * height * 3/2 bytes, each chroma plane a quarter of the Y plane |
| V4l2Still.ConversionUndoesPacking | meta-digi-dey/recipes-digi/dey-examples/files/v4l2_test/v4l2_still.c:92-132 | converting an image that was packed as its format's name says returns its Y, U and V planes |

## Left out

- Init: finding out the partition and image type; whether the image is JFFS2 is a parameter.
- Erase: clean markers, out of band on NAND and in band on NOR; dry run.
- WritePages: the retry and mark-bad mode, which always ends in an exit; dry run.
- Write: the same mode.
- VerifyFile: the check of JFFS2 blocks for node headers and clean markers, which can refuse an image; so it is an additional reason for a refusal.
- CopyFile: the same check.
- Prepare: the same check.
- PrepareAll: the same check.
- Flash: UBI and bootstream partitions, clean markers, remounting and progress output.
- DoMtdUpdate: the same, and a partition named twice on the command line (the later file would win).
- Mtd: device failures; the bad-block map does not change while a partition is updated.
- Read: a file that changes between two passes over it; Write alone is stated for any file.
- GetNextEnvString: buffers that are not packed environments, also where the checksum happens to be right; such an image is outside `Runnable`.
- AddVar: entries that do not fit and names of 50 or more characters, for which the C code has no check (`CanAdd` is the room it needs).
- EnvAddVar: names that U-Boot redirects to the NVRAM configuration.
- ReadLine: NUL bytes in a file of variables.
- RemoveVarList: splitting the erase list at blanks.
- Section.Run: adding a missing section with clean, and failures of the NVRAM library; the library itself is one stored image per section. Printing of single variables is left out.
- ReloadExact: ubootenv, whose dump also prints variables kept in NVRAM.
- InvertMatrix4x4, UnProject, Determinant4, Inverse4: rounding; all matrices are over exact reals. Trigonometric matrices, normals, textures and windows are left out.
- Inverse4: a result that is the argument itself; gluInverse4_4m would then read cofactors from a half-written matrix.
- CallField: transmit power and device address, which no other setting depends on.
- Settings: a second start of the mode in one process, where LEMode would be kept.
- EnableSpecial: the commands of a continuous rx start are one answer, and it carries no channel: contRxAtGivenChannel programs the low bits of the address of its channel variable, which is not modelled.
- Session: the bytes of the HCI packets, the bit error rate read-out and all printing.
- ReverseHexString: strings with other characters between the digits; the method's contract covers them, ReversedTwice and ReversedDecodes do not.
- FmtConvert: 32-bit overflow of row offsets; capture and format negotiation.
- The rest of the repository: recipes, drivers, sahara_test, GPIO, sysfs, audio, battery and health device examples, throughput tests and patch file parsing.
