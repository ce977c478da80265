# Storage and disk emulation of the MiST firmware

A model, in Dafny, of the part of the MiST controller firmware that keeps files on an SD card and serves
them to the emulated machines, with proofs of what that code promises. The card is a map from block
addresses to 512-byte sectors. Objects that the firmware updates in place (FAT buffers, file handles, the
directory window, drive records, the seek index, the serial port) are classes; every loop of the firmware is
a loop here, proved against a specification whose own properties are stated as lemmas. Ghost parameters
name what the C code cannot see, such as the cluster chain a handle belongs to.

| file | what it holds |
|---|---|
| `Words`, `ByteBits` | bytes, sectors, little-endian fields |
| `Chains`, `Heap`, `Sessions` | the allocation table as a heap of linked lists, all runs of create / open / advance / close over it, and the operations on a volume as steps of those runs |
| `Disk`, `Volume`, `Directory` | FAT16 and FAT32 behind a one-sector cache with mirrored copies; handles; directory entries |
| `Sorting`, `Window` | the eight-line directory window |
| `Hardfile`, `Chs`, `Rdb`, `Ide` | Amiga hard disks: seek index, CHS addresses, synthesized partition blocks, sector commands |
| `Acsi` | Atari hard disks |
| `Xmodem` | file upload over the serial line |
| `TrackCodec`, `Floppy` | Amiga floppy tracks and drives |
| `Usart` | the interrupt-driven transmit ring |
| `CrcTable`, `Crc32`, `Firmware` | upgrade files |
| `RaFile`, `Keystream` | byte-granular reads and the encrypted ROM transfer |

`dafny verify dfyconfig.toml` checks all of it. Standing assumptions: block I/O succeeds, chains end in
exactly the EOC value that the firmware itself writes, clusters have 1 to 128 sectors (a power of two), and
the data area ends below block 2^32.

## Model

| member | source | states |
|---|---|---|
| Chains.ChainAcyclic | firmware/fat.c:1095-1123 | a chain that ends in EOC never visits a cluster twice |
| Chains.SharedTail | firmware/fat.c:145-155 | two chains that meet once are equal from there on |
| Chains.AppendExtendsChain | firmware/fat.c:1103-1118 | linking a free cluster behind the last one gives the chain with exactly that cluster appended, still EOC-terminated |
| Chains.CutShortensChain | firmware/fat.c:1345-1370 | after the cut the chain ends at the handle's cluster and every later cluster is free |
| Chains.CutFrees | firmware/fat.c:1345-1370 | the cut raises the number of free clusters by exactly the length of the tail |
| Chains.FreeCountFindsOne | firmware/fat.c:1054-1090 | the allocation search succeeds in the data area if and only if a cluster is free |
| Disks.Fat32Layout | firmware/fat.c:127-155 | entry k of a FAT32 table is the little-endian number at byte 4k of the copy; its link lacks the four top bits |
| Disks.Fat16Layout | firmware/fat.c:127-155 | entry k of a FAT16 table is the little-endian number at byte 2k |
| Disks.DataLayout | firmware/fat.c:1205-1219 | cluster 2 begins the data area, clusters follow one another, and so do the sectors of each |
| Heap.StepKeepsOk | firmware/fat.c:1054-1123 | creating, opening, advancing and closing keep all chains acyclic, EOC-terminated and pairwise disjoint, keep FSInfo = free + pending, and change no other file |
| Heap.RunKeepsOk | firmware/fat.c:1054-1370 | the same over every run of these steps by any number of files |
| Heap.RunRestoresFreeCount | firmware/fat.c:1364-1396 | when every handle of a run is closed, the reported free count is the true one |
| Sessions.CreateFile | firmware/fat.c:1221-1318 | FileCreate on a volume is the step Create: table, handles and FSInfo follow the heap; it fails only without an empty slot |
| Sessions.OpenFile | firmware/fat.c:309-379 | FileOpen is the step Open |
| Sessions.NextSector | firmware/fat.c:1095-1123 | FileNextSectorExpand is the step Advance when it enters another cluster, and no step otherwise; all other handles keep their places |
| Sessions.WriteThrough | firmware/fat.c:1095-1123 | any number of FileNextSectorExpand calls while free clusters remain: the file keeps its chain as a prefix, free clusters + cluster_change stays constant, no other file changes |
| Sessions.CloseFile | firmware/fat.c:1345-1399 | FileWriteEnd is the step Close |
| Disks.FatWrittenTable | firmware/fat.c:1036-1052 | saving one patched FAT sector to every copy changes exactly one entry of the table, and copies that agreed keep agreeing |
| Disks.SameLbaSameSector | firmware/fat.c:1163-1175 | two sectors of files on equal or disjoint chains have the same block address only if they are the same sector of the same file |
| Disks.WriteIsLocal | firmware/fat.c:1205-1219 | writing sector n changes sector n of that file and no sector of a file on a disjoint chain |
| FatVolume.Volume.FatLoad | firmware/fat.c:132-143 | afterwards the buffer equals the FAT sector with that index on the card |
| FatVolume.Volume.NextCluster | firmware/fat.c:145-155 | returns the link in the true table, whatever was buffered before |
| FatVolume.Volume.FatSave | firmware/fat.c:1036-1052 | writes the buffer to that sector of every FAT copy and nowhere else |
| FatVolume.Volume.ClusterAllocate | firmware/fat.c:1054-1090 | returns the lowest free entry from 2 on and marks it EOC, or returns 0 and leaves the card alone |
| FatVolume.Volume.FileNextSector | firmware/fat.c:1014-1033 | the handle stands on the next link exactly when the sector number enters it, and has EOC exactly behind the chain; on the chain that is where a seek by one sector ends |
| FatVolume.Volume.FileSeek | firmware/fat.c:1125-1160 | ends; succeeds exactly when the chain has link offset / cluster size, standing on it; follows no more links than the distance asks for |
| FatVolume.Volume.FileReadEx | firmware/fat.c:1178-1203 | delivers the same sectors as reading one by one, also when the range ends where the chain ends, where it reports failure |
| FatVolume.Volume.FileWrite | firmware/fat.c:1205-1219 | overwrites one sector of the file, keeps the table, the copies and the cache coherent |
| FatVolume.Volume.FileNextSectorExpand | firmware/fat.c:1095-1123 | moves like FileNextSector on the chain; behind it appends the lowest free cluster to this chain, and counts it |
| FatVolume.Volume.FileWriteEnd | firmware/fat.c:1345-1399 | ends; cuts the chain behind the handle's cluster, frees exactly the tail, adjusts cluster_change and a valid FSInfo count by it |
| FatVolume.InfoExact | firmware/fat.c:1364-1396 | an FSInfo count that lags by cluster_change is exact after the update |
| FatVolume.InfoLayout | firmware/fat.c:1372-1384 | the sector is valid if and only if "RRaA", "rrAa" and 0x55 0xAA stand in their places and the count is known |
| FatVolume.InfoCount | firmware/fat.c:1385-1390 | the little-endian count at byte 488 goes down by cluster_change modulo 2^32, and no other byte changes |
| Directory.FindSlot | firmware/fat.c:309-379 | finds the first slot accepted, over a fixed root region or a root chain, exactly when there is one |
| Directory.FileOpen | firmware/fat.c:309-379 | takes over the first entry that matches, or clears the handle when none does |
| Directory.NewEntryReads | firmware/fat.c:1272-1283 | the stored entry gives back name, attributes, dates, start cluster (split on FAT32) and size |
| Directory.EntryLayout | firmware/fat.c:1270-1284 | at which bytes of the entry name, attributes, dates, cluster and size stand; the rest is zero |
| Directory.MatchMeansName | firmware/fat.c:336-340 | a slot is accepted if and only if it carries the name, is not deleted and is neither a label nor a directory |
| Directory.StartClusterBits | firmware/fat.c:347-348 | the start cluster that is opened: the low half word, and above it on FAT32 twelve bits of the high one |
| Directory.FileCreate | firmware/fat.c:1221-1318 | allocates the lowest free cluster and fills the first slot never used; no other slot, FAT entry or sector changes |
| Directory.UpdateEntry | firmware/fat.c:1321-1343 | rewrites name, attributes and size of the handle's slot, and nothing else |
| Directory.CreateOpenRoundTrip | firmware/fat.c:1221-1318 | after a create of a new name, the new slot is the only one that open accepts for it, with the cluster and size stored |
| Directory.FileNew | firmware/fat.c:1402-1425 | reuses the chain of an existing file or makes a one-cluster chain; exactly one slot changes and names the chain and the size |
| Directory.StoredKeepsFiles | firmware/fat.c:1321-1343 | storing a slot changes no sector of a file apart from the directory's own chain |
| Window.StrNICmp | firmware/fat.c:392-406 | compares folded characters lexicographically up to the first NUL or n characters |
| Window.FoldMeans | firmware/fat.c:392-406 | capital letters count as small ones, all other characters as themselves |
| Window.OrderOfKeys | firmware/fat.c:408-453 | the comparison means: directories first, then 11 folded characters, short before long, then the rest of two long names |
| Window.ShownName | firmware/fat.c:408-453 | an entry goes by its long name if that has any character, and else by its short one |
| Window.TotalPreorderAt | firmware/fat.c:408-453 | it is a total preorder on all entries |
| Window.ListedEntries | firmware/fat.c:614-620 | which directory entries are listed: no deleted, label, hidden or dot entry, and of the others those with the extension, all with `*`, and directories on request |
| Window.Bubble | firmware/fat.c:935-971 | one pass over the permutation table inserts the last shown entry at its place; the table stays a permutation |
| Window.DirWindow.ScanInit | firmware/fat.c:622-657 | the window shows the first lines of the sorted listed entries, whatever their stored order |
| Window.DirWindow.ScanNext | firmware/fat.c:716-869 | the window stays a slice of the sorted directory and moves one entry down exactly when there is one below |
| Window.DirWindow.ScanPrev | firmware/fat.c:716-869 | the same, one entry up |
| Window.DirWindow.ScanNextPage | firmware/fat.c:514-523 | selects the last visible entry; from there the window becomes the slice up to eight entries further on, no further than the end |
| Window.DirWindow.ScanPrevPage | firmware/fat.c:524-531 | selects the first visible entry; from there it becomes the slice up to eight entries back, no further than the start |
| Window.DirWindow.Browse | firmware/fat.c:455-1005 | after SCAN_INIT and any run of the four scrolling keys the window is the slice of the sorted directory that the keys lead to |
| Window.DirWindow.SelectedEntry | firmware/fat.c:935-971 | the selected line holds the entry with the selected index of the sorted directory |
| Window.RanInside | firmware/fat.c:716-869 | no run of keys leaves the directory |
| Window.MovedByLine | firmware/fat.c:484-513 | a line key changes the index by one, and moves the window only from its edge |
| Window.MovedByPage | firmware/fat.c:514-531 | exactly where the page keys lead from any position |
| Window.PagedDown | firmware/fat.c:514-523 | k page-down keys from the start end at entry min(8k, size) - 1 |
| Window.PagedUp | firmware/fat.c:524-531 | k page-up keys from the last entry end at entry max(size - 8k, 0) |
| Window.ReachedByLines | firmware/fat.c:716-869 | every entry can be reached line by line |
| Sorting.SortMembers | firmware/fat.c:935-971 | sorting permutes the entries |
| Sorting.SortOrdered | firmware/fat.c:935-971 | and puts them in order |
| Sorting.SortFlipped | firmware/fat.c:935-971 | sorting by the opposite order reverses the result when no keys are equal |
| Sorting.HigherEntries | firmware/fat.c:716-869 | the stored entries beyond the last visible one, sorted, are the rest of the sorted directory |
| Sorting.FirstSortNext | firmware/fat.c:622-657 | keeping eight entries while streaming loses none of the first eight |
| Hardfile.FillingStops | firmware/hdd.c:826-849 | the index-filling loop stops within 1024 stores, in 32-bit arithmetic, if and only if the size meets IndexFits |
| Hardfile.HardFile.BuildHardfileIndex | firmware/hdd.c:826-849 | for such sizes it ends and every index entry is the cluster of the first sector of its stretch |
| Hardfile.HardFile.HardFileSeek | firmware/hdd.c:851-862 | from any position, ends where walking the chain from its start ends, following at most one index stretch or one FAT sector of links |
| Hardfile.LinkBoundIs | firmware/hdd.c:851-862 | the bound on the links followed: one less than the clusters of an index stretch (128 to 8192 sectors) or the entries of a FAT sector, whichever is more |
| Hardfile.JumpLinks | firmware/hdd.c:851-862 | from the start of its stretch a sector is less than a stretch of clusters away |
| Hardfile.NearLinks | firmware/hdd.c:851-862 | sectors whose links share a FAT sector are less than a FAT sector of links apart |
| Chs.ToLbaOfFromLba | firmware/hdd.c:225-227 | every block of a unit has an address below its last cylinder that translates back to it |
| Chs.FromLbaOfToLba | firmware/hdd.c:225-227 | every address of a unit translates to a block of the unit and back to itself |
| Chs.StepsAdvance | firmware/hdd.c:367-383 | stepping the task file n times adds n to the block number and never leaves the valid addresses |
| Chs.StepMultiple | firmware/hdd.c:496-529 | a multiple transfer of N sectors ends at the address of the last one, in ceil(N / block) blocks |
| Chs.GetHardfileGeometry | firmware/hdd.c:762-824 | the geometry found is the first in the order of the search with at most 1023 cylinders (above 2^20 sectors: 65535) and leaves out less than one cylinder |
| Rdb.RdbChecksum | firmware/hdd.c:45-53 | afterwards the summed longs add up to 0 mod 2^32, and only the checksum changed |
| Rdb.FakeRdb | firmware/hdd.c:59-151 | blocks 0 and 1 sum to 0 and carry the field table; later blocks are zero |
| Rdb.RdskNames | firmware/hdd.c:68-97 | the host finds "RDSK", the pointer to block 1, no other lists, and the warning text |
| Rdb.PartNames | firmware/hdd.c:112-137 | the host finds "PART", the drive name DH0 or DH1, the file system DOS\1, and no further partition |
| Rdb.BlocksAgree | firmware/hdd.c:59-151 | the partition begins behind the first cylinder and takes up all others; both blocks agree on heads, sectors and cylinder range |
| Rdb.ChecksumUnique | firmware/hdd.c:45-53 | only one checksum makes a block sum to zero |
| Rdb.PatchKeepsSum | firmware/hdd.c:397-403 | the flag patch on a real block 0 keeps its sum and every other long |
| Rdb.BytesReadBack | firmware/hdd.c:59-151 | a block written in memory order reads back as the same big-endian longs |
| Ide.IdeUnit.Mount | firmware/hdd.c:864-927 | geometry and offset of an opened image; the synthesized cylinder count is right exactly below 65535 * 32 sectors |
| Ide.HostFindsImage | firmware/hdd.c:59-151 | going by the big-endian fields of the blocks 0 and 1 it reads, the host finds partition block m on image sector m, and the partition is the image up to its last complete cylinder |
| Ide.ImageShows | firmware/hdd.c:386-404 | image blocks show as they are; on block 0 of unit 0 only flags (0x12) and checksum differ and the sum is kept |
| Ide.IdeUnit.ReadSectors | firmware/hdd.c:346-425 | sends the run of virtual blocks asked for, also across the boundary of the synthesized cylinder, and shows the address of each successor |
| Ide.IdeUnit.WriteSectors | firmware/hdd.c:581-660 | writes the blocks behind the boundary to the image and drops the others |
| Ide.WrittenReadsBack | firmware/hdd.c:581-660 | after a write the virtual disk reads as before with exactly those blocks replaced |
| Ide.WrittenIsIsolated | firmware/hdd.c:581-660 | no other file on the volume notices a write |
| Ide.TaskFileShows | firmware/hdd.c:367-383 | during sector i of n the host finds the valid address of the next sector, and at the end that of the last one |
| Acsi.Decode | firmware/tos.c:223-253 | six-byte commands never wrap and ask for 1 to 256 blocks |
| Acsi.DecodesSixByte | firmware/tos.c:223-233 | decoding inverts the layout of six-byte commands for every target, LUN, 21-bit address and 1 to 256 blocks |
| Acsi.DecodesTenByte | firmware/tos.c:309-320 | the same for READ(10) and WRITE(10), all 32-bit addresses and 16-bit lengths |
| Acsi.CheckIsRight | firmware/tos.c:321 | the 32-bit range check refuses every range that is not on the disk, if and only if the end does not wrap or wraps behind the disk |
| Acsi.CheckCanWrap | firmware/tos.c:321 | a request that passes it although its block does not exist |
| Acsi.Controller.HandleAcsi | firmware/tos.c:253-453 | one command of either target does to the images, the sense codes and the answer what it does to two arrays of blocks |
| Acsi.Controller.HandleAll | firmware/tos.c:253-453 | any run of commands refines the two arrays, answer by answer; FAT, directories and every other file stay as they were |
| Acsi.CommandsAreIsolated | firmware/tos.c:253-453 | a command leaves the other target alone, and a refused one both |
| Acsi.OutOfRangeRefused | firmware/tos.c:321-355 | an out-of-range transfer changes nothing and sets sense code 0x21 |
| Acsi.SenseReportsOutcome | firmware/tos.c:253-453 | the 18 sense bytes report the outcome of the preceding command, once: 0x20 exactly for unknown commands, 0x25 exactly for known ones on another LUN, 0x21 exactly for blocks that do not exist |
| Acsi.ReadAfterWrite | firmware/tos.c:309-393 | a block reads (0x08, 0x28) as last written (0x0A, 0x2A) and the others as before |
| Acsi.RunKeepsUnwritten | firmware/tos.c:309-393 | over any run a block changes only by a command that writes it |
| Xmodem.StepFollows | firmware/xmodem.c:168-252 | the receiver keeps in step with an error-free sender, also when the block number wraps |
| Xmodem.ScriptFed | firmware/xmodem.c:168-252 | fed with the frames of a file it takes the bytes in order and acknowledges each block |
| Xmodem.SecondNumberUnchecked | firmware/xmodem.c:201 | of the 256 bytes behind a block number the receiver judges exactly two as the protocol does |
| Xmodem.FrameJudged | firmware/xmodem.c:168-252 | whatever a frame of the expected number holds, its data is taken in order, and it is acknowledged, and the number advanced, exactly if its checksum is right |
| Xmodem.OtherNumberRefused | firmware/xmodem.c:192-211 | a frame with another number is refused at once and none of it taken |
| Xmodem.ChecksumDetects | firmware/xmodem.c:214-218 | the checksum notices every change of one byte |
| Xmodem.TakenIsAcknowledged | firmware/xmodem.c:213-252 | over any run of frames the data taken is the data acknowledged if and only if no frame fails its checksum |
| Xmodem.Receiver.RxByte | firmware/xmodem.c:168-252 | one byte advances the protocol and the file together: complete sectors on the card, the rest in the buffer |
| Xmodem.Upload | firmware/xmodem.c:168-252 | every block and the EOT are acknowledged; the chain holds the bytes and has exactly the clusters they need |
| Xmodem.Transfer | firmware/xmodem.c:94-258 | from name to EOT, for a new file or an existing longer or shorter one: the directory slot of that name holds the length and the chain, the chain holds the bytes in order in ceil(L / cluster) clusters, a true FSInfo count stays true, and no other slot or file changes |
| TrackCodec.SendSector | firmware/fdd.c:60-163 | sends preamble, sync, coded header, checksums and coded data of one sector |
| TrackCodec.SendTrack | firmware/fdd.c:60-170 | eleven sectors and the gap are exactly 12668 bytes |
| TrackCodec.HalvesOfByte | firmware/fdd.c:80-120 | odd bits go into the first half and even bits into the second, between clock places that are clear in info bytes and set in data |
| TrackCodec.InfoLayout | firmware/fdd.c:67-110 | a sector begins with the sync words and the halves of 0xFF, track, sector and distance to the gap |
| TrackCodec.LabelLayout | firmware/fdd.c:112-126 | then come the empty label and the checksum of the info bytes |
| TrackCodec.DataLayout | firmware/fdd.c:152-162 | byte i of the data is at 64 + i and 576 + i |
| TrackCodec.NoFalseSync | firmware/fdd.c:60-170 | the stream has its 22 sync words and no other, at any alignment |
| TrackCodec.HeaderRoundTrip | firmware/fdd.c:332-472 | a sent header decodes to its track and sector |
| TrackCodec.DataRoundTrip | firmware/fdd.c:474-588 | a sent data field is accepted and decodes to the same 512 bytes |
| TrackCodec.OneByteDetected | firmware/fdd.c:474-588 | a good data field with one byte changed is accepted if and only if none of its data bits changed |
| TrackCodec.HeaderErrorMeans | firmware/fdd.c:332-472 | which headers are good, and that the error number names the first condition that fails |
| TrackCodec.HeaderByteDetected | firmware/fdd.c:332-472 | a good header with one byte changed is accepted if and only if none of its data bits changed |
| TrackCodec.Fifo.FindSync | firmware/fdd.c:291-330 | stops behind the next sync word of a matching write request, if there is one |
| TrackCodec.Fifo.GetHeader | firmware/fdd.c:332-472 | the error number, the bytes left unread and the decoded numbers for any 50 bytes |
| TrackCodec.Fifo.GetData | firmware/fdd.c:474-588 | accepts exactly fields whose checksum is right; the data is in the buffer either way |
| TrackCodec.ReceiveTrack | firmware/fdd.c:291-588 | repeated decoding of a sent track recovers all eleven sectors in order |
| Floppy.Drive.InsertFloppy | firmware/menu.c:2983-3040 | the cache names the cluster of image sector 11 t for every track t, and the saved position is the start of track 0 |
| Floppy.ReadTrack | firmware/fdd.c:173-289 | sends image sectors 11 track + s for consecutive s around the track, one for each leading poll that wants it, with that poll's sync word |
| Floppy.WriteTrack | firmware/fdd.c:590-644 | every accepted sector lands on image sector 11 track + Sector, the repositioning ends, and every track but the next can be resumed |
| Floppy.TrackOutcome | firmware/fdd.c:291-644 | of an encoded track with any one byte replaced, none is accepted on another track, and otherwise all sectors but at most the one the byte is in: that one if and only if a sync byte or a data bit changed |
| Floppy.SectorOutcome | firmware/fdd.c:332-644 | the same for one sector anywhere in a stream: what is accepted of it, and that the decoder goes on with the next |
| Floppy.StoreTrack | firmware/fdd.c:590-644 | writing an encoded track with any one byte replaced on the way stores exactly its sectors that are not lost, in their places, and changes nothing else on the card |
| Floppy.ReadBehindWrite | firmware/fdd.c:601 | which sector a read of track t + 1 directly behind a write of track t begins with, and that it is the right one if and only if it lies in the saved cluster |
| Usart.RunKeepsOk | firmware/hardware.c:140-210 | under every interleaving the writer stores only with room, a direct write finds the ring empty, and a non-empty ring has its interrupt enabled or about to be |
| Usart.CallAccount | firmware/hardware.c:192-210 | during one call the stream grows by the caller's byte and shrinks by the bytes overwritten |
| Usart.CallsAccount | firmware/hardware.c:140-210 | the same over any number of calls with any backlog |
| Usart.CallsInOrder | firmware/hardware.c:140-210 | the line carries exactly the bytes written, in order, if and only if no direct write hit a byte in the holding register |
| Usart.CallIsSafe | firmware/hardware.c:192-210 | a call loses nothing under every interleaving if and only if the ring is empty when it is made |
| Usart.LosingLoses | firmware/hardware.c:192-210 | for every backlog an interleaving that loses a byte |
| Usart.WaitEnds | firmware/hardware.c:201-203 | a writer that waits for room leaves the loop when the transmitter has taken one byte |
| Usart.Drains | firmware/hardware.c:154-166 | between calls the interrupts alone send everything in the ring, in order, and the last one turns itself off |
| Usart.Port.Usart0IrqHandler | firmware/hardware.c:154-166 | the handler on the ring's variables is the step Irq |
| Usart.Port.WriteStep | firmware/hardware.c:192-210 | each access of USART_Write is the step Main |
| CrcTable.EntryIsPolynomial | firmware/firmware.c:33-69 | all 256 table entries are eight bits of division by 0xEDB88320 |
| Crc32.CalculateCRC32 | firmware/firmware.c:71-77 | the loop computes the CRC of its buffer from the given register |
| Crc32.CrcConcat | firmware/firmware.c:71-77 | feeding a buffer in parts gives the same register |
| Crc32.CrcIsBitwise | firmware/firmware.c:71-77 | the table-driven register is the bitwise CRC of the polynomial |
| Crc32.RoundInjective | firmware/firmware.c:71-77 | one round is injective in the register and in the byte |
| Crc32.OneByteMatters | firmware/firmware.c:71-77 | buffers that differ in exactly one byte have different CRCs |
| Firmware.MakeUpgrade | firmware/mkupg.c:107-130 | every file written is acceptable and carries the ROM and the dated version text |
| Firmware.AcceptsMeans | firmware/firmware.c:95-132 | acceptable means: "MNMGUPG", the right length at byte 32, and the complemented bitwise CRC-32 of ROM and header, least significant byte first, at bytes 36 and 508 |
| Firmware.CheckFirmware | firmware/firmware.c:95-132 | returns 1 exactly for acceptable images, with the handle back at the start |
| Firmware.DamageIsRejected | firmware/firmware.c:95-132 | an acceptable image with any one byte changed is not acceptable |
| RaFiles.PlanExact | firmware/rafile.c:3-48 | a read delivers the bytes asked for if and only if it starts on a sector boundary or asks for at least 512 bytes |
| RaFiles.RaFile.RARead | firmware/rafile.c:3-48 | delivers the planned bytes, advances the position, and after a good read is ready for the next; behind the chain the buffered part is still right |
| RaFiles.RaFile.RAOpen | firmware/rafile.c:71-80 | starts at byte 0 of the file |
| Keystream.EncryptSector | firmware/fpga.c:444-449 | combines a sector in place with the key from its running position on, and returns the next position |
| Keystream.HeaderSize | firmware/fpga.c:436 | the header is what the size has over a multiple of 256 |
| Keystream.SendFileEncrypted | firmware/fpga.c:425-483 | sends file[header + i] XOR key[i mod keysize] for every payload byte i, in whole sectors |
| Keystream.KeyUndone | firmware/fpga.c:444-449 | applying the key again restores the payload |
| Keystream.XorBits | firmware/fpga.c:446 | a bit of the result is set exactly if it is set in one of payload and key |
| Keystream.XorLaws | firmware/fpga.c:446 | key byte 0 changes nothing, a byte hides itself, and different key bytes give different results |

## Findings

Where the code does not keep what its callers expect, the model keeps the code and states the exact condition.

- `USART_Write` reads the status before it compares the ring pointers. If the handler empties the ring in
  between, the direct write overwrites the byte the handler has just put into the holding register
  (`Usart.LosingLoses`, `Usart.CallIsSafe`, `Usart.CallsInOrder`).
- The ACSI range check adds address and length in 32 bits; 0xFFFFFFFF + 1 passes on any disk
  (`Acsi.CheckCanWrap`, `Acsi.CheckIsRight`).
- `WriteTrack` sets the previous track to t + 1, so a read of t + 1 that follows resumes at the saved position
  of another track (`Floppy.ReadBehindWrite`). With clusters of up to 8 sectors, a read of track t, a write of
  track t and a read of track t + 1 never start in the right cluster.
- `BuildHardfileIndex` writes behind its table or never ends for sizes outside `Hardfile.IndexFits`
  (`Hardfile.FillingStops`).
- `RARead` of fewer than 512 bytes from the middle of a sector delivers the wrong bytes (`RaFiles.PlanExact`).
- A frame with a wrong checksum is refused, but its data stays in the sector buffer, so that the repeated frame is
  stored behind it (`Xmodem.TakenIsAcknowledged`).
- `block == 0xff^byte` compares before it combines: nearly any byte passes for the inverted block number
  (`Xmodem.SecondNumberUnchecked`).
- The condition at hdd.c:388 contains `type == HDF_FILE | HDF_SYNTHRDB`, which is always true, so block 0 of unit
  0 is always patched. `Ide.VirtualBlock` describes the patched block.
- `ClusterAllocate` searches every FAT entry, also those behind the last cluster of the volume, and
  `FileNextSectorExpand` reports success with cluster 0 when the FAT is full.
- The synthesized cylinder count is cut to 16 bits from 65535 * 32 sectors on (`Ide.IdeUnit.Mount`).

## Left out

- Block I/O errors, card removal, and time-outs of the serial protocol.
- The file that damaged XMODEM frames leave behind; Xmodem.TakenIsAcknowledged is about the bytes taken. The UPLOAD
  command and the parsing of the name line; the model starts when the name and the length are complete.
- Xmodem.Transfer: asks for room on the card (an existing file's clusters count) and a sender that stops at the
  announced length, because the firmware reports a full card as success.
- FatVolume.Volume.FileSeek: from handles on their chain; a seek that failed leaves the handle inconsistent.
- Ide.IdeUnit.ReadSectors: needs a later sector on the image's chain, because the closing FileSeek otherwise fails
  and leaves the handle inconsistent.
- Ide.IdeUnit.WriteSectors: needs one as well, for the same reason.
- READ MULTIPLE and WRITE MULTIPLE beyond their address stepping, and READ MULTIPLE inside the synthesized
  cylinder, which the source marks as unfinished.
- Acsi.Controller.HandleAcsi: excludes block transfers whose 32-bit range wraps, where the range check is wrong.
- The data bytes of INQUIRY, MODE SENSE and READ CAPACITY, and direct card access in ACSI.
- Letter search in the directory window, the assembly of long names (taken as validated), and changes of the
  directory between two calls. The slice results need distinct keys.
- Subdirectories: files are opened and created in the root directory.
- Directory.FileCreate: tries one empty slot when no cluster is free, where the code tries each of them in vain.
- HardFileSeek compares FAT sectors by masking; the model compares quotients.
- CheckFirmware and RAOpen start behind a successful FileOpen. RASeek is not modelled: it passes a byte offset to
  a seek by sectors.
- RaFiles.RaFile.RARead: reaches at most into the one sector behind the chain that the last block of a ROM touches.
- Keystream.SendFileEncrypted: for sizes that do not come within 511 bytes of 2^32.
- Polling: the FPGA's answers are a finite sequence, and the write FIFO reports all remaining words.
- The receive ring of the serial port. The store into the transmit ring is taken to happen before its index moves.
- Floppy.Drive.InsertFloppy: for images of at least one track.
- Floppy.ReadTrack: asks that the saved position belongs to the track it marks; Floppy.ReadBehindWrite describes
  the other case.
- Custom sync words appear in SendSector only; the round trip is for 0x4489. The running checksum of a data field
  is kept per half and combined at the end.
