# U-Boot 1.1.6 `common/`: a verified model

This project models the algorithms in the `common/` directory of U-Boot 1.1.6 that work on
bytes, lists and address ranges, and proves what they promise. Hardware is a parameter: a
memory, a bus, a bank of flash chips, or an oracle that says how a transfer or a driver call
goes. Code that updates state in loops is modelled by Dafny methods and classes with the same
loops and branches; each is proved against a specification function or states its property
outright, and the lemmas prove what the specification means.

| file | models |
|---|---|
| `Environment.dfy`, `EnvironmentStore.dfy` | the packed environment of `cmd_nvedit.c` as an ordered map |
| `Kermit.dfy`, `KermitReceiver.dfy` | the Kermit receiver of `cmd_load.c` |
| `SRecord.dfy` | S-record upload and download of `cmd_load.c`, with `s_record.c` |
| `Flash.dfy` | flash range selection, erase and protect of `cmd_flash.c` |
| `Memsize.dfy`, `MtdParts.dfy`, `MtdOrder.dfy`, `MtdRoundTrip.dfy`, `MtdReparse.dfy`, `MtdText.dfy`, `MtdTable.dfy`, `MtdCode.dfy` | the MTD partition table of `cmd_jffs2.c`: parser, printer, order of the list and current index |
| `MtdFlash.dfy` | accepted partitions handed to the flash commands |
| `MemTest.dfy` | the alternative memory test of `cmd_mem.c` over faulty memories |
| `Crc16.dfy`, `Crc16Table.dfy` | `crc16.c` as division of polynomials over GF(2) |
| `Eeprom.dfy` | paged EEPROM transfers of `cmd_eeprom.c` |
| `Bedbug.dfy`, `BedbugStep.dfy` | assembler, operand decoder and stepping of `bedbug.c` |
| `Ring.dfy`, `Circbuf.dfy`, `LogBuffer.dfy` | the rings of `circbuf.c` and `cmd_log.c` |
| `Floppy.dfy` | floppy reads of `cmd_fdc.c` |
| `MultiImage.dfy`, `Gzip.dfy`, `BootPlacement.dfy`, `BootCopy.dfy` | image layout, gzip header, memory placement and chunked copy of `cmd_ximg.c` and `cmd_bootm.c` |
| `DivMod.dfy`, `Wrappers.dfy` | powers of two, quotients and remainders; the option type |

Words of 32 bits are integers below 2^32 with every wrap-around written out, or sets of bits
where the code works bit by bit. A polynomial over GF(2) is the set of its exponents.

## Findings

Where the code does less than its documentation suggests, the model keeps the code and the
exact condition is proved.

- MTD round trip: a partition smaller than 4096 bytes, or one of size 0xFFFFFFFF with another
  behind it, is printed but cannot be read back (`MtdRoundTrip.MtdpartsRoundTrip`,
  `MtdRoundTrip.SmallPartExample`). Partitions at one offset come back in the reverse order
  (`MtdRoundTrip.TieExample`), so that only the second time restores the table
  (`MtdReparse.ReparseTwice`).
- MTD deletion: when the deleted partition stands behind the current one at the same offset,
  the index of the current partition is decremented; the one before becomes current, or the
  8-bit index becomes 255 and names none (`MtdTable.Table.PartDel`, `MtdTable.StrayExample`).
- Flash: a partition that ends at 2^32 also selects sectors of a later bank at address 0,
  because the search address wraps (`MtdFlash.PartitionSelection`, `MtdFlash.WrapExample`).
- Kermit: behind the place where damage shows, the receiver looks for the next mark inside the
  rest of the packet. A character that became ETX there ends the session, one that became
  START is taken for a packet; exactly damage without such marks costs one refusal and nothing
  else (`Kermit.DamageDecides`, `Kermit.HarmlessExact`, `Kermit.AbortExample`).
- Kermit: a damaged repetition that comes after an intact transmission of the same packet takes
  the packet back; the data is kept exactly if the last transmission is intact
  (`Kermit.PacketAttempts`, `Kermit.RepetitionLoses`, `Kermit.RepetitionExample`).
- Memory test: a cell frozen at the test pattern hides aliasing from the address-line test
  (`MemTest.LinesPassIff`, `MemTest.FrozenExample`).
- S-records: an upload of no bytes is reported as 2 bytes on download (`SRecord.SaveLoad`).
- Single step: for BO encodings with a reserved z bit set the switch never takes the branch,
  although the architecture does (`BedbugStep.ListedExact`).
- Floppy: the command byte for the track names the sector of a block exactly for the blocks of
  the first 256 tracks (`Floppy.IssuedExact`).
- RAM disk placement: with `initrd_high` not 0 but below the size of the RAM disk, the high
  address wraps round, and it is taken unless it is below the limit. A disk too large for the
  area below the board info is placed well only where it fits high; else the low address wraps
  round (`BootPlacement.PlacementSound`, `BootPlacement.WrapExample`,
  `BootPlacement.LargeDiskExample`).
- Copying images with a watchdog: memmove chunk by chunk is memmove if and only if the
  destination does not start inside the source behind its start, or one chunk is enough
  (`BootCopy.ChunksExact`).

## Model

| member | source | states |
|---|---|---|
| `Environment.SetEnvMeaning` | u-boot-1.1.6/common/cmd_nvedit.c:155-389 | one setenv call as a change of an ordered map: refused exactly for a name with `=`, and for a variable that is there when it is `serial#` or `ethaddr`, when `stdin`, `stdout` or `stderr` would be deleted or its device is refused, or when the rate of `baudrate` is not supported; what deletion, overflow and success leave, that every other variable keeps value and order, and that the layout stays within the array |
| `Environment.SetEnvFrame` | u-boot-1.1.6/common/cmd_nvedit.c:155-389 | a call about one name never changes the value of another |
| `Environment.RunSafety` | u-boot-1.1.6/common/cmd_nvedit.c:189-206 | over every sequence of calls the environment stays sound, `serial#` and `ethaddr` keep the value they have, and names not mentioned keep theirs |
| `Environment.ImageText` | u-boot-1.1.6/common/cmd_nvedit.c:301-331 | the layout character by character: texts ended by NUL, one more NUL at the end |
| `Environment.HoldsUnique` | u-boot-1.1.6/common/cmd_nvedit.c:491-511 | an array holds at most one list: the packed layout is unambiguous |
| `Environment.NoDoubleNul` | u-boot-1.1.6/common/cmd_nvedit.c:301-304 | two NULs in a row occur only at the end of the packed list, so the scan for the end finds it |
| `Environment.MatchStep` | u-boot-1.1.6/common/cmd_nvedit.c:564-574 | each comparison step of envmatch decides, or extends, the agreement of the key with the variable's name |
| `EnvironmentStore.Store.EnvMatch` | u-boot-1.1.6/common/cmd_nvedit.c:564-574 | the index of the value exactly if the key names the variable, else -1 |
| `EnvironmentStore.Store.Search` | u-boot-1.1.6/common/cmd_nvedit.c:175-184 | the scanning loops find the first variable with the name and where its text and value lie |
| `EnvironmentStore.Store.GetEnv` | u-boot-1.1.6/common/cmd_nvedit.c:491-511 | getenv is the look-up in the list the array holds |
| `EnvironmentStore.Store.Delete` | u-boot-1.1.6/common/cmd_nvedit.c:263-277 | shifting the bytes down leaves an array that holds the list without that variable |
| `EnvironmentStore.Store.Append` | u-boot-1.1.6/common/cmd_nvedit.c:297-331 | the exact-fit check: the variable is appended if it fits, and nothing changes if not |
| `EnvironmentStore.Store.SetEnv` | u-boot-1.1.6/common/cmd_nvedit.c:155-389 | the in-place array after a call holds the list and returns the code of the specification; a call about `serial#` or `ethaddr` when it is there returns 1 and changes nothing |
| `EnvironmentStore.Store.Execute` | u-boot-1.1.6/common/cmd_nvedit.c:155-389 | any sequence of calls leaves an array that holds the list of the run, of which RunSafety speaks |
| `Kermit.QuoteRoundTrip` | u-boot-1.1.6/common/cmd_load.c:569-577 | unquoting undoes the sender's control prefixing, and a quoted text has no control character |
| `Kermit.GoodPacket` | u-boot-1.1.6/common/cmd_load.c:866-956 | an intact packet, short or extended, is accepted and only its own data is fed |
| `Kermit.BadPacket` | u-boot-1.1.6/common/cmd_load.c:957-966 | every detectable damage behind the sequence character, whatever its characters became, is found at a place that the damage determines, and undoes the packet |
| `Kermit.OneBitRefused` | u-boot-1.1.6/common/cmd_load.c:946-953 | whichever bit of whichever character behind the sequence character is inverted, the packet is refused and nothing of it is kept |
| `Kermit.SequenceBitRefused` | u-boot-1.1.6/common/cmd_load.c:946-953 | a packet with an inverted bit in its sequence character is refused too |
| `Kermit.GoodStep` | u-boot-1.1.6/common/cmd_load.c:800-976 | an intact transmission is acknowledged and delivers its data after what preceded the packet |
| `Kermit.BadStep` | u-boot-1.1.6/common/cmd_load.c:800-976 | a damaged transmission without marks behind the place where the damage shows is refused with one NAK and nothing of it is kept |
| `Kermit.DamageDecides` | u-boot-1.1.6/common/cmd_load.c:800-976 | any detectable damage: the packet is refused and undone, and behind the place where it shows the first mark decides (none: the next transmission is awaited; ETX: the session is aborted; START: a packet is read there) |
| `Kermit.MarkDecides` | u-boot-1.1.6/common/cmd_load.c:852-863 | what the receiver makes of a line is decided by its first START or ETX |
| `Kermit.HarmlessExact` | u-boot-1.1.6/common/cmd_load.c:800-976 | damage costs one NAK and nothing else if and only if no mark stands behind the place where it shows |
| `Kermit.AbortExample` | u-boot-1.1.6/common/cmd_load.c:854-863 | a damaged packet that aborts the session |
| `Kermit.PacketAttempts` | u-boot-1.1.6/common/cmd_load.c:887-896 | any number of transmissions of one packet deliver its data once, exactly if the last is intact |
| `Kermit.RepetitionLoses` | u-boot-1.1.6/common/cmd_load.c:887-896 | a damaged repetition of an acknowledged packet, then the end packet: the session completes without the data |
| `Kermit.RepetitionExample` | u-boot-1.1.6/common/cmd_load.c:887-896 | such a session with one byte of data |
| `Kermit.BreakAttempts` | u-boot-1.1.6/common/cmd_load.c:800-976 | the end packet, damaged any number of times and then intact, ends the session with the same data |
| `Kermit.Delivery` | u-boot-1.1.6/common/cmd_load.c:800-976 | for every run of a stop-and-wait sender the bytes from the start address to the returned size are the unquoted payloads of the distinct packets, in order and once each, and the answers are ACK for intact and NAK for damaged transmissions |
| `Kermit.DeliverPayload` | u-boot-1.1.6/common/cmd_load.c:674-705 | what the packets deliver is the unquoting of all their data, wherever it was cut |
| `Kermit.FileDelivery` | u-boot-1.1.6/common/cmd_load.c:800-976 | a file sent with control prefixing arrives unchanged and its size is returned |
| `Kermit.SendInitQuote` | u-boot-1.1.6/common/cmd_load.c:722-761 | an intact send-init packet sets the control prefix to its sixth parameter, or to `#` |
| `Kermit.BetweenPackets` | u-boot-1.1.6/common/cmd_load.c:852-863 | between packets character 3 aborts the session, 1 starts a packet, and all others are skipped |
| `Kermit.LiteralSession` | u-boot-1.1.6/common/cmd_load.c:866-956 | a session written out character by character, with an extended packet and a prefixed control character, is acknowledged packet by packet and delivers its four bytes |
| `KermitReceiver.Receiver.KDataChar` | u-boot-1.1.6/common/cmd_load.c:690-705 | the escape handling of one character on the fields |
| `KermitReceiver.Receiver.PacketError` | u-boot-1.1.6/common/cmd_load.c:957-966 | the state goes back to the checkpoint and a NAK is sent |
| `KermitReceiver.Receiver.ReadPacket` | u-boot-1.1.6/common/cmd_load.c:860-966 | the reading loops for one packet reach the state, the input position and the answer of the specification |
| `KermitReceiver.Receiver.KRecv` | u-boot-1.1.6/common/cmd_load.c:800-976 | k_recv ends, waits or is aborted as the specification of a session says, with its state and answers |
| `KermitReceiver.ReceiveFile` | u-boot-1.1.6/common/cmd_load.c:531-558 | a sender's run with repetitions and detectable damage leaves the file in memory, from the start address to the returned size |
| `KermitReceiver.ReceiveSession` | u-boot-1.1.6/common/cmd_load.c:800-976 | k_recv on that session returns 4, with the bytes in memory |
| `SRecord.RecordSum` | u-boot-1.1.6/common/cmd_load.c:356-374 | the bytes of every record, checksum included, sum to 0xFF modulo 256 |
| `SRecord.DecodeLine` | u-boot-1.1.6/common/s_record.c:30-170 | a record of any type with its length decodes to its type, address and data if its bytes, checksum included, sum to 0xFF modulo 256, and is refused if they do not; a count record has no data |
| `SRecord.DecodeSound` | u-boot-1.1.6/common/s_record.c:30-170 | whatever is decoded has the type, address length, byte count and sum of a record |
| `SRecord.DecodeSkips` | u-boot-1.1.6/common/s_record.c:43-51 | what stands before the first S is skipped, and a line without S is empty |
| `SRecord.DataRecord` | u-boot-1.1.6/common/cmd_load.c:166-188 | S1, S2 and S3 records, with two, three and four address bytes, store their data at that address plus the offset and go on; with a wrong sum the download aborts |
| `SRecord.EndRecord` | u-boot-1.1.6/common/cmd_load.c:189-203 | S7, S8 and S9 records, with four, three and two address bytes, end the download with that address and the size of the range stored at |
| `SRecord.PassedRecord` | u-boot-1.1.6/common/cmd_load.c:204-207 | S0 and S5 records change nothing |
| `SRecord.UnknownRecord` | u-boot-1.1.6/common/s_record.c:98-99 | a record of any other type aborts the download |
| `SRecord.RecordExample` | u-boot-1.1.6/common/cmd_load.c:166-188 | the line `S1051000AABB85` stores two bytes at 0x1000 |
| `SRecord.LoadRecords` | u-boot-1.1.6/common/cmd_load.c:159-188 | replaying the data records of a block of any length, at any offset, stores the block and extends the address range |
| `SRecord.SaveLoad` | u-boot-1.1.6/common/cmd_load.c:332-385 | replaying an upload at any offset restores the block there and reports its length; an empty block reports 2 |
| `SRecord.LineEnds` | u-boot-1.1.6/common/cmd_load.c:218-254 | a line ends at CR or LF and after 516 characters, and NUL and control-C abort the download |
| `SRecord.WrapIsMod` | u-boot-1.1.6/common/cmd_load.c:170-193 | addresses and sizes are taken modulo 2^32 |
| `SRecord.PutContains` | u-boot-1.1.6/common/cmd_load.c:181-183 | storing data leaves each of its bytes at its address |
| `SRecord.PutOutside` | u-boot-1.1.6/common/cmd_load.c:181-183 | storing data changes no other address |
| `SRecord.AddAddress` | u-boot-1.1.6/common/cmd_load.c:364-366 | the shifting loop adds the four address bytes |
| `SRecord.SaveSerial` | u-boot-1.1.6/common/cmd_load.c:332-385 | the collecting loop sends header, sixteen-byte records at consecutive addresses and end record |
| `SRecord.SaveLines` | u-boot-1.1.6/common/cmd_load.c:327-385 | an upload line by line: the header, an S3 record for every sixteen bytes at their address, the end record, and nothing else |
| `SRecord.LineExample` | u-boot-1.1.6/common/cmd_load.c:328 | the record of one byte at 0x1000, character by character |
| `SRecord.ReadLine` | u-boot-1.1.6/common/cmd_load.c:218-254 | the character loop yields the next line, at most 516 characters of it, or the abort |
| `SRecord.Target.LoadSerial` | u-boot-1.1.6/common/cmd_load.c:143-216 | the record loop ends with the outcome of the specification and the memory it stored |
| `SRecord.SaveAndLoad` | u-boot-1.1.6/common/cmd_load.c:143-216 | save_serial followed by load_serial: the block is in memory at its address plus the offset, nothing else has changed, and its size is reported |
| `Flash.SelectExact` | u-boot-1.1.6/common/cmd_flash.c:229-265 | within a bank exactly the sectors that meet the range are selected and each lies inside it |
| `Flash.RangeSelection` | u-boot-1.1.6/common/cmd_flash.c:198-279 | on contiguous banks a range is accepted if and only if it starts at a sector start and ends at a sector end or behind the flash; then exactly the sectors meeting it are selected, all inside it, and the count is their number |
| `Flash.ExactCount` | u-boot-1.1.6/common/cmd_flash.c:198-279 | an exact selection counts the sectors that meet the range |
| `Flash.FillRounds` | u-boot-1.1.6/common/cmd_flash.c:214-272 | the rounds of the bank loop, with the search address of each and why the loop stops |
| `Flash.ScanBank` | u-boot-1.1.6/common/cmd_flash.c:229-245 | the sector loop finds the sector that starts at the lower and the one that ends at the upper address |
| `Flash.FillSectRanges` | u-boot-1.1.6/common/cmd_flash.c:198-279 | the arrays, the count and the return code are those of the specified selection |
| `Flash.Chips.SectErase` | u-boot-1.1.6/common/cmd_flash.c:404-443 | the erase calls are the selected ranges in order up to the first error, whose code is returned; a refused or empty range makes no call |
| `Flash.ErasesUpTo` | u-boot-1.1.6/common/cmd_flash.c:421-440 | the calls are a prefix of the selected ranges: all of them without an error, else up to the one whose code is returned |
| `Flash.RangesExact` | u-boot-1.1.6/common/cmd_flash.c:421-440 | those ranges are the selections, each once and by ascending bank |
| `Flash.Chips.SectProtect` | u-boot-1.1.6/common/cmd_flash.c:620-671 | exactly the flags of the selected sectors are set to the value, all others keep theirs |
| `Flash.SetFlags` | u-boot-1.1.6/common/cmd_flash.c:648-656 | the inner loop sets the flags of one range of sectors and no other |
| `Memsize.StrtoulDec` | u-boot-1.1.6/lib_generic/vsprintf.c:24-49 | decimal output is read back, with everything behind it |
| `Memsize.MemsizeRoundTrip` | u-boot-1.1.6/common/cmd_jffs2.c:198-245 | memsize_parse undoes memsize_format for every 32-bit size |
| `Memsize.StrtoulHex` | u-boot-1.1.6/lib_generic/vsprintf.c:24-49 | `0x` and hexadecimal digits in either case are read back |
| `Memsize.StrtoulOctal` | u-boot-1.1.6/lib_generic/vsprintf.c:24-49 | a leading zero and octal digits are read back |
| `Memsize.SizeText` | u-boot-1.1.6/common/cmd_jffs2.c:198-218 | decimal, octal and hexadecimal numbers with k, m or g in either case stand for the number times 1024, 1048576 or 1073741824, modulo 2^32 |
| `Memsize.FormatSuffix` | u-boot-1.1.6/common/cmd_jffs2.c:232-245 | sizes are printed with the largest suffix that divides them |
| `MtdParts.ValidateRange` | u-boot-1.1.6/common/cmd_jffs2.c:407-437 | an accepted partition satisfies offset < offset + size <= device size without wrap-around; '-' reaches the end of the device, and accepting is idempotent |
| `MtdText.FillSize` | u-boot-1.1.6/common/cmd_jffs2.c:615-628 | a definition of `-` has the size of all that is left and is the last of its device; any other is at least 4096 |
| `MtdText.PartWritten` | u-boot-1.1.6/common/cmd_jffs2.c:602-710 | however size and offset are written, the definition is that of their numbers |
| `MtdText.FillDevice` | u-boot-1.1.6/common/cmd_jffs2.c:1402-1449 | `<id>:-(<name>)` is one partition from offset 0 to the end of the device, accepted exactly if that is not empty and, on NAND, of whole erase blocks |
| `MtdText.SizeThenFillDevice` | u-boot-1.1.6/common/cmd_jffs2.c:1402-1449 | `<id>:<size>(<a>),-(<b>)` puts b from the end of a to the end of the device, or is refused exactly if nothing or no whole number of erase blocks is left |
| `MtdText.FillRefused` | u-boot-1.1.6/common/cmd_jffs2.c:663-669 | `<id>:-(<name>),` is refused whatever follows |
| `MtdText.FillBehind` | u-boot-1.1.6/common/cmd_jffs2.c:910-917 | for a device that is there already a definition without an offset goes behind its last partition |
| `MtdText.AutoNameRead` | u-boot-1.1.6/common/cmd_jffs2.c:693-697 | a partition without a name is called by its size and offset in eight hexadecimal digits each |
| `MtdRoundTrip.PartRoundTrip` | u-boot-1.1.6/common/cmd_jffs2.c:602-710 | part_parse reads back one printed definition, or exactly when it cannot |
| `MtdRoundTrip.PartsRoundTrip` | u-boot-1.1.6/common/cmd_jffs2.c:919-940 | the partition loop reads back a printed list although offsets are printed only at gaps |
| `MtdRoundTrip.DeviceRoundTrip` | u-boot-1.1.6/common/cmd_jffs2.c:867-992 | device_parse reads back one printed device, with the partitions at one offset in reverse order |
| `MtdRoundTrip.DevicesRoundTrip` | u-boot-1.1.6/common/cmd_jffs2.c:1402-1449 | the device loop rebuilds the printed devices in order |
| `MtdRoundTrip.MtdpartsRoundTrip` | u-boot-1.1.6/common/cmd_jffs2.c:1107-1219 | printing then parsing succeeds if and only if the sizes can be read back; it then rebuilds every table of validated devices with equal size, offset, read-only flag and given name, in the same order except that partitions at one offset are reversed, so that it is the identity if and only if those are alike, and always on tables with distinct offsets |
| `MtdRoundTrip.SmallPartExample` | u-boot-1.1.6/common/cmd_jffs2.c:620-628 | a validated table with a partition of 2048 bytes that is printed and not read back |
| `MtdRoundTrip.TieExample` | u-boot-1.1.6/common/cmd_jffs2.c:540-567 | a validated table with two partitions at one offset that is read back in another order |
| `MtdOrder.SortAddAllFlips` | u-boot-1.1.6/common/cmd_jffs2.c:517-571 | adding the partitions of a sorted list one by one, in its order, gives the list with those at one offset reversed |
| `MtdOrder.FlipTwice` | u-boot-1.1.6/common/cmd_jffs2.c:540-567 | reversing the partitions at one offset twice restores the list |
| `MtdReparse.SortAddSortedSet` | u-boot-1.1.6/common/cmd_jffs2.c:517-571 | insertion keeps the list sorted with at most one partition at offset 0, and adds exactly the new partition |
| `MtdReparse.DeviceParseGood` | u-boot-1.1.6/common/cmd_jffs2.c:867-992 | a device read from any text has known id, legal names and validated sorted partitions |
| `MtdReparse.ParseGood` | u-boot-1.1.6/common/cmd_jffs2.c:1402-1449 | a table read from any text is one that can be printed |
| `MtdReparse.Reparse` | u-boot-1.1.6/common/cmd_jffs2.c:1402-1449 | a table read from any text and printed again is read, exactly when its sizes can be written, as the table with the partitions at one offset reversed; as the same table if and only if those are alike, and always when all offsets differ |
| `MtdReparse.ReparseTwice` | u-boot-1.1.6/common/cmd_jffs2.c:1402-1449 | printed and read twice, every validated table that can be read back at all is the same again |
| `MtdTable.PositionOf` | u-boot-1.1.6/common/cmd_jffs2.c:252-285 | partition j of a device stands at the number of partitions before the device plus j in the concatenation of all lists |
| `MtdOrder.SortAddSlot` | u-boot-1.1.6/common/cmd_jffs2.c:540-570 | on a sorted list insertion is at the slot behind the smaller offsets and before equal and larger ones, and a second partition at offset 0 is refused |
| `MtdTable.TrackInsert` | u-boot-1.1.6/common/cmd_jffs2.c:551-564 | the adjusted index names the same partition after an insertion |
| `MtdTable.TrackCut` | u-boot-1.1.6/common/cmd_jffs2.c:456-471 | the index that names the same partition after a deletion, and that the comparison of offsets finds it unless the deleted partition stands behind at the same offset |
| `MtdTable.AfterCut` | u-boot-1.1.6/common/cmd_jffs2.c:456-471 | the index part_del leaves: that of the same partition, 0 when it was deleted, and in the exceptional case the one below, modulo 256 |
| `MtdTable.FindSector` | u-boot-1.1.6/common/cmd_jffs2.c:334-340 | the loop finds whether a sector starts at the offset |
| `MtdTable.PartValidate` | u-boot-1.1.6/common/cmd_jffs2.c:322-437 | the checks accept and complete a partition as specified |
| `MtdTable.FindSlot` | u-boot-1.1.6/common/cmd_jffs2.c:540-567 | the list loop finds the slot or refuses |
| `MtdTable.Table.IndexIsPosition` | u-boot-1.1.6/common/cmd_jffs2.c:252-285 | mtddevnum is the position of the current partition among all partitions |
| `MtdTable.Table.IndexPartitions` | u-boot-1.1.6/common/cmd_jffs2.c:252-285 | the loop over the devices makes mtddevnum right again |
| `MtdTable.Table.PartSortAdd` | u-boot-1.1.6/common/cmd_jffs2.c:517-571 | the list stays sorted with its counter right, and the current partition stays the same one |
| `MtdTable.Table.PartDel` | u-boot-1.1.6/common/cmd_jffs2.c:446-486 | the partition is taken out, with its device when it was the only one; the current partition stays the same one, becomes the first when it was the one deleted, and in the exceptional case is the one before or none |
| `MtdTable.StrayExample` | u-boot-1.1.6/common/cmd_jffs2.c:466-468 | a table on which deleting a partition leaves the current index at 255 |
| `MtdTable.Table.DeviceDel` | u-boot-1.1.6/common/cmd_jffs2.c:788-810 | the device is taken out and the current partition stays, or becomes the first of the first device |
| `MtdTable.Table.DeviceAdd` | u-boot-1.1.6/common/cmd_jffs2.c:840-856 | the device is appended and the current partition stays, or becomes the first of the first device |
| `MtdCode.WriteMtdparts` | u-boot-1.1.6/common/cmd_jffs2.c:1107-1219 | the printing loops write the specified text |
| `MtdCode.ReadParts` | u-boot-1.1.6/common/cmd_jffs2.c:919-940 | the partition loop reads the specified list |
| `MtdCode.ReadDevice` | u-boot-1.1.6/common/cmd_jffs2.c:867-992 | device_parse reads the specified device |
| `MtdCode.ReadMtdparts` | u-boot-1.1.6/common/cmd_jffs2.c:1402-1449 | parse_mtdparts reads the specified table, or leaves none |
| `MtdFlash.FillOwn` | u-boot-1.1.6/common/cmd_flash.c:198-279 | on disjoint banks a whole-sector range of one bank selects exactly its own sectors if and only if it does not end the address space before a later bank at address 0 |
| `MtdFlash.PartitionSelection` | u-boot-1.1.6/common/cmd_flash.c:348-364 | erasing an accepted NOR partition succeeds and selects exactly the partition's sectors, under the same condition |
| `MtdFlash.ErasePartition` | u-boot-1.1.6/common/cmd_flash.c:348-364 | the command calls the driver for exactly the sectors of the partition and returns its code, under the same condition and, with a driver that reports no error, only then |
| `MtdFlash.EraseOutcome` | u-boot-1.1.6/common/cmd_flash.c:404-443 | one erase call for one range is made exactly when that range alone is selected |
| `MtdFlash.WrapExample` | u-boot-1.1.6/common/cmd_flash.c:263-265 | two banks and an accepted partition of the first on which the search wraps into the second |
| `MemTest.FirstOfItsCell` | u-boot-1.1.6/common/cmd_mem.c:907-945 | if every word passes, no word shares its cell with an earlier one and none has a stuck bit |
| `MemTest.PassIffSound` | u-boot-1.1.6/common/cmd_mem.c:907-945 | all reads of the passes succeed if and only if the words are distinct cells without stuck bits |
| `MemTest.PatternNumbers` | u-boot-1.1.6/common/cmd_mem.c:846-847 | the patterns of the line test are 0xaaaaaaaa and 0x55555555 |
| `MemTest.LinesOfMask` | u-boot-1.1.6/common/cmd_mem.c:856-858 | the lines walked are the low one bits of the address mask |
| `MemTest.LinesPassIff` | u-boot-1.1.6/common/cmd_mem.c:845-893 | the exact verdict of the address-line test on any aliasing and stuck bits |
| `MemTest.LinesPassInjective` | u-boot-1.1.6/common/cmd_mem.c:845-893 | without stuck bits at the tested offsets the test passes if and only if decoding is injective on 0, 1, 2, 4, ... |
| `MemTest.FrozenExample` | u-boot-1.1.6/common/cmd_mem.c:845-893 | a memory on which frozen cells hide aliasing |
| `MemTest.Ram.IncDecTest` | u-boot-1.1.6/common/cmd_mem.c:907-945 | the three passes report no failure if and only if the words are distinct cells without stuck bits, whatever the memory held |
| `MemTest.Ram.LineTest` | u-boot-1.1.6/common/cmd_mem.c:845-893 | the walking loops report what the verdict on the lines is |
| `Crc16Table.TableDoubles` | u-boot-1.1.6/common/crc16.c:61-94 | each entry at an even or odd index is that at half the index shifted by one bit and reduced by 0x1021 |
| `Crc16.TableRemainder` | u-boot-1.1.6/common/crc16.c:61-94 | the table entry for i is the remainder of i times x^16 |
| `Crc16.RemainderUnique` | u-boot-1.1.6/common/crc16.c:60-60 | division by x^16+x^12+x^5+1 has one remainder |
| `Crc16.TableIsRemainder` | u-boot-1.1.6/common/crc16.c:96-107 | the checksum of every message is the remainder of the message times x^16, and the only one |
| `Crc16.TableIsSerial` | u-boot-1.1.6/common/crc16.c:96-107 | it equals bit-serial division with zero initial value |
| `Crc16.CygCrc16` | u-boot-1.1.6/common/crc16.c:96-107 | the loop over the bytes computes that remainder |
| `Crc16.AppendedChecksum` | u-boot-1.1.6/common/crc16.c:96-107 | a message with two more bytes has checksum 0 if and only if they are its checksum, high byte first |
| `Crc16.BurstDetected` | u-boot-1.1.6/common/crc16.c:60-107 | two messages with the same checksum that differ at most inside sixteen adjacent bits are equal |
| `Eeprom.CellInjective` | u-boot-1.1.6/common/cmd_eeprom.c:234-253 | chip address and inner address determine the offset, with the device address or-ed in |
| `Eeprom.ProgramCell` | u-boot-1.1.6/common/cmd_eeprom.c:222-226 | a write that stays in its page stores exactly its data although the counter wraps |
| `Eeprom.PageWraps` | u-boot-1.1.6/common/cmd_eeprom.c:222-226 | a write across a page end puts its next byte at the start of the page, which is why chunks end there |
| `Eeprom.ChunkInPage` | u-boot-1.1.6/common/cmd_eeprom.c:262-278 | a chunk of the code stays in one page of the device |
| `Eeprom.ChunkLongest` | u-boot-1.1.6/common/cmd_eeprom.c:262-278 | a transfer ends with the data, at the limit of the bus driver, at a page end when writing and at 256 bytes when reading, whichever comes first |
| `Eeprom.Addressed` | u-boot-1.1.6/common/cmd_eeprom.c:234-253 | the bytes sent as address are the block number added to the device address, and the offset in the block |
| `Eeprom.ChunkFlat` | u-boot-1.1.6/common/cmd_eeprom.c:228-366 | one chunk is a flat update of its offsets and of no other |
| `Eeprom.FetchFlat` | u-boot-1.1.6/common/cmd_eeprom.c:142-192 | one read chunk is the flat contents of its offsets |
| `Eeprom.Bus.EepromWrite` | u-boot-1.1.6/common/cmd_eeprom.c:206-380 | an error is reported if and only if one of the transfers made failed; without one the call is one flat update, and with one every byte is still old or new |
| `Eeprom.Bus.EepromRead` | u-boot-1.1.6/common/cmd_eeprom.c:132-195 | an error is reported if and only if one of the transfers made failed; without one the buffer holds the flat contents and nothing behind the count is touched |
| `Eeprom.Bus.WriteThenRead` | u-boot-1.1.6/common/cmd_eeprom.c:132-380 | what was written is read back on every subrange |
| `Bedbug.FieldInsert` | u-boot-1.1.6/common/bedbug.c:919-919 | a value put into a clear field is found there |
| `Bedbug.OperandRecovered` | u-boot-1.1.6/common/bedbug.c:755-843 | for disjoint fields clear in the opcode every operand read is recovered from the word, and silent ones are those of the opcode |
| `Bedbug.ShownBack` | u-boot-1.1.6/common/bedbug.c:856-919 | a number is encoded, and the field stands for it, exactly if the operand can hold it: an address as print_operands computes it, a special register with its halves put back |
| `Bedbug.EncodeRefused` | u-boot-1.1.6/common/bedbug.c:883-914 | exactly which operands are refused, and with which error |
| `Bedbug.WrittenRecovered` | u-boot-1.1.6/common/bedbug.c:755-843 | every number written in range is what the field of the assembled word stands for |
| `Bedbug.OpcodeKept` | u-boot-1.1.6/common/bedbug.c:797-836 | outside the fields that were read the word is the opcode |
| `Bedbug.Asmppc` | u-boot-1.1.6/common/bedbug.c:755-843 | the operand loop builds the specified word or reports the specified error |
| `Bedbug.GetOperandValue` | u-boot-1.1.6/common/bedbug.c:375-402 | a field is found exactly if the opcode has it, with its bits of the instruction |
| `Bedbug.SwapTwice` | u-boot-1.1.6/common/bedbug.c:503-505 | the reversal of the halves of a register number undoes itself |
| `Bedbug.SwapHalves` | u-boot-1.1.6/common/bedbug.c:503-505 | the low five bits become the high ones and the other way round |
| `Bedbug.AddressRoundTrip` | u-boot-1.1.6/common/bedbug.c:867-881 | encoding an address and decoding it as print_operands does gives it back if and only if the displacement is a multiple of four in range |
| `BedbugStep.Condition` | u-boot-1.1.6/common/bedbug.c:1162-1216 | the switch takes a branch exactly when the architecture does and the BO encoding is one of those listed |
| `BedbugStep.ListedExact` | u-boot-1.1.6/common/bedbug.c:1162-1216 | the listed BO encodings are exactly those for which code and architecture agree on all registers |
| `BedbugStep.FindNextAddress` | u-boot-1.1.6/common/bedbug.c:1055-1238 | a branch that jumps leads to its target, a linking one is stepped over, all else leads to the next word; StepAt says what that is for every word |
| `BedbugStep.StepAt` | u-boot-1.1.6/common/bedbug.c:1080-1238 | for every word, by its bits: opcode 18 leads to the 24-bit and 16, when taken, to the 14-bit displacement from the branch or from zero, 19 with 528 to the count and with 16 to the link register, all else to the next word, as does a linking branch that is stepped over |
| `BedbugStep.EveryWord` | u-boot-1.1.6/common/bedbug.c:1080-1238 | every word has such fields, so that StepAt covers all |
| `BedbugStep.StepAtBlr` | u-boot-1.1.6/common/bedbug.c:1143-1154 | stepping at 0x4E800020 (blr) leads to the link register |
| `BedbugStep.AssembledBranch` | u-boot-1.1.6/common/bedbug.c:1114-1128 | the target of an assembled unconditional branch is the written address if and only if the field can hold it |
| `BedbugStep.AssembleAndStep` | u-boot-1.1.6/common/bedbug.c:1218-1235 | assembling a branch and stepping at it leads to the written address, under the same condition, or behind a linking branch that is stepped over |
| `Circbuf.Buffer.Push` | u-boot-1.1.6/common/circbuf.c:82-110 | the buffer then holds the last bytes of its contents followed by the new ones |
| `Circbuf.Buffer.Pop` | u-boot-1.1.6/common/circbuf.c:54-80 | the oldest bytes come out in order and the others stay |
| `Circbuf.RunFifo` | u-boot-1.1.6/common/circbuf.c:54-110 | over every run the buffer holds the last bytes, up to its size, of the stream behind the last byte popped; the bytes popped are bytes of the stream in their order; none is missing if and only if no push overflowed |
| `Circbuf.Execute` | u-boot-1.1.6/common/circbuf.c:54-110 | any sequence of pushes and pops on a new buffer leaves the contents, and hands out the bytes, of the run |
| `Circbuf.RunLast` | u-boot-1.1.6/common/circbuf.c:82-110 | a run that never pops holds the last bytes of the stream |
| `LogBuffer.LinesTagged` | u-boot-1.1.6/common/cmd_log.c:215-263 | over every sequence of calls each line starts with a level prefix, and without the prefixes the log is the messages without theirs |
| `LogBuffer.FirstLevel` | u-boot-1.1.6/common/cmd_log.c:227-241 | a line that starts without a level gets `<4>`, one with a level keeps it |
| `LogBuffer.NextLine` | u-boot-1.1.6/common/cmd_log.c:225-261 | behind every line feed of a message a new line starts |
| `LogBuffer.TurnLogged` | u-boot-1.1.6/common/cmd_log.c:225-261 | one turn of the outer loop logs one line, with a prefix if it has none, and leaves the rest of the message |
| `LogBuffer.ShowsWindow` | u-boot-1.1.6/common/cmd_log.c:244-248 | read round from log_start the ring is the last 16384 characters of the stream |
| `LogBuffer.Log.PutChar` | u-boot-1.1.6/common/cmd_log.c:244-250 | one more character in the stream the ring shows, also when log_start wraps at 2^32 |
| `LogBuffer.Log.Printk` | u-boot-1.1.6/common/cmd_log.c:215-263 | for every message that fits the work buffer of 1024 bytes the stream grows by the message with its prefixes, and a line stays open unless the message ends it |
| `LogBuffer.Log.PrintAll` | u-boot-1.1.6/common/cmd_log.c:215-263 | any sequence of messages appends what they log one after the other, of which LinesTagged speaks |
| `LogBuffer.Log.Reset` | u-boot-1.1.6/common/cmd_log.c:185-189 | the log is empty again |
| `LogBuffer.Log.Append` | u-boot-1.1.6/common/cmd_log.c:167-174 | the arguments are logged with spaces between and a line feed behind |
| `Floppy.AddressBack` | u-boot-1.1.6/common/cmd_fdc.c:309-313 | track, head and sector are in range and stand for the block |
| `Floppy.AddressUnique` | u-boot-1.1.6/common/cmd_fdc.c:309-313 | no other address stands for the block |
| `Floppy.IssuedExact` | u-boot-1.1.6/common/cmd_fdc.c:309-330 | the bytes of the command name the sector of the block if and only if it lies on the first 256 tracks |
| `Floppy.RunIsBlocks` | u-boot-1.1.6/common/cmd_fdc.c:510-517 | a run stays within one side, so the controller transfers the blocks asked for |
| `Floppy.VerdictExact` | u-boot-1.1.6/common/cmd_fdc.c:542-562 | a request fails exactly when 25 attempts fail before its last run is complete |
| `Floppy.CountError` | u-boot-1.1.6/common/cmd_fdc.c:542-562 | the two retry counters together count the errors and give up at the 25th |
| `Floppy.ReadData` | u-boot-1.1.6/common/cmd_fdc.c:510-597 | for every request within 256 tracks and every pattern of transfer errors, success leaves the blocks in order in the buffer and nothing behind them, and failure comes at the 25th error |
| `MultiImage.PackedWord` | u-boot-1.1.6/README:3154-3159 | the words of the table are the sizes of the images, then zero |
| `MultiImage.PartBytes` | u-boot-1.1.6/README:3154-3159 | the bytes of a part lie at its offset, on word boundaries |
| `MultiImage.ImgExtract` | u-boot-1.1.6/common/cmd_ximg.c:106-125 | the part located is exactly that image, and a part that is not there is an error |
| `MultiImage.KernelData` | u-boot-1.1.6/common/cmd_bootm.c:286-293 | the kernel is part 0 |
| `MultiImage.InitrdData` | u-boot-1.1.6/common/cmd_bootm.c:714-738 | the RAM disk is part 1, if there is one |
| `MultiImage.TreeData` | u-boot-1.1.6/common/cmd_bootm.c:805-834 | the device tree is part 2, if there is one; it is accepted if and only if it begins with the bytes D0 0D FE ED and its own size, with an error for each |
| `Gzip.SkipHeader` | u-boot-1.1.6/common/cmd_bootm.c:1437-1457 | for every well-formed header the offset is that of the first byte behind it; other methods, reserved flags and missing data are errors |
| `BootPlacement.PlacementSound` | u-boot-1.1.6/common/cmd_bootm.c:537-883 | the areas are disjoint, below the stack reserve, page aligned and, above the limit, below initrd_high: for a disk that fits below the board info if and only if the high address does not wrap to one above the limit (with the limit below 2 GB, if and only if initrd_high is 0 or at least the size of the disk); for a larger one if it fits between the limit and initrd_high, and with a page below the board info only then |
| `BootPlacement.PlacementTight` | u-boot-1.1.6/common/cmd_bootm.c:537-883 | each area is the highest at its alignment, and the RAM disk lies high whenever it fits there |
| `BootPlacement.TopExact` | u-boot-1.1.6/common/cmd_bootm.c:867-874 | a high RAM disk ends at initrd_high or at the stack reserve |
| `BootPlacement.Place` | u-boot-1.1.6/common/cmd_bootm.c:537-578 | the code computes that layout, sound under the same conditions |
| `BootPlacement.PlaceInitrd` | u-boot-1.1.6/common/cmd_bootm.c:846-883 | the address chosen for the RAM disk is that of the layout |
| `BootPlacement.WrapExample` | u-boot-1.1.6/common/cmd_bootm.c:872-880 | an input whose layout is not sound |
| `BootPlacement.LargeDiskExample` | u-boot-1.1.6/common/cmd_bootm.c:852-853 | a large disk without high placement whose address wraps |
| `BootPlacement.NarrowExample` | u-boot-1.1.6/common/cmd_bootm.c:852-853 | why the last clause needs a page below the board info |
| `BootCopy.ChunksEcho` | u-boot-1.1.6/common/cmd_bootm.c:331-338 | what arrives at every byte of the destination, and that nothing else changes |
| `BootCopy.ArrivesTwice` | u-boot-1.1.6/common/cmd_bootm.c:331-338 | on any memory, the byte that an overrunning copy repeats |
| `BootCopy.ChunksExact` | u-boot-1.1.6/common/cmd_bootm.c:331-338 | the loop is one memmove on every memory if and only if the destination does not start inside the source behind its start, or the length is at most one chunk |
| `BootCopy.MemMove` | u-boot-1.1.6/lib_generic/string.c:469-487 | copying upwards or downwards gives the old bytes of the source, also when the areas overlap |
| `BootCopy.CopyChunks` | u-boot-1.1.6/common/cmd_bootm.c:892-899 | the loop leaves the specified memory, and under the condition that of one memmove |

## Left out

- Device access, delays, console echo, watchdog calls and interrupt control everywhere.
- `cmd_nvedit.c`: hardware effects of setenv (console, baud rate and network settings are the answer `accepts`), arguments that point into the environment array, getenv_r, and the checksum of the environment.
- `cmd_load.c`: the parameter bytes that handle_send_packet answers with (only the quote character is kept), the unused k_state_saved, flash targets of a download, and ymodem.
- Kermit.Delivery: excludes damage to length and sequence characters, which go back to an older checkpoint (SequenceBitRefused says only that such a packet is refused), and damage with a mark behind the place where it shows, of which DamageDecides says what follows.
- SRecord.Target.LoadSerial: a record whose length byte is smaller than its address and checksum is taken to have no data; the code passes a negative length on.
- `cmd_jffs2.c`: buffer lengths in generate_mtdparts, the merge path of `mtdparts add`, and the environment variables that mirror the table.
- `cmd_flash.c`: addr_spec, abbreviations of addresses, hardware protection.
- `cmd_mem.c`: the simpler memory test and the other memory commands.
- `cmd_eeprom.c`: FRAM devices, SPI, the X40430 control register. A failed transfer is taken to change nothing.
- `bedbug.c`: splitting and reading of operand text, the look-up of opcodes by name, symbol names, and the printing of operands apart from addresses. The opcode tables are parameters.
- Bedbug.AssembledBranch: covers the four unconditional branches; conditional ones are covered by OperandRecovered, AddressRoundTrip and FindNextAddress.
- BedbugStep.FindNextAddress: reports no failure for a word that is in no opcode table, which the code cannot step over.
- `cmd_log.c`: `log show` and mirroring messages on the console. Messages longer than the work buffer of 1024 bytes overflow it and are excluded.
- `cmd_fdc.c`: failing seeks and recalibrations, and the register protocol.
- `cmd_bootm.c`: image header checks, the checksum loop, inflate, the log buffer's effect on initrd_high, and the placement of a flat device tree.
- DiskOnChip, IDE, SCSI, USB, PCI, NAND and I2C commands, file systems, networking and information dumps.
