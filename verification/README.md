# LUFA bootloaders: a verified model

This project models the parts of the repository that turn a stream of bytes or
packets into exact contents of paged flash and EEPROM: the LUFA bootloaders
(Printer, Mass Storage, HID with its host loader, DFU, CDC), and the slot
allocator of the MIDI tone generator.

Every bootloader runs on the same part. `Spm` models its flash, the one-page
buffer that the SPM instruction fills word by word, and the three operations
erase, fill and write. Writing only clears bits, so "erased before written" is
proved of every bootloader, never assumed. The page size is any even number of
bytes, the boot address and the memory sizes are symbolic.

Each source function that updates globals, buffers or endpoints in place is a
method with the same loops and fields (`PrinterDevice`, `MassStorageDevice`,
`EjectLoop`, `HidLoader`, `DfuDevice`, `CdcDevice`, `ChipErase`, `Midi`), proved
equal to a specification function. The results over whole runs are lemmas about
those functions.

| modules | what they hold |
|---|---|
| `Spm`, `Device`, `Chunks`, `Endpoints` | the part, chunked data, packet queues |
| `IntelHex`, `Printer`, `PrinterPlacement`, `PrinterRuns`, `PrinterEof`, `PrinterBoot`, `PrinterRecords`, `PrinterTypes`, `PrinterDevice` | the streaming HEX parser with lazy page flush |
| `Fat12`, `VirtualFat`, `FatDriver`, `Scsi`, `ScsiFiles`, `MassStorageDevice`, `EjectLoop` | the FAT12 volume made up on the fly |
| `TextFile`, `HexImage`, `HexCase`, `HexItems`, `HidLoader`, `HidResults` | the host's HEX reader and sender, composed with the device |
| `ChipErase`, `Dfu`, `DfuSecurity`, `DfuLoop`, `DfuProgramming`, `DfuErase`, `DfuEeprom`, `DfuPages`, `DfuCommands`, `DfuDevice` | the DFU request state machine |
| `Cdc`, `CdcResults`, `CdcBlocks`, `CdcCommands`, `CdcDevice` | AVR109 commands over packets |
| `Midi`, `MidiVoices` | the note table |

`dafny verify dfyconfig.toml` checks the whole project.

## Where the code falls short of its purpose

Each of these is a property one would expect, false of the code, with the exact
condition under which it holds:

- an image shorter than a page stays in the buffer (`PrintedIff`);
- extended address words are byte-swapped, and once the base is at or above the
  boot section they are dropped (`ExtendedBaseIff`, `BaseStuck`); odd records
  shift by one byte (`RecordPlacedIff`);
- the boot section is protected against loads, not against erases: an image that
  fills the application section, followed by one more data word, overwrites it
  (`RunSafeIff`, `RecordsSafeIff`, `FullImageThenRecord`); and a record addressed
  at it loses the unfinished page of the image before it (`TailDroppedIff`);
- an even FAT12 entry clobbers its neighbour (`TableCorrectIff`), entries above 170
  cannot be stored (`StorableIff`), EEPROM.BIN lacks
  the last byte (`LastEepromByte`), and a logical block address past 65535 is
  served modulo 65536 (`RejectedIff`);
- the host refuses a file with a blank line (`TextReadIff`, `BlankLineRefused`); on
  64 KiB parts host and device disagree about page addresses
  (`AddressesAgreeIff`), so every report rewrites page 0 (`SmallPartLoads`), and
  the host never sends the last 256 bytes of its image (`DefinedByteLoadedIff`,
  `WrittenReachesFlashIff`);
- DFU filler that runs past its packet loses a byte (`FillerSkippedIff`), so EEPROM
  data that does not start at a multiple of 32 lands shifted (`DownloadStoresIff`);
  a whole bank is erased at its start and not programmed, and a stale page buffer
  shows behind a range of less than a page (`DownloadProgramsIff`); an erase after
  an abandoned download writes the stale page buffer into page 0
  (`EraseThenCheckIff`, `StaleWordSurvivesErase`);
- the CDC address counter is wrong from 32 KiB on (`NewAddressIff`); its low 16
  bits are right, so parts of at most 64 KiB, whose accessors take 16 bits, are
  not affected; EEPROM addresses are wrong in half of their range (`EepromByte`),
  an erase with something in the page buffer leaves it in page 0 (`EraseIff`), and
  odd read chunks repeat their last byte (`FlashReadsIff`,
  `AdvanceIff`);
- a key pressed while all slots sound silences another held key (`SoundsHeldIff`);
  releasing notes breaks the age order (`ReuseKeepsOrderIff`; `ReleaseBreaksLru`
  is a run on the shipped table), and ages wrap (`TapsAge`).

## Model

| member | source | states |
|---|---|---|
| `Spm.ErasedWrite` | lufa-LUFA-140928/Bootloaders/Printer/BootloaderPrinter.c:169-170 | a page write into an erased page stores exactly the buffer, although programming can only clear bits |
| `Spm.StreamedWord` | lufa-LUFA-140928/Bootloaders/MassStorage/Lib/VirtualFAT.c:336-353 | erase at the first word of a page, load, write at the last word: one step extends the streamed prefix by exactly one word, for every page size, base and length |
| `Spm.StreamedFlushed` | lufa-LUFA-140928/Bootloaders/MassStorage/Lib/VirtualFAT.c:336-353 | whole pages streamed, or a tail streamed and its page written, end with exactly the image, its last page padded blank, every other cell unchanged, the buffer empty |
| `Spm.RewrittenExact` | lufa-LUFA-140928/Bootloaders/HID/BootloaderHID.c:158-178 | erase, load, write of one page stores the loaded words followed by what the buffer held behind them |
| `Spm.RewrittenWraps` | lufa-LUFA-140928/Bootloaders/HID/BootloaderHID.c:158-178 | the same for a whole page and any address: the words wrap round, so the page holds the data turned by the offset of the address |
| `PrinterPlacement.RunHex` | lufa-LUFA-140928/Bootloaders/Printer/BootloaderPrinter.c:199-210 | feeding the two-digit text of bytes is the same as feeding the bytes |
| `PrinterPlacement.ReadAll` | lufa-LUFA-140928/Bootloaders/Printer/BootloaderPrinter.c:240-295 | the data bytes of a record extend the stream by exactly those bytes (an odd record by one leftover byte in front) and add up in the checksum |
| `PrinterPlacement.PlaceRecord` | lufa-LUFA-140928/Bootloaders/Printer/BootloaderPrinter.c:183-315 | a data record that continues the stream, of any length, keeps parser, page buffer and flash in step with the bytes read so far |
| `PrinterPlacement.RecordsTracked` | lufa-LUFA-140928/Bootloaders/Printer/BootloaderPrinter.c:183-315 | any split of an image into even records keeps parser, page buffer and flash in step with it |
| `PrinterPlacement.PlaceFile` | lufa-LUFA-140928/Bootloaders/Printer/BootloaderPrinter.c:183-315 | then end of file leaves exactly the committed image and the run flag down |
| `PrinterRuns.PrintedFlash` | lufa-LUFA-140928/Bootloaders/Printer/BootloaderPrinter.c:158-315 | flash after printing an image of at least one page: the image, the rest of its last page blank, every other cell as before; buffer empty; run flag down |
| `PrinterRuns.PrintedIff` | lufa-LUFA-140928/Bootloaders/Printer/BootloaderPrinter.c:158-175 | an image is in flash afterwards if and only if it has at least a page of bytes or is blank: the end-of-file flush compares against page 0 |
| `PrinterRuns.FedImage` | lufa-LUFA-140928/Bootloaders/Printer/BootloaderPrinter.c:327-348 | the same image result for the packet loop of main, for every split of the text into packets, although the loop stops at the packet that drops the flag |
| `PrinterRuns.SameProjectionSameEffect` | lufa-LUFA-140928/Bootloaders/Printer/BootloaderPrinter.c:185-210 | two character streams that agree on colons and uppercase hex digits have the same effect on flash, page buffer, dirty flag, base, page and run flag |
| `PrinterRuns.NoiseFree` | lufa-LUFA-140928/Bootloaders/Printer/BootloaderPrinter.c:185-210 | the simulation behind it: reading a text and reading its kept characters stay alike at every point |
| `PrinterRuns.FillsBelowBoot` | lufa-LUFA-140928/Bootloaders/Printer/BootloaderPrinter.c:244-250 | no input stream makes the parser load a word at or above the boot section |
| `PrinterBoot.RunSafeIff` | lufa-LUFA-140928/Bootloaders/Printer/BootloaderPrinter.c:158-283 | a run erases or writes a page of the boot section if and only if it loads a word while the parser holds such a page |
| `PrinterBoot.HoldsBootIff` | lufa-LUFA-140928/Bootloaders/Printer/BootloaderPrinter.c:158-175 | the parser comes to hold such a page exactly at a word that ends at or above the boot section, or at a flush under a record addressed there |
| `PrinterBoot.BootKept` | lufa-LUFA-140928/Bootloaders/Printer/BootloaderPrinter.c:158-315 | a run that loads no word under such a page leaves the boot section unchanged |
| `PrinterBoot.BootOverwritten` | lufa-LUFA-140928/Bootloaders/Printer/BootloaderPrinter.c:262-280 | after an image that fills the application section one more data word replaces the first page of the boot section |
| `PrinterBoot.FullImageThenRecord` | lufa-LUFA-140928/Bootloaders/Printer/BootloaderPrinter.c:183-315 | the same from a fresh start, with all of flash |
| `PrinterRecords.RecordsSafeIff` | lufa-LUFA-140928/Bootloaders/Printer/BootloaderPrinter.c:158-315 | data records of whole words below the boot section, in any order, touch it if and only if one that ends there is followed by another |
| `PrinterRecords.RecordsKeepBoot` | lufa-LUFA-140928/Bootloaders/Printer/BootloaderPrinter.c:158-315 | so with such a record only at the end the boot section is unchanged |
| `PrinterBoot.TailDropped` | lufa-LUFA-140928/Bootloaders/Printer/BootloaderPrinter.c:244-250 | a data record at or above the boot section marks the page being filled clean: the unfinished page of the image before it is erased and never written |
| `PrinterBoot.TailDroppedIff` | lufa-LUFA-140928/Bootloaders/Printer/BootloaderPrinter.c:244-250 | such a record is harmless if and only if the image is shorter than a page or blank from its last page boundary on |
| `PrinterRuns.EveryRunErasesFirst` | lufa-LUFA-140928/Bootloaders/Printer/BootloaderPrinter.c:158-309 | in every run every page write hits a page that reads blank at that moment |
| `PrinterRuns.RunIsTrace` | lufa-LUFA-140928/Bootloaders/Printer/BootloaderPrinter.c:183-315 | running the parser and executing the flash operations it issues are the same |
| `PrinterRuns.FeedReads` | lufa-LUFA-140928/Bootloaders/Printer/BootloaderPrinter.c:327-348 | the main loop consumes whole packets: all, or up to the one that drops the run flag |
| `PrinterRuns.DownMeansWhole` | lufa-LUFA-140928/Bootloaders/Printer/BootloaderPrinter.c:305-307 | no proper prefix of an image file drops the run flag |
| `PrinterEof.StepDrops` | lufa-LUFA-140928/Bootloaders/Printer/BootloaderPrinter.c:297-309 | the run flag drops at a character if and only if it completes an end-of-file record, on a line not abandoned, whose bytes sum to 0 modulo 256 |
| `PrinterEof.RunAgrees` | lufa-LUFA-140928/Bootloaders/Printer/BootloaderPrinter.c:183-315 | over any stream the parser agrees with an independent reader of the current line: bytes so far, checksum, position |
| `PrinterEof.DownMeansEof` | lufa-LUFA-140928/Bootloaders/Printer/BootloaderPrinter.c:297-309 | every run that ended has a position where an accepted end-of-file record was completed with the flag still up before |
| `PrinterEof.EofDownIff` | lufa-LUFA-140928/Bootloaders/Printer/BootloaderPrinter.c:240-309 | an accepted end-of-file record drops the flag if and only if it has no data bytes or its address lies below the boot section |
| `PrinterEof.RunTraced` | lufa-LUFA-140928/Bootloaders/Printer/BootloaderPrinter.c:218-250 | over any stream the parser holds the address the line decoder reads, and abandons an end-of-file line exactly at a data byte at or above the boot section |
| `PrinterEof.ExtendedBaseIff` | lufa-LUFA-140928/Bootloaders/Printer/BootloaderPrinter.c:240-290 | the base an extended address record leaves, and exactly when it is the one meant: below the boot section if and only if the two bytes are equal (the word is assembled low byte first), at or above it if and only if the base already was right (the record is dropped) |
| `PrinterEof.BaseStuck` | lufa-LUFA-140928/Bootloaders/Printer/BootloaderPrinter.c:244-250 | a run of two records after which the base can no longer be reset |
| `PrinterEof.RecordPlacedIff` | lufa-LUFA-140928/Bootloaders/Printer/BootloaderPrinter.c:252-280 | a data record lands on its own addresses if and only if its length is even or all its bytes equal the leftover low byte |
| `PrinterTypes.StreamLoads` | lufa-LUFA-140928/Bootloaders/Printer/BootloaderPrinter.c:218-291 | at any point of any stream the next character erases, loads, and changes the base address exactly as the independently decoded line calls for: a word only from a record of type 0 below the boot section, a base only from one of type 2 or 4 |
| `PrinterTypes.StreamQuiet` | lufa-LUFA-140928/Bootloaders/Printer/BootloaderPrinter.c:183-309 | no operation at all is issued except at the end of a word of a type 0 record and at the last byte of a line that sums to 0: a record with a wrong checksum does not even write the page it filled |
| `PrinterTypes.OtherRecord` | lufa-LUFA-140928/Bootloaders/Printer/BootloaderPrinter.c:183-309 | a record of any type other than 0, 2 and 4 below the boot section: at most the pending page is written, the base stays, and only type 1 drops the run flag |
| `PrinterBoot.RecordAbove` | lufa-LUFA-140928/Bootloaders/Printer/BootloaderPrinter.c:244-250 | a record of any type with data at or above the boot section changes no memory, keeps base and run flag and marks the page clean |
| `PrinterDevice.Bootloader.FlushPageIfRequired` | lufa-LUFA-140928/Bootloaders/Printer/BootloaderPrinter.c:158-175 | fields and flash after the flush equal the specification function |
| `PrinterDevice.Bootloader.StoreWord` | lufa-LUFA-140928/Bootloaders/Printer/BootloaderPrinter.c:264-280 | erase if clean, load, advance, flush: equal to the specification of a data word |
| `PrinterDevice.Bootloader.ReadWord` | lufa-LUFA-140928/Bootloaders/Printer/BootloaderPrinter.c:259-291 | the switch on the record type for a completed word |
| `PrinterDevice.Bootloader.ReadDataByte` | lufa-LUFA-140928/Bootloaders/Printer/BootloaderPrinter.c:240-295 | one data byte: boot limit, low/high byte pairing, record end |
| `PrinterDevice.Bootloader.VerifyChecksum` | lufa-LUFA-140928/Bootloaders/Printer/BootloaderPrinter.c:297-309 | the checksum case: flush and end of file |
| `PrinterDevice.Bootloader.ProcessByte` | lufa-LUFA-140928/Bootloaders/Printer/BootloaderPrinter.c:215-314 | the state switch for a completed byte |
| `PrinterDevice.Bootloader.ReadDigit` | lufa-LUFA-140928/Bootloaders/Printer/BootloaderPrinter.c:204-210 | one digit: the byte shifted in, and handed on when it is complete |
| `PrinterDevice.Bootloader.ParseIntelHEXByte` | lufa-LUFA-140928/Bootloaders/Printer/BootloaderPrinter.c:183-315 | one character: fields and flash after it equal the specification step |
| `PrinterDevice.Bootloader.ReceivePacket` | lufa-LUFA-140928/Bootloaders/Printer/BootloaderPrinter.c:335-341 | the inner loop over one packet equals the run over its characters |
| `PrinterDevice.Bootloader.Session` | lufa-LUFA-140928/Bootloaders/Printer/BootloaderPrinter.c:327-348 | the outer loop equals the feed function the image results are about |
| `Fat12.UpdateDecode` | lufa-LUFA-140928/Bootloaders/MassStorage/Lib/VirtualFAT.c:245-265 | after one entry update an independent 12-bit reader sees the entry; the entry above an even index loses its low nibble; nothing else changes |
| `Fat12.StorableIff` | lufa-LUFA-140928/Bootloaders/MassStorage/Lib/VirtualFAT.c:245-265 | exactly the entries up to index 170 can be stored: the 8-bit offset wraps behind them |
| `Fat12.BeyondReach` | lufa-LUFA-140928/Bootloaders/MassStorage/Lib/VirtualFAT.c:245-265 | an entry behind that is left as it was; bytes at the front of the table change instead |
| `Fat12.ChainDecode` | lufa-LUFA-140928/Bootloaders/MassStorage/Lib/VirtualFAT.c:277-292 | every prefix of the chain loop: entries done are right, the next one may be clobbered, the rest is unchanged |
| `Fat12.TableDecode` | lufa-LUFA-140928/Bootloaders/MassStorage/Lib/VirtualFAT.c:451-465 | what the reader sees at every reserved and allocated entry of the built block |
| `Fat12.TableCorrectIff` | lufa-LUFA-140928/Bootloaders/MassStorage/Lib/VirtualFAT.c:451-465 | the built block describes both files if and only if the EEPROM chain does not end right below an odd, longer FLASH chain |
| `Fat12.ReaderFindsChains` | lufa-LUFA-140928/Bootloaders/MassStorage/Lib/VirtualFAT.c:451-465 | a reader that follows the table finds each file's clusters, in order |
| `VirtualFat.SectorsFitClusters` | lufa-LUFA-140928/Bootloaders/MassStorage/Lib/VirtualFAT.h:58-72 | the sectors of a file fit its clusters, wasting less than one cluster |
| `VirtualFat.DefaultLayout` | lufa-LUFA-140928/Bootloaders/MassStorage/Lib/VirtualFAT.h:44-75 | for every memory size the default files occupy disjoint block ranges inside the advertised media, the last cluster is counted with five to seven to spare, and the table is not clobbered |
| `VirtualFat.DefaultPlaced` | lufa-LUFA-140928/Bootloaders/MassStorage/Lib/VirtualFAT.c:178-196 | while all indices fit the 8-bit table offset the default chains are well placed and the volume counts as FAT12 |
| `VirtualFat.ReadAfterWrite` | lufa-LUFA-140928/Bootloaders/MassStorage/Lib/VirtualFAT.c:399-477 | reading any block after writing any block: the written file block returns the new data, every other block what it returned before |
| `VirtualFat.DriverReadsFiles` | lufa-LUFA-140928/Bootloaders/MassStorage/Lib/VirtualFAT.c:435-477 | a FAT12 driver that follows the FAT block and reads the clusters it finds recovers exactly the bytes of both files from flash and EEPROM, for every current placement that is not clobbered |
| `VirtualFat.LastEepromByte` | lufa-LUFA-140928/Bootloaders/MassStorage/Lib/VirtualFAT.h:46-47 | EEPROM.BIN ends one byte before the last EEPROM byte, which no driver sees in the file although its last block reads and writes it |
| `VirtualFat.FlashBlocks` | lufa-LUFA-140928/Bootloaders/MassStorage/Lib/VirtualFAT.c:303-355 | consecutive blocks of FLASH.BIN are consecutive flash |
| `VirtualFat.EepromBlocks` | lufa-LUFA-140928/Bootloaders/MassStorage/Lib/VirtualFAT.c:366-392 | consecutive blocks of EEPROM.BIN are consecutive EEPROM |
| `VirtualFat.LengthWraps` | lufa-LUFA-140928/Bootloaders/MassStorage/Lib/VirtualFAT.c:458-462 | a file 256 clusters longer has the same chain: the length is an 8-bit value |
| `FatDriver.DriverOpensFiles` | lufa-LUFA-140928/Bootloaders/MassStorage/Lib/VirtualFAT.c:435-477 | a driver written from the FAT specification alone, which takes the starting clusters and sizes from the bytes of the root directory block and the chains from the FAT block, reads exactly the bytes of both files, for every placement that is not clobbered |
| `FatDriver.ShippedPlaced` | lufa-LUFA-140928/Bootloaders/MassStorage/Lib/VirtualFAT.c:126-181 | a directory that holds the starting clusters 2 and 2 plus the length of FLASH.BIN is such a placement while all indices fit the table |
| `FatDriver.ShippedBlocks` | lufa-LUFA-140928/Bootloaders/MassStorage/Lib/VirtualFAT.c:303-477 | on such a volume block 4 + k is sector k of flash |
| `FatDriver.MovedFilesOpen` | lufa-LUFA-140928/Bootloaders/MassStorage/Lib/VirtualFAT.c:411-477 | after a host has written a directory block with other starting clusters the same driver finds the same files there |
| `Scsi.RunRefines` | lufa-LUFA-140928/Bootloaders/MassStorage/Lib/SCSI.c:238-274 | every run of READ(10) and WRITE(10) commands that keeps the directory gets exactly the replies of a plain block array, and the page buffer is empty between commands |
| `Scsi.RunFromStart` | lufa-LUFA-140928/Bootloaders/MassStorage/Lib/SCSI.c:238-274 | in particular a volume answers such a run as the array of what its blocks read as at the start |
| `Scsi.PerformRefines` | lufa-LUFA-140928/Bootloaders/MassStorage/Lib/SCSI.c:238-274 | one command preserves the refinement and gives the same reply |
| `Scsi.UnmappedZero` | lufa-LUFA-140928/Bootloaders/MassStorage/Lib/VirtualFAT.c:441-477 | blocks that belong to no file read as zeros |
| `ScsiFiles.RunHolds` | lufa-LUFA-140928/Bootloaders/MassStorage/Lib/SCSI.c:238-274 | every run of commands at all, also one that rewrites the directory, gets the replies of two arrays of file sectors shown at the blocks the directory in force gives them, and leaves the memories holding those sectors |
| `ScsiFiles.MoveKeepsFiles` | lufa-LUFA-140928/Bootloaders/MassStorage/Lib/VirtualFAT.c:411-417 | a directory write that moves the files loses nothing: a driver reads the same files at their new place |
| `MassStorageDevice.UpdateFAT12ClusterEntry` | lufa-LUFA-140928/Bootloaders/MassStorage/Lib/VirtualFAT.c:245-265 | the in-place update of the table equals the specification, including the 8-bit offset |
| `MassStorageDevice.UpdateFAT12ClusterChain` | lufa-LUFA-140928/Bootloaders/MassStorage/Lib/VirtualFAT.c:277-292 | the in-place chain loop equals the specification |
| `MassStorageDevice.Disk.ReadFLASHFileBlock` | lufa-LUFA-140928/Bootloaders/MassStorage/Lib/VirtualFAT.c:303-355 | the block buffer holds the flash bytes of the block, or is left alone outside the file |
| `MassStorageDevice.Disk.WriteFLASHFileBlock` | lufa-LUFA-140928/Bootloaders/MassStorage/Lib/VirtualFAT.c:303-355 | the word loop with its page erase and page write stores exactly the block, with the buffer empty |
| `MassStorageDevice.Disk.ReadEEPROMFileBlock` | lufa-LUFA-140928/Bootloaders/MassStorage/Lib/VirtualFAT.c:366-392 | the block buffer holds the EEPROM bytes of the block, or is left alone |
| `MassStorageDevice.Disk.WriteEEPROMFileBlock` | lufa-LUFA-140928/Bootloaders/MassStorage/Lib/VirtualFAT.c:366-392 | EEPROM after the byte loop holds exactly the block |
| `MassStorageDevice.Disk.VirtualFATWriteBlock` | lufa-LUFA-140928/Bootloaders/MassStorage/Lib/VirtualFAT.c:399-428 | boot and FAT writes have no effect, the root block replaces the directory entries, other blocks reach the file they belong to |
| `MassStorageDevice.Disk.BuildFATBlock` | lufa-LUFA-140928/Bootloaders/MassStorage/Lib/VirtualFAT.c:451-465 | the FAT block built in place equals the table specification |
| `MassStorageDevice.Disk.VirtualFATReadBlock` | lufa-LUFA-140928/Bootloaders/MassStorage/Lib/VirtualFAT.c:435-477 | the bytes sent for a block equal the read specification |
| `MassStorageDevice.Disk.ReadWrite10` | lufa-LUFA-140928/Bootloaders/MassStorage/Lib/SCSI.c:238-274 | command decoding (low 16 bits of the address) and the block loop equal the command specification |
| `MassStorageDevice.RejectedIff` | lufa-LUFA-140928/Bootloaders/MassStorage/Lib/SCSI.c:241-260 | a command is rejected if and only if its 32-bit address modulo 65536 is at or above the media size, which is right exactly when the address fits the media or wraps past it |
| `MassStorageDevice.ReadServed` | lufa-LUFA-140928/Bootloaders/MassStorage/Lib/SCSI.c:244-267 | a READ(10) command block as SBC-3 lays it out, for any address and count: that many blocks, each the one at its own address modulo 65536 |
| `EjectLoop.MainLoop` | lufa-LUFA-140928/Bootloaders/MassStorage/BootloaderMassStorage.c:141-145 | the loop exits at the first moment the latest START STOP UNIT was an eject and 255 iterations have passed since the last command, and never otherwise |
| `EjectLoop.BodyKeeps` | lufa-LUFA-140928/Bootloaders/MassStorage/BootloaderMassStorage.c:226-238 | flag and tick counter after each iteration are functions of the event history |
| `EjectLoop.EjectBits` | lufa-LUFA-140928/Bootloaders/MassStorage/Lib/SCSI.c:116-120 | eject is the LOEJ bit set and the START bit clear |
| `HexImage.ImageIsLatest` | lufa-LUFA-140928/Bootloaders/HID/HostLoaderApp/hid_bootloader_cli.c:773-879 | after a successful read every image byte is the one from the last data record covering it, 0xFF and unmasked if none, and the count is the sum of record lengths |
| `HexImage.ReadOverlays` | lufa-LUFA-140928/Bootloaders/HID/HostLoaderApp/hid_bootloader_cli.c:773-807 | the same from any starting image: the file's records overlay it |
| `TextFile.LineArrives` | lufa-LUFA-140928/Bootloaders/HID/HostLoaderApp/hid_bootloader_cli.c:792-794 | a line that fits the buffer arrives whole from fgets, newline included |
| `TextFile.WholeLineIff` | lufa-LUFA-140928/Bootloaders/HID/HostLoaderApp/hid_bootloader_cli.c:777-794 | a line arrives whole if and only if it has fewer than 1023 characters; of a longer one the first buffer holds the first 1023 |
| `TextFile.NulHides` | lufa-LUFA-140928/Bootloaders/HID/HostLoaderApp/hid_bootloader_cli.c:794-801 | a NUL hides the rest of its line from the parser |
| `TextFile.Fgets` | lufa-LUFA-140928/Bootloaders/HID/HostLoaderApp/hid_bootloader_cli.c:792-794 | the next position in the file: behind the first newline, or after 1023 characters, or at the end |
| `HexImage.ReadIffChecked` | lufa-LUFA-140928/Bootloaders/HID/HostLoaderApp/hid_bootloader_cli.c:773-807 | the buffers of a file are read if and only if every one up to the first end-of-file line either starts with NUL or is acceptable under the extended address in force there |
| `HexImage.TextReadIff` | lufa-LUFA-140928/Bootloaders/HID/HostLoaderApp/hid_bootloader_cli.c:773-807 | the same of the text of the file, cut as fgets cuts it |
| `HexImage.BlankLineRefused` | lufa-LUFA-140928/Bootloaders/HID/HostLoaderApp/hid_bootloader_cli.c:796-801 | a blank line before the end-of-file line fails the whole file, because its buffer still holds the newline |
| `HexImage.BadIff` | lufa-LUFA-140928/Bootloaders/HID/HostLoaderApp/hid_bootloader_cli.c:819-879 | a line is refused if and only if it lacks a header, room for its data, an address range inside the image or, as a data line, a zero byte sum; data and extended addresses come only from lines that sum to zero |
| `HexImage.WrapIsModulo` | lufa-LUFA-140928/Bootloaders/HID/HostLoaderApp/hid_bootloader_cli.c:837 | at every line of any file the base is at most 0xFFFF0000, and the sum the range check looks at is the one modulo 2 to the 32 |
| `HexImage.LineKinds` | lufa-LUFA-140928/Bootloaders/HID/HostLoaderApp/hid_bootloader_cli.c:837-864 | what an accepted line is: data exactly at type 0, end of file exactly at type 1, an extended address exactly at type 2 or 4 with two bytes and a zero byte sum |
| `HexImage.LineData` | lufa-LUFA-140928/Bootloaders/HID/HostLoaderApp/hid_bootloader_cli.c:830-873 | address and bytes of a data line are those its digits spell |
| `HexCase.NibbleExact` | lufa-LUFA-140928/Bootloaders/HID/HostLoaderApp/hid_bootloader_cli.c:830-876 | a character is a digit exactly if it is 0-9, A-F or a-f, with the value of its place in the alphabet, in either case |
| `HexCase.ParseRaised` | lufa-LUFA-140928/Bootloaders/HID/HostLoaderApp/hid_bootloader_cli.c:819-879 | a line and the same line in capitals are read alike |
| `HexCase.TextRaised` | lufa-LUFA-140928/Bootloaders/HID/HostLoaderApp/hid_bootloader_cli.c:773-879 | so are a whole file and the same file in capitals |
| `HidLoader.AddressesAgreeIff` | lufa-LUFA-140928/Bootloaders/HID/HostLoaderApp/hid_bootloader_cli.c:153-159 | host and device mean the same pages if and only if the part is not the 64 KiB one |
| `HidLoader.NeverStartsEarly` | lufa-LUFA-140928/Bootloaders/HID/HostLoaderApp/hid_bootloader_cli.c:153-159 | no page address equals the start-application code, on any supported part |
| `HidLoader.PageProgrammedExact` | lufa-LUFA-140928/Bootloaders/HID/BootloaderHID.c:158-178 | a page report stores exactly its data, whatever the page buffer held |
| `HidLoader.Bootloader.SetReport` | lufa-LUFA-140928/Bootloaders/HID/BootloaderHID.c:134-187 | address word, start-application command, page erase, word loop and page write |
| `HidLoader.Host.ParseHexLine` | lufa-LUFA-140928/Bootloaders/HID/HostLoaderApp/hid_bootloader_cli.c:819-879 | one line: accepted exactly when the specification accepts it, with the same image, mask, base and end flag |
| `HidLoader.Host.StoreFields` | lufa-LUFA-140928/Bootloaders/HID/HostLoaderApp/hid_bootloader_cli.c:866-875 | the data loop stores every byte and its mask in place and sums the fields |
| `HidLoader.Host.ReadIntelHex` | lufa-LUFA-140928/Bootloaders/HID/HostLoaderApp/hid_bootloader_cli.c:773-807 | the whole reader on the text of a file: byte count and image, or an error |
| `HidLoader.Host.ReadFileLines` | lufa-LUFA-140928/Bootloaders/HID/HostLoaderApp/hid_bootloader_cli.c:792-805 | the fgets loop equals the reader over the buffers |
| `HidLoader.Host.BytesWithinRange` | lufa-LUFA-140928/Bootloaders/HID/HostLoaderApp/hid_bootloader_cli.c:881-893 | found if and only if some byte of the range is masked and the range is inside the image |
| `HidLoader.Host.GetData` | lufa-LUFA-140928/Bootloaders/HID/HostLoaderApp/hid_bootloader_cli.c:895-913 | the block's masked bytes, 0xFF elsewhere and past the image |
| `HidLoader.Host.ProgramDevice` | lufa-LUFA-140928/Bootloaders/HID/HostLoaderApp/hid_bootloader_cli.c:146-174 | the send loop composed with the device leaves exactly the flash specified, on every supported part; the device keeps running until the start report |
| `HidLoader.Host.SendBlock` | lufa-LUFA-140928/Bootloaders/HID/HostLoaderApp/hid_bootloader_cli.c:152-161 | one block over the wire programs exactly its page, or on the 64 KiB part page 0 with the block turned round |
| `HidResults.DefinedByteLoadedIff` | lufa-LUFA-140928/Bootloaders/HID/HostLoaderApp/hid_bootloader_cli.c:146-164 | on parts other than the 64 KiB one a byte the file defines is in flash afterwards if and only if the part is at most 32 KiB, it lies below 0xFF00, or it is blank |
| `HidResults.OtherPagesUntouched` | lufa-LUFA-140928/Bootloaders/HID/HostLoaderApp/hid_bootloader_cli.c:146-151 | on every part a page other than the first without a defined byte is not touched |
| `HidResults.WrittenIsRead` | lufa-LUFA-140928/Bootloaders/HID/HostLoaderApp/hid_bootloader_cli.c:773-879 | reading the text of an image, one record a line with either line ending, in any split, defines exactly its bytes |
| `HidResults.TextArrives` | lufa-LUFA-140928/Bootloaders/HID/HostLoaderApp/hid_bootloader_cli.c:792-794 | the text of such a file comes in as its lines, one buffer each |
| `HidResults.SmallPartLoads` | lufa-LUFA-140928/Bootloaders/HID/BootloaderHID.c:140-178 | the 64 KiB part ends with the last block sent, turned round, in page 0 and every other page as before, so a byte above page 0 is right if and only if it already was |
| `HidResults.WrittenReachesFlashIff` | lufa-LUFA-140928/Bootloaders/HID/HostLoaderApp/hid_bootloader_cli.c:91-174 | end to end: the file of an image, read by the host and sent, leaves the image in flash whatever it held before, if and only if the part is at most 32 KiB, or 64 KiB and the image within page 0, or 128 KiB and the image blank from 0xFF00 on |
| `HexCase.EitherCaseReaches` | lufa-LUFA-140928/Bootloaders/HID/HostLoaderApp/hid_bootloader_cli.c:91-174 | the same for the file in lower or mixed case |
| `HexItems.ItemsRead` | lufa-LUFA-140928/Bootloaders/HID/HostLoaderApp/hid_bootloader_cli.c:819-879 | any sequence of data, extended segment, extended linear and other records with valid checksums stores each data record at its address plus the base the records before it set |
| `HexItems.ItemTextRead` | lufa-LUFA-140928/Bootloaders/HID/HostLoaderApp/hid_bootloader_cli.c:773-879 | the same of the text of such a file with its end-of-file record |
| `ChipErase.ErasedPagesExact` | lufa-LUFA-140928/Bootloaders/DFU/BootloaderDFU.c:764-773 | the erase loop blanks all pages, except that the first receives what the page buffer held |
| `ChipErase.EraseBlanksIff` | lufa-LUFA-140928/Bootloaders/DFU/BootloaderDFU.c:764-773 | the application section is blank afterwards if and only if the page buffer was empty; the rest of flash is untouched |
| `ChipErase.EraseApplication` | lufa-LUFA-140928/Bootloaders/CDC/BootloaderCDC.c:482-495 | the loop equals the specification |
| `ChipErase.BlankCheck` | lufa-LUFA-140928/Bootloaders/DFU/BootloaderDFU.c:688-714 | finds a byte if and only if some application byte is not 0xFF, and then the least one |
| `ChipErase.ErasedIsBlank` | lufa-LUFA-140928/Bootloaders/DFU/BootloaderDFU.c:688-773 | a blank check after an erase from an empty buffer finds nothing |
| `DfuSecurity.RunKnown` | lufa-LUFA-140928/Bootloaders/DFU/BootloaderDFU.c:220-548 | no run leaves dfuIDLE, dfuDNLOAD_IDLE, dfuUPLOAD_IDLE and dfuERROR |
| `DfuSecurity.LockedStep` | lufa-LUFA-140928/Bootloaders/DFU/BootloaderDFU.c:581-624 | one request to a locked device leaves the memories alone, unless it is the full erase, which erases and unlocks |
| `DfuSecurity.LockedRun` | lufa-LUFA-140928/Bootloaders/DFU/BootloaderDFU.c:220-624 | while a run that started locked is still secure, the state has stayed in dfuIDLE or dfuERROR, no memory byte has changed and no start command was obeyed |
| `DfuSecurity.UnlockedByErase` | lufa-LUFA-140928/Bootloaders/DFU/BootloaderDFU.c:759-779 | a run that unlocked has a first request that did, and that request erased the untouched application section |
| `DfuSecurity.StepBlind` | lufa-LUFA-140928/Bootloaders/DFU/BootloaderDFU.c:390-488 | the reply to a request in secure mode does not depend on the memories |
| `DfuSecurity.LockedRunBlind` | lufa-LUFA-140928/Bootloaders/DFU/BootloaderDFU.c:220-624 | two devices that differ only in their memories give the same replies to every run that stays secure |
| `DfuSecurity.DownMeansStart` | lufa-LUFA-140928/Bootloaders/DFU/BootloaderDFU.c:720-758 | a run in which the run flag dropped has a download that dropped it, and it ended with a complete start-by-jump command |
| `DfuCommands.OthersIgnored` | lufa-LUFA-140928/Bootloaders/DFU/BootloaderDFU.c:581-804 | to an unlocked device exactly the listed commands mean something: any other command byte or parameters change nothing but end a download under way |
| `DfuCommands.InfoAnswers` | lufa-LUFA-140928/Bootloaders/DFU/BootloaderDFU.c:390-412 | a READ command and an upload return the information byte, from a locked device too; in state dfuERROR the second kind is answered with an address instead |
| `DfuCommands.InterruptedReadBack` | lufa-LUFA-140928/Bootloaders/DFU/BootloaderDFU.c:390-488 | a signature read in the middle of a read-back: one empty upload that ends it, then the signature |
| `DfuCommands.StartRuns` | lufa-LUFA-140928/Bootloaders/DFU/BootloaderDFU.c:720-758 | a start command with data announced is only noted; the empty download behind it drops the run flag, unless the start is by watchdog |
| `DfuCommands.StartNow` | lufa-LUFA-140928/Bootloaders/DFU/BootloaderDFU.c:720-758 | without data it drops the flag at once, unless the start is by watchdog |
| `DfuCommands.IdleKeeps` | lufa-LUFA-140928/Bootloaders/DFU/BootloaderDFU.c:220-236 | requests that only ask, are unknown or not for this interface, and downloads whose data never comes change nothing |
| `DfuCommands.EmptyDownload` | lufa-LUFA-140928/Bootloaders/DFU/BootloaderDFU.c:237-283 | a download without data only ends a download under way |
| `DfuCommands.FlashUploadEnds` | lufa-LUFA-140928/Bootloaders/DFU/BootloaderDFU.c:414-488 | display, upload: back to dfuIDLE with the address at the last byte of the range; a further upload answers with the response byte |
| `DfuCommands.EepromUploadEnds` | lufa-LUFA-140928/Bootloaders/DFU/BootloaderDFU.c:460-488 | the same for EEPROM, with the address behind the range modulo 65536 |
| `DfuPages.StatusAnswers` | lufa-LUFA-140928/Bootloaders/DFU/BootloaderDFU.c:489-547 | GETSTATE and GETSTATUS answer with the number USB DFU 1.1 gives the state and the status; CLRSTATUS and ABORT reset one of the two each |
| `DfuPages.LockedAnswers` | lufa-LUFA-140928/Bootloaders/DFU/BootloaderDFU.c:584-603 | a locked device answers the next GETSTATUS with errWRITE in dfuERROR after every command but READ and the full erase, memories and security unchanged |
| `DfuPages.CheckAnswers` | lufa-LUFA-140928/Bootloaders/DFU/BootloaderDFU.c:398-412 | after a failed blank check GETSTATUS reports errCHECK_ERASED in dfuERROR and the upload the low 16 bits of the least used address |
| `DfuLoop.LoopPrograms` | lufa-LUFA-140928/Bootloaders/DFU/BootloaderDFU.c:298-349 | the word loop programs exactly the bytes that come, over any cut into packets of whole words: every page erased before its write, tail blank, other pages untouched |
| `DfuLoop.FirstPageLoop` | lufa-LUFA-140928/Bootloaders/DFU/BootloaderDFU.c:298-349 | the same from a page buffer that already holds something: what it holds ends up behind a range of less than a page, and nowhere else |
| `DfuProgramming.DownloadPrograms` | lufa-LUFA-140928/Bootloaders/DFU/BootloaderDFU.c:237-389 | a download to a page-aligned even range under 64 KiB, in any 64 KB page, stores exactly the data, and behind less than a page of it what the page buffer still held |
| `DfuPages.SelectStep` | lufa-LUFA-140928/Bootloaders/DFU/BootloaderDFU.c:618-622 | the request with bytes 6, 3, 0, p selects 64 KB page p and leaves memories, status and run flag alone |
| `DfuPages.SelectedPrograms` | lufa-LUFA-140928/Bootloaders/DFU/BootloaderDFU.c:237-389 | select page p, then download: the data is at p times 65536 plus the start, and no cell outside its flash pages changes |
| `DfuPages.SelectedReadsBack` | lufa-LUFA-140928/Bootloaders/DFU/BootloaderDFU.c:237-488 | select, program, display, upload: the data comes back |
| `DfuProgramming.ProgramReadsBack` | lufa-LUFA-140928/Bootloaders/DFU/BootloaderDFU.c:237-488 | program, display, upload returns the data, whatever the page buffer held |
| `DfuProgramming.DisplayUploads` | lufa-LUFA-140928/Bootloaders/DFU/BootloaderDFU.c:390-456 | display and upload return the cells of the range |
| `DfuProgramming.FillerSkippedIff` | lufa-LUFA-140928/Bootloaders/DFU/BootloaderDFU.c:555-575 | filler is skipped in full if and only if it lies within the packet being read: a round that finds the bank empty skips nothing |
| `DfuProgramming.WholeBankOnlyErases` | lufa-LUFA-140928/Bootloaders/DFU/BootloaderDFU.c:277-351 | a download of a whole 64 KB bank wraps the 16-bit count: its first page is erased and nothing is programmed |
| `DfuProgramming.DownloadProgramsIff` | lufa-LUFA-140928/Bootloaders/DFU/BootloaderDFU.c:237-389 | such a range, up to a whole bank, ends as programmed with its last page blank if and only if it fills a page or the page buffer was empty behind it, and it is shorter than 64 KiB or its data is what the erase left |
| `DfuErase.EraseCommandIff` | lufa-LUFA-140928/Bootloaders/DFU/BootloaderDFU.c:759-779 | the erase command blanks the application section if and only if the page buffer is empty, touches nothing else and unlocks |
| `DfuErase.BlankCheckIff` | lufa-LUFA-140928/Bootloaders/DFU/BootloaderDFU.c:688-714 | an error if and only if some application byte is not 0xFF, with the least such address saved as page and offset |
| `DfuErase.EraseStep` | lufa-LUFA-140928/Bootloaders/DFU/BootloaderDFU.c:237-283 | the erase request, locked or not: memory, security flag, state and status after it |
| `DfuErase.CheckStep` | lufa-LUFA-140928/Bootloaders/DFU/BootloaderDFU.c:237-283 | the blank check request: an error if and only if some application byte is not 0xFF |
| `DfuErase.EraseThenCheckIff` | lufa-LUFA-140928/Bootloaders/DFU/BootloaderDFU.c:688-779 | an erase request followed by a blank check request ends in error if and only if the page buffer was not empty or the device already was in error |
| `DfuErase.AbandonedStep` | lufa-LUFA-140928/Bootloaders/DFU/BootloaderDFU.c:309-321 | a download whose host goes away after one word leaves that word in the page buffer |
| `DfuErase.StaleWordSurvivesErase` | lufa-LUFA-140928/Bootloaders/DFU/BootloaderDFU.c:764-773 | such a download followed by an erase request leaves the word at the start of flash and the rest of the application section blank |
| `DfuEeprom.LoopStores` | lufa-LUFA-140928/Bootloaders/DFU/BootloaderDFU.c:356-378 | the EEPROM loop stores exactly the bytes that come, however they are cut |
| `DfuEeprom.LoopExact` | lufa-LUFA-140928/Bootloaders/DFU/BootloaderDFU.c:356-378 | whatever the loop is asked for and whatever comes: the bytes received are stored in order at 16-bit addresses, and the loop completes if and only if enough came |
| `DfuEeprom.DownloadStores` | lufa-LUFA-140928/Bootloaders/DFU/BootloaderDFU.c:237-389 | a download to any EEPROM range, with the alignment bytes the code expects in front: the data, shifted by one byte if there are any, and flash left alone |
| `DfuEeprom.DownloadStoresIff` | lufa-LUFA-140928/Bootloaders/DFU/BootloaderDFU.c:286-290 | it stores the data where it belongs if and only if the start is a multiple of 32 or all data bytes equal the last alignment byte |
| `DfuEeprom.EepromReadsBackIff` | lufa-LUFA-140928/Bootloaders/DFU/BootloaderDFU.c:237-488 | program EEPROM, display, upload: what comes back, and the same condition for it being the data |
| `DfuDevice.Bootloader.DiscardFillerBytes` | lufa-LUFA-140928/Bootloaders/DFU/BootloaderDFU.c:555-575 | the endpoint after the loop, including the uncounted byte of an empty bank |
| `DfuDevice.Bootloader.ProgramFlash` | lufa-LUFA-140928/Bootloaders/DFU/BootloaderDFU.c:298-351 | the flash loop equals the specification, also when the host goes away |
| `DfuDevice.Bootloader.ProgramEEPROM` | lufa-LUFA-140928/Bootloaders/DFU/BootloaderDFU.c:356-378 | the EEPROM loop equals the specification, also when the host goes away |
| `DfuDevice.Bootloader.ProcessMemProgCommand` | lufa-LUFA-140928/Bootloaders/DFU/BootloaderDFU.c:646-671 | addresses, first page erase and state |
| `DfuDevice.Bootloader.ProcessMemReadCommand` | lufa-LUFA-140928/Bootloaders/DFU/BootloaderDFU.c:677-715 | read arming and the blank check with its first bad address |
| `DfuDevice.Bootloader.ProcessWriteCommand` | lufa-LUFA-140928/Bootloaders/DFU/BootloaderDFU.c:720-780 | exit and full erase |
| `DfuDevice.Bootloader.ProcessBootloaderCommand` | lufa-LUFA-140928/Bootloaders/DFU/BootloaderDFU.c:581-624 | the secure-mode gate and the command switch |
| `DfuDevice.Bootloader.LoadSentCommand` | lufa-LUFA-140928/Bootloaders/DFU/BootloaderDFU.c:251-270 | command byte and up to five parameters from the first packet |
| `DfuDevice.Bootloader.ReceiveFirmware` | lufa-LUFA-140928/Bootloaders/DFU/BootloaderDFU.c:277-383 | filler, alignment, and the two programming loops |
| `DfuDevice.Bootloader.DownloadRequest` | lufa-LUFA-140928/Bootloaders/DFU/BootloaderDFU.c:237-389 | the whole download branch |
| `DfuDevice.Bootloader.UploadRequest` | lufa-LUFA-140928/Bootloaders/DFU/BootloaderDFU.c:390-488 | the whole upload branch |
| `DfuDevice.Bootloader.ControlRequest` | lufa-LUFA-140928/Bootloaders/DFU/BootloaderDFU.c:220-548 | the request switch: the new globals and the bytes sent equal the step the run results are about |
| `Endpoints.FetchAllInOrder` | lufa-LUFA-140928/Bootloaders/CDC/BootloaderCDC.c:358-377 | n fetched bytes are the first n of the concatenated packets, for any packet split with any empty packets |
| `Endpoints.FetchAllExact` | lufa-LUFA-140928/Bootloaders/CDC/BootloaderCDC.c:358-377 | fetching exactly the bytes of some packets consumes exactly those packets |
| `Endpoints.PacketsShape` | lufa-LUFA-140928/Bootloaders/CDC/BootloaderCDC.c:384-403 | the packets of a transfer are full but the last, which is short (section 5.8.3 of USB 2.0), and join to the bytes in order |
| `Endpoints.TransferPackets` | lufa-LUFA-140928/Bootloaders/CDC/BootloaderCDC.c:607-626 | every response leaves as exactly those packets: full ones, then one short, possibly empty one |
| `Cdc.NewAddressIff` | lufa-LUFA-140928/Bootloaders/CDC/BootloaderCDC.c:451-459 | set-address stores twice the word address if and only if its high byte is below 64: above, 16-bit arithmetic loses or sign-extends it; the low 16 bits are always right |
| `CdcResults.ReactDecodes` | lufa-LUFA-140928/Bootloaders/CDC/BootloaderCDC.c:408-606 | a device that receives the encoding of an operation, in any packets, performs it and reads exactly its bytes |
| `CdcResults.TaskPerforms` | lufa-LUFA-140928/Bootloaders/CDC/BootloaderCDC.c:408-639 | one task call: the operation performed, its packets consumed, its response sent as one transfer |
| `CdcResults.SessionPerforms` | lufa-LUFA-140928/Bootloaders/CDC/BootloaderCDC.c:124-128 | any list of operations, each cut into packets in any way, has exactly the effect of performing them in order, with one transfer per response |
| `CdcResults.SessionAdvances` | lufa-LUFA-140928/Bootloaders/CDC/BootloaderCDC.c:124-128 | the induction behind it: the packets of some operations are consumed exactly, and the session goes on with those behind them |
| `CdcResults.SessionExits` | lufa-LUFA-140928/Bootloaders/CDC/BootloaderCDC.c:420-426 | an exit command is acknowledged and ends the session; packets after it are not read |
| `CdcCommands.EraseIff` | lufa-LUFA-140928/Bootloaders/CDC/BootloaderCDC.c:482-495 | after the erase operation the application section is blank if and only if the page buffer was empty; the rest of flash, EEPROM, address and run flag are unchanged, the reply is one acknowledgement |
| `CdcCommands.EraseSession` | lufa-LUFA-140928/Bootloaders/CDC/BootloaderCDC.c:408-495 | the same of a session that receives the byte 101, with the acknowledgement sent |
| `CdcCommands.ErasedReadsBlank` | lufa-LUFA-140928/Bootloaders/CDC/BootloaderCDC.c:270-286 | reading any range of the application section after it returns 0xFF |
| `CdcCommands.JunkDropped` | lufa-LUFA-140928/Bootloaders/CDC/BootloaderCDC.c:635-639 | a command in the front of a packet is performed, the rest of that packet is dropped, the packets behind it wait |
| `CdcCommands.PacketSizes` | lufa-LUFA-140928/Bootloaders/CDC/BootloaderCDC.c:384-403 | a reply leaves in packets of 16 bytes and one with what is left |
| `CdcCommands.TruncatedAddress` | lufa-LUFA-140928/Bootloaders/CDC/BootloaderCDC.c:358-377 | operands that never come count as zero |
| `CdcCommands.EepromByte` | lufa-LUFA-140928/Bootloaders/CDC/BootloaderCDC.c:287-335 | the EEPROM byte an address reaches for writing and for reading, which is the one named if and only if the high address byte is below 64 or at least 192 |
| `CdcCommands.WireIsEncoding` | lufa-LUFA-140928/Bootloaders/CDC/BootloaderCDC.c:408-606 | the operations on the wire as AVR109 letters, sizes high byte first, memories F and E |
| `CdcCommands.BadMemory` | lufa-LUFA-140928/Bootloaders/CDC/BootloaderCDC.c:255-261 | a block command for any other memory is refused with a question mark and changes nothing |
| `CdcCommands.UnknownCommand` | lufa-LUFA-140928/Bootloaders/CDC/BootloaderCDC.c:601-605 | so is an unknown command; the synchronisation byte is not answered |
| `CdcCommands.FixedCommand` | lufa-LUFA-140928/Bootloaders/CDC/BootloaderCDC.c:427-481 | a command with a fixed reply consumes exactly its operands and changes nothing |
| `CdcBlocks.WriteFlashExact` | lufa-LUFA-140928/Bootloaders/CDC/BootloaderCDC.c:299-345 | a page-aligned even block of at most a page stores exactly its bytes, the rest of the page blank |
| `CdcBlocks.ImageWritten` | lufa-LUFA-140928/Bootloaders/CDC/BootloaderCDC.c:299-345 | an image written in page blocks with auto-increment is stored exactly and the address advances by its length |
| `CdcBlocks.FlashReads` | lufa-LUFA-140928/Bootloaders/CDC/BootloaderCDC.c:270-286 | chunks of which an odd one has only empty ones behind it read consecutive flash |
| `CdcBlocks.FlashReadsIff` | lufa-LUFA-140928/Bootloaders/CDC/BootloaderCDC.c:270-286 | within flash the replies to any list of chunks join to the cells asked for, whatever flash holds, if and only if every odd chunk has only empty ones behind it |
| `CdcBlocks.LastByteAgain` | lufa-LUFA-140928/Bootloaders/CDC/BootloaderCDC.c:281-285 | the last byte of an odd chunk comes again as the first of the next |
| `CdcBlocks.AdvanceIff` | lufa-LUFA-140928/Bootloaders/CDC/BootloaderCDC.c:270-286 | over any list of chunks the address ends behind the bytes read if and only if every chunk is even |
| `CdcBlocks.FlashRoundTrip` | lufa-LUFA-140928/Bootloaders/CDC/BootloaderCDC.c:243-350 | write blocks at any page that set-address reaches, set the address back, read in chunks of which only a last one is odd: every write acknowledged, the reads return the image |
| `CdcBlocks.FlashOverTheWire` | lufa-LUFA-140928/Bootloaders/CDC/BootloaderCDC.c:124-639 | the round trip over packets: one acknowledgement per write, and read transfers that join to the image |
| `CdcBlocks.EepromWritten` | lufa-LUFA-140928/Bootloaders/CDC/BootloaderCDC.c:327-335 | blocks of any size store consecutive EEPROM bytes |
| `CdcBlocks.EepromReads` | lufa-LUFA-140928/Bootloaders/CDC/BootloaderCDC.c:287-294 | chunks of any size read consecutive EEPROM bytes |
| `CdcBlocks.EepromRoundTrip` | lufa-LUFA-140928/Bootloaders/CDC/BootloaderCDC.c:243-350 | EEPROM written in blocks of any size and read in chunks of any size returns the image |
| `CdcDevice.Bootloader.FetchNextCommandByte` | lufa-LUFA-140928/Bootloaders/CDC/BootloaderCDC.c:358-377 | byte and endpoint after the wait loop, over empty packets, zero when the host is gone |
| `CdcDevice.Bootloader.WriteNextResponseByte` | lufa-LUFA-140928/Bootloaders/CDC/BootloaderCDC.c:384-403 | a full bank is sent before the byte is stored |
| `CdcDevice.Bootloader.ReadFlash` | lufa-LUFA-140928/Bootloaders/CDC/BootloaderCDC.c:270-286 | the read loop with its high-byte toggle sends consecutive cells |
| `CdcDevice.Bootloader.ReadEeprom` | lufa-LUFA-140928/Bootloaders/CDC/BootloaderCDC.c:287-294 | the read loop over EEPROM sends consecutive cells |
| `CdcDevice.Bootloader.WriteFlashBlock` | lufa-LUFA-140928/Bootloaders/CDC/BootloaderCDC.c:299-345 | page erase, the byte loop with its low/high toggle, page write: equal to the block specification |
| `CdcDevice.Bootloader.WriteEepromBlock` | lufa-LUFA-140928/Bootloaders/CDC/BootloaderCDC.c:327-335 | the byte loop over EEPROM equals the block specification |
| `CdcDevice.Bootloader.ReadWriteMemoryBlock` | lufa-LUFA-140928/Bootloaders/CDC/BootloaderCDC.c:243-350 | size, memory type, rejection of unknown types, and the two directions |
| `CdcDevice.Bootloader.Dispatch` | lufa-LUFA-140928/Bootloaders/CDC/BootloaderCDC.c:408-606 | the command switch |
| `CdcDevice.Bootloader.CDCTask` | lufa-LUFA-140928/Bootloaders/CDC/BootloaderCDC.c:408-639 | one call of the task: response, short or empty closing packet, rest of the OUT bank dropped |
| `CdcDevice.Bootloader.Run` | lufa-LUFA-140928/Bootloaders/CDC/BootloaderCDC.c:124-128 | the main loop equals the session the wire result is about |
| `Midi.NoteTable.TurnOn` | lufa-LUFA-140928/Projects/MIDIToneGenerator/MIDIToneGenerator.c:103-133 | the scan that ages slots while it looks for one, and the replacement, equal the specification |
| `Midi.NoteTable.TurnOff` | lufa-LUFA-140928/Projects/MIDIToneGenerator/MIDIToneGenerator.c:137-153 | matching slots are freed; the flag says whether any note is left |
| `Midi.ScanFull` | lufa-LUFA-140928/Projects/MIDIToneGenerator/MIDIToneGenerator.c:108-124 | a scan over sounding slots picks the oldest, although ages grow during the scan |
| `Midi.ScanFree` | lufa-LUFA-140928/Projects/MIDIToneGenerator/MIDIToneGenerator.c:108-124 | a scan stops at the first free slot, having aged those before it |
| `Midi.PlayedRing` | lufa-LUFA-140928/Projects/MIDIToneGenerator/MIDIToneGenerator.c:103-133 | after any run of note-ons the table is a ring of the last notes, each at the age that counts the notes since it |
| `Midi.LastNotesHeld` | lufa-LUFA-140928/Projects/MIDIToneGenerator/MIDIToneGenerator.c:103-133 | every age below min(n, slots) is held by exactly one slot with the note played that long ago, and the next note replaces the oldest |
| `Midi.ReuseKeepsOrderIff` | lufa-LUFA-140928/Projects/MIDIToneGenerator/MIDIToneGenerator.c:108-124 | after a note-off, reusing the freed slot keeps ages in order of playing if and only if no slot above it is overtaken |
| `Midi.ReleaseBreaksLru` | lufa-LUFA-140928/Projects/MIDIToneGenerator/MIDIToneGenerator.c:103-153 | on the three slots of the shipped build, a run with a note-off after which a younger note is replaced although an older one is sounding |
| `MidiVoices.SoundsHeldIff` | lufa-LUFA-140928/Projects/MIDIToneGenerator/MIDIToneGenerator.c:103-153 | over any run of presses and releases from an idle table the sounding notes are exactly the held keys throughout, if and only if every press comes while fewer keys are held than there are slots |
| `MidiVoices.OnSounds` | lufa-LUFA-140928/Projects/MIDIToneGenerator/MIDIToneGenerator.c:108-132 | a note-on with a free slot loses no note; in a full table it replaces exactly one |
| `MidiVoices.OffSounds` | lufa-LUFA-140928/Projects/MIDIToneGenerator/MIDIToneGenerator.c:142-148 | a note-off silences every slot of its pitch and nothing else, and keeps all ages |
| `MidiVoices.TapsAge` | lufa-LUFA-140928/Projects/MIDIToneGenerator/MIDIToneGenerator.c:123 | a key tapped n times beside a held note adds n to the age of that note modulo 256, so the oldest note becomes the youngest |

## Left out

- The repository's own firmware and host program (`src/`, `Board/`, `host_app/`): fixed callbacks and register stubs without state to reason about.
- Descriptors, LEDs, timers, watchdog, `SetupHardware`, `Application_Jump_Check` and the boot key: hardware or constants. DFU's application start pointer is not kept.
- The USB controller: endpoints are packet queues. A host that goes away in mid-transfer is modelled as running out of packets, and what is then unread is gone.
- `boot_rww_enable`, which would empty the page buffer: not modelled. The buffer is proved empty after every completed page in each bootloader; where it is not, as after an abandoned DFU download, no such call lies between. Writing one buffer word twice without a page write, which the hardware forbids, replaces the word here.
- Erase, fill, write and byte accesses past the end of a memory have no effect, or read as 0xFF; address wrap-around of the part, and the 16-bit accessors of parts up to 64 KiB, are not modelled. 32-bit address counters are unbounded.
- Printer: images that are not contiguous from address 0, and data behind an extended address record.
- Mass storage: boot sector bytes and directory names are opaque; INQUIRY, REQUEST SENSE, READ CAPACITY, MODE SENSE, sense data and transfer lengths are left out; a rejected command only shows as rejected. The relocated boot API section only shows as the file size.
- Scsi.RunRefines: states runs whose root-directory writes keep the directory entries, as do Scsi.RunFromStart and Scsi.PerformRefines; a write that moves a file changes which blocks show it, so that runs with one no longer look like one block array, and ScsiFiles.RunHolds states them of the two files.
- HID: a report reaches the device whole, without its packets.
- HID host: option parsing, the platform transports and retries are left out; hex fields are exact digits rather than what `sscanf` also accepts; the test for the end of standard input is left out. A store index that the wrapped range check lets through past the arrays is undefined in the source and has no effect here. The Python loader rests on libraries that are not part of the repository.
- DFU: READ commands answer from a table given as a parameter; upload data is a byte stream, not cut into packets; conformance to USB DFU 1.1 is not claimed (CLRSTATUS resets only the status, as in the code).
- DfuProgramming.DownloadPrograms: states starts that are page aligned and on a 32-byte boundary, and even lengths; other starts lose filler as FillerSkippedIff says, and an odd last byte is never read. A device that waits to exit is in StartRuns only.
- DfuEeprom.DownloadStores: states a command block alone in its packet, and alignment bytes within the packet behind it; alignment spread over several packets loses a byte for each.
- CDC: built without the single byte and word commands; lock, fuse, LED and identification commands are a table of fixed replies.
- MIDI: oscillator fields and the sample interrupt; the ring results cover tables of at most 255 slots, within the 8-bit ages. Pitch 0 stands for a free slot, as in the source, so that note makes no sound.
- The other LUFA projects (USBtoSerial, Benito, XPLAINBridge, Magstripe, SerialToLCD, TempDataLogger, Webserver) and the LUFA class drivers.
