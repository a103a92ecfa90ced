# Lock firmware: a verified model

The repository is the firmware of a door-lock controller on a USB AVR, with the LUFA library it is built
on. This project models the parts of it that are hard to get right and proves what they are for:

- **Bootloaders.** The DFU, CDC and HID bootloaders and the host program of the last one
  (`DfuBootloader`, `CdcBootloader`, `HidLoader`, `IntelHex`). Their loops are methods over a small model
  of self-programmed flash and USB packet banks (`Hardware`), whose `requires` clauses are the rules of the
  hardware: a page is erased before it is programmed, no buffer slot is loaded twice, no word is read across
  two packets. Every handler is proved to compute a function on values (`DfuSpec`, `CdcSpec`), and the
  theorems are about those functions: which image a download leaves, that reading undoes writing, what
  secure mode protects (`DfuTheorems`, `CdcTheorems`, `IntelHexTheorems`).
- **Ring buffer.** As a queue for one thread (`RingBuffer`), and as two threads whose insertions and
  removals are split into their steps (`RingInterleaving`). The USB-to-serial bridge (`SerialBridge`) and
  the LCD escape decoder (`LcdEscape`) stand on it.
- **Lock controller.** Main loop, timer interrupt and command parser as one state machine whose steps
  interleave freely (`LockController`), and the telegram sent to the cylinder (`Telegram`).
- **Dial and keypad.** Debounced scanners, specified over whole traces of their inputs (`Debounce`, `Dial`,
  `Keypad`).

Several things one would like to be true are true under a condition only. Each of these is proved as an
if-and-only-if whose condition a caller can test:

- A DFU flash download is right for all bytes exactly when its length is even and it starts a page or stays
  within one page. The page buffer is addressed modulo the page, so a longer download from the middle of a
  page comes out rotated, and the odd last byte is dropped.
- A DFU download to EEPROM is right exactly when it starts on a multiple of 32: discarding alignment bytes
  loses a turn when it has to fetch a packet.
- A DFU blank check is reliable exactly when no error state was left over from before. A refused command leaves
  one, neither the erase nor DFU_CLRSTATUS clears it, and the next upload then reports an address of a blank
  device; DFU_ABORT clears it.
- A CDC word address arrives intact exactly when it is below 0x4000, because its high byte is shifted in
  16-bit signed arithmetic.
- CDC flash reads return consecutive bytes exactly when nothing is read behind a read of odd size, because the
  address moves on by whole words; a CDC block write changes nothing but its own bytes exactly when it is a full
  page.
- The HID host and device agree on all block addresses exactly for the parts other than the 64 KiB one, which
  takes every block for the first. What arrives is what the file says exactly when the part is below 64 KiB, or is
  that one and the file fits into the first block, or is the 128 KiB one and the last block below 64 KiB is empty.
- The DFU bootloader answers a read of its signature with the signature exactly when no display-data command is
  pending and it is in no error state, in which it answers an address.
- The DFU bootloader answers a read of its signature with the signature exactly when no display-data command is
  pending and it is in no error state, in which it answers an address.
- The DFU bootloader answers a read of its signature with the signature exactly when no display-data command is
  pending and it is in no error state, in which it answers an address.
- Escaped LCD items come back exactly when none of them is the command 0x1B.
- The byte count of a HEX file is the number of loaded addresses exactly when no records overlap. A changed
  address, data or checksum byte is always detected, a changed type byte of a record that passes the range check
  never, a changed length byte exactly when the bytes it makes the reader sum do not close.
- The range check of the HEX reader keeps all stores inside the image except where its sum wraps at 32 bits:
  exactly for the extended address 0xFFFF0000 and a record that reaches the end of its 64KB.
- The serial bridge loses nothing exactly when every interrupt finds room, not counting a byte that was looked at
  or is being removed, and no send fails after the slot of its byte was taken. A buffer that is never full when an
  interrupt comes is safe.

## Assumptions

- Each access to the 32-bit `wait_ticks` is one step of the lock controller, although the interrupt could
  come between its bytes. The open command passes the telegram's length, 8, to a loop that runs to `length`
  inclusive, so the sender asks for an array of at least `length + 1` entries.
- Integers are unbounded except where the code's width matters, which is written out: 16-bit DFU addresses
  and lengths, the CDC address, the 32-bit addresses of the HEX reader, 8-bit counters and masks.
- Where comments and code disagree the code is followed: the lock stays open for 15000 ticks, not 10
  seconds, and the telegram has one entry more than its length.
- Received bytes, sent-or-failed results, pin levels and the order of interrupts are parameters.

## Model

| member | source | states |
|---|---|---|
| `DfuBootloader.Bootloader.DiscardFiller` | lufa/Bootloaders/DFU/BootloaderDFU.c:543-563 | Exactly what is left in the bank and still to come: a turn of the loop that has to fetch a packet discards no byte |
| `FlashImage.LoadWord` | lufa/Bootloaders/DFU/BootloaderDFU.c:322-327 | A word goes to a page-buffer slot not loaded since the last commit, and the download invariant moves on by two bytes |
| `FlashImage.FinishPage` | lufa/Bootloaders/DFU/BootloaderDFU.c:329-347 | A full page is committed only after it was erased, the next page is erased, and the pages done hold their final bytes |
| `FlashImage.FinishLast` | lufa/Bootloaders/DFU/BootloaderDFU.c:329-334 | The last commit completes the image and leaves the page buffer blank |
| `DfuBootloader.Bootloader.ProgramWords` | lufa/Bootloaders/DFU/BootloaderDFU.c:307-348 | The word loop over packets and pages leaves flash equal to `Programmed`, the closed form of a download, with the buffer blank; no word straddles two packets and every hardware rule of SPM programming is kept |
| `DfuBootloader.Bootloader.ProgramFlash` | lufa/Bootloaders/DFU/BootloaderDFU.c:295-355 | The same from the start address on, given that its page was erased before |
| `DfuBootloader.Bootloader.ProgramEeprom` | lufa/Bootloaders/DFU/BootloaderDFU.c:356-378 | The byte loop overlays the EEPROM with the stage and moves the start address along in 16-bit arithmetic |
| `DfuBootloader.Bootloader.Download` | lufa/Bootloaders/DFU/BootloaderDFU.c:278-383 | The whole data stage, fillers and suffix included, does what `DfuSpec.Download` says |
| `DfuBootloader.Bootloader.LoadAddresses` | lufa/Bootloaders/DFU/BootloaderDFU.c:617-629 | Both addresses from the parameter bytes, high byte first |
| `DfuBootloader.Bootloader.BlankCheck` | lufa/Bootloaders/DFU/BootloaderDFU.c:676-702 | Stores the 64KB page and offset of the least non-blank application byte, or changes nothing |
| `DfuBootloader.Bootloader.MemProg` | lufa/Bootloaders/DFU/BootloaderDFU.c:634-659 | Addresses, state and the erased first page; nothing else changes |
| `DfuBootloader.Bootloader.MemRead` | lufa/Bootloaders/DFU/BootloaderDFU.c:665-703 | Addresses and state for a read, or the blank check |
| `FlashImage.EraseApplication` | lufa/Bootloaders/DFU/BootloaderDFU.c:749-763 | The erase loop blanks exactly the bytes below the boot section and leaves the page buffer blank |
| `DfuBootloader.Bootloader.WriteCommand` | lufa/Bootloaders/DFU/BootloaderDFU.c:708-768 | Start application or erase; only the erase ends secure mode |
| `DfuBootloader.Bootloader.ProcessCommand` | lufa/Bootloaders/DFU/BootloaderDFU.c:569-612 | Secure mode lets through the erase and the read command only |
| `DfuBootloader.Bootloader.LoadHeader` | lufa/Bootloaders/DFU/BootloaderDFU.c:250-272 | Command and parameters from the first packet; parameters a short stage does not hold keep their values |
| `DfuBootloader.Bootloader.DnLoad` | lufa/Bootloaders/DFU/BootloaderDFU.c:237-389 | DFU_DNLOAD computes `DfuSpec.DnLoad` in every reachable state |
| `DfuBootloader.Bootloader.UploadFlash` | lufa/Bootloaders/DFU/BootloaderDFU.c:418-456 | Full packets whose concatenation is the flash range, read word by word |
| `DfuBootloader.Bootloader.UploadEeprom` | lufa/Bootloaders/DFU/BootloaderDFU.c:457-479 | Full packets whose concatenation is the EEPROM range |
| `DfuBootloader.Bootloader.UpLoad` | lufa/Bootloaders/DFU/BootloaderDFU.c:390-488 | DFU_UPLOAD sends exactly the reply, all packets but the last full, and goes back to idle |
| `DfuBootloader.Bootloader.ControlRequest` | lufa/Bootloaders/DFU/BootloaderDFU.c:220-536 | Any sequence of requests: each one computes `Handle`, answers `Reply` and keeps the invariant `Reachable` |
| `DfuSpec.CommandKeeps` | lufa/Bootloaders/DFU/BootloaderDFU.c:569-612 | What any command keeps: secure mode only ends, and while it lasts no memory changes and no state that gives access to memory is entered |
| `DfuSpec.ProgrammingIsPrepared` | lufa/Bootloaders/DFU/BootloaderDFU.c:569-659 | A download that programs flash follows a program command of the same request outside secure mode, so its first page is erased |
| `DfuSpec.HandleKeeps` | lufa/Bootloaders/DFU/BootloaderDFU.c:220-536 | Every request keeps the invariant; one that leaves the device secure has touched neither memory |
| `DfuTheorems.SecureRun` | lufa/Bootloaders/DFU/BootloaderDFU.c:220-536 | Over every run: while secure both memories are as at power-up and the state is neither download-idle nor upload-idle; once cleared, secure mode never returns |
| `DfuTheorems.ApplicationStaysSecret` | lufa/Bootloaders/DFU/BootloaderDFU.c:390-612 | Non-interference: two secure devices that differ in their application firmware only answer every sequence of requests alike |
| `DfuTheorems.ProgrammingExact` | lufa/Bootloaders/DFU/BootloaderDFU.c:295-348 | The programmed image is the wanted one for every payload of a length if and only if the range starts a page or stays within one |
| `DfuTheorems.FlashDownload` | lufa/Bootloaders/DFU/BootloaderDFU.c:237-389 | An acceptable program request completes, and the exact state it leaves |
| `DfuTheorems.FlashDownloadExact` | lufa/Bootloaders/DFU/BootloaderDFU.c:278-355 | A flash download leaves the payload in place, 0xFF in the rest of its pages and every other page unchanged, for all bytes, if and only if the length is even and the range starts a page or stays within one |
| `DfuTheorems.EepromDownload` | lufa/Bootloaders/DFU/BootloaderDFU.c:356-378 | The exact EEPROM a request leaves; from an unaligned start it is shifted by one byte |
| `DfuTheorems.EepromDownloadExact` | lufa/Bootloaders/DFU/BootloaderDFU.c:543-563 | EEPROM downloads land right for all bytes if and only if the start is a multiple of 32 |
| `DfuTheorems.ReadBack` | lufa/Bootloaders/DFU/BootloaderDFU.c:413-482 | Display-data and upload return exactly the addressed bytes, whole words for flash; a range of all 64KB has a 16-bit length of zero and returns none |
| `DfuTheorems.FlashRoundTripExact` | lufa/Bootloaders/DFU/BootloaderDFU.c:292-482 | Download then read-back over flash is the identity for all payloads if and only if the length is even and the range starts a page or stays within one |
| `DfuTheorems.SelectPage` | lufa/Bootloaders/DFU/BootloaderDFU.c:606-610 | The command 06 03 00 k completes outside secure mode, makes k the 64KB page, and keeps both memories and the address range |
| `DfuTheorems.PagedRoundTrip` | lufa/Bootloaders/DFU/BootloaderDFU.c:292-482 | One run of select page k, download, select page k, display data and upload: the payload is at `k * 0x1_0000 + start`, the rest of the flash is as wanted, and the payload comes back |
| `DfuTheorems.EepromRoundTripExact` | lufa/Bootloaders/DFU/BootloaderDFU.c:356-479 | Download then read-back over EEPROM is the identity for all payloads if and only if the start is a multiple of 32 |
| `DfuTheorems.BlankCheck` | lufa/Bootloaders/DFU/BootloaderDFU.c:676-702 | What a blank check leaves in every reachable state: with a non-blank byte the error state, whose page and offset recombine to the least such address, which the next upload reports; on blank flash an error state stays as it was |
| `DfuTheorems.BlankCheckExact` | lufa/Bootloaders/DFU/BootloaderDFU.c:676-702 | The error state tells whether some application byte is not blank if and only if the device was in no error state before or there is such a byte |
| `DfuTheorems.Erase` | lufa/Bootloaders/DFU/BootloaderDFU.c:747-767 | Chip erase blanks the application section, touches nothing above it, ends secure mode, and leaves an error state as it was |
| `DfuTheorems.EraseThenBlankExact` | lufa/Bootloaders/DFU/BootloaderDFU.c:676-767 | A blank check after an erase finds nothing if and only if the device was in no error state before the erase |
| `DfuTheorems.StaleError` | lufa/Bootloaders/DFU/BootloaderDFU.c:569-767 | How that fails: a secure device refuses a command, is erased and checked, and an upload then reports an address of the blank device as not blank |
| `DfuTheorems.AbortRestores` | lufa/Bootloaders/DFU/BootloaderDFU.c:490-535 | After DFU_ABORT the check is reliable in every state; DFU_CLRSTATUS does not have that effect |
| `DfuTheorems.UploadEnds` | lufa/Bootloaders/DFU/BootloaderDFU.c:390-488 | An upload returns to idle with its address range used up, and the next one answers the response byte |
| `DfuTheorems.StatusReported` | lufa/Bootloaders/DFU/BootloaderDFU.c:489-534 | The six bytes of GETSTATUS and the byte of GETSTATE in DFU codes, also after CLRSTATUS and ABORT |
| `DfuTheorems.ReadInfoExact` | lufa/Bootloaders/DFU/BootloaderDFU.c:773-786 | Bootloader info and signature bytes are read, secure or not, if and only if no display-data command is pending and, for the signature, the device is in no error state |
| `DfuTheorems.SecureRefuses` | lufa/Bootloaders/DFU/BootloaderDFU.c:571-588 | A secure device answers every command but the erase and the reads with an error and changes nothing else |
| `DfuTheorems.UnknownIgnored` | lufa/Bootloaders/DFU/BootloaderDFU.c:590-611 | A command whose code and first two parameters are in no handler has no effect |
| `DfuTheorems.StartApplication` | lufa/Bootloaders/DFU/BootloaderDFU.c:708-746 | The bootloader ends at once on 04 03 with a parameter other than zero and no more than five in all, outside secure mode, and on no other |
| `DfuTheorems.StartOnEmpty` | lufa/Bootloaders/DFU/BootloaderDFU.c:222-290 | Otherwise it ends with the empty request that follows |
| `CdcBootloader.Bootloader.Respond` | lufa/Bootloaders/CDC/BootloaderCDC.c:376-395 | The response so far is full packets plus the bank |
| `CdcBootloader.Bootloader.Flush` | lufa/Bootloaders/CDC/BootloaderCDC.c:599-625 | The packets sent concatenate to the response, all but the last full, the last short or empty, as section 5.8.3 of the USB 2.0 specification ends a transfer |
| `CdcBootloader.Bootloader.ReadFlash` | lufa/Bootloaders/CDC/BootloaderCDC.c:262-278 | The byte loop with its high-byte toggle answers consecutive flash |
| `CdcBootloader.Bootloader.ReadEeprom` | lufa/Bootloaders/CDC/BootloaderCDC.c:279-287 | The same for EEPROM |
| `CdcBootloader.Bootloader.StoreFlash` | lufa/Bootloaders/CDC/BootloaderCDC.c:291-337 | One page is erased, loaded word by word and committed; the hardware rules are kept and an odd last byte is lost |
| `CdcBootloader.Bootloader.StoreEeprom` | lufa/Bootloaders/CDC/BootloaderCDC.c:319-327 | The EEPROM is overlaid with the block |
| `CdcBootloader.Bootloader.MemoryBlock` | lufa/Bootloaders/CDC/BootloaderCDC.c:235-342 | Block command: new state, reply, and nothing of the stream consumed beyond the block, however the host splits its packets |
| `CdcBootloader.Bootloader.Task` | lufa/Bootloaders/CDC/BootloaderCDC.c:400-632 | One command from the stream: the state after it, its answer as one complete transfer, and what the final acknowledgement drops |
| `CdcTheorems.SetAddressExact` | lufa/Bootloaders/CDC/BootloaderCDC.c:443-451 | The word address arrives if and only if its high byte is below 0x40; otherwise its top bit is lost and the next one sign-extended |
| `CdcTheorems.DecodeEncode` | lufa/Bootloaders/CDC/BootloaderCDC.h:85-114 | The commands as bytes, by the AVR109 letters: reading what a host encodes gives the command and what follows it |
| `CdcTheorems.WritesAcknowledged` | lufa/Bootloaders/CDC/BootloaderCDC.c:285-342 | Every block write is answered with a carriage return |
| `CdcSpec.Execute` | lufa/Bootloaders/CDC/BootloaderCDC.c:400-632 | Every command keeps the current address even and the memories their sizes |
| `CdcTheorems.BlockWrittenExact` | lufa/Bootloaders/CDC/BootloaderCDC.c:289-341 | A block write changes its own bytes and nothing else, for all contents, if and only if it is a full page at a page boundary |
| `CdcTheorems.AlignedBlock` | lufa/Bootloaders/CDC/BootloaderCDC.c:289-341 | What a block of any length at a page boundary leaves: its whole words, the rest of its page erased, everything else unchanged |
| `CdcTheorems.FlashBlocks` | lufa/Bootloaders/CDC/BootloaderCDC.c:289-341 | Any number of consecutive full-page writes programs the concatenation of the blocks and changes nothing else |
| `CdcTheorems.EepromBlocks` | lufa/Bootloaders/CDC/BootloaderCDC.c:289-341 | The same for EEPROM with blocks of any sizes |
| `CdcTheorems.ReadAllExact` | lufa/Bootloaders/CDC/BootloaderCDC.c:262-278 | Consecutive flash reads return consecutive bytes, for all contents, if and only if every read of odd size is followed by empty reads only |
| `CdcTheorems.RepeatedByte` | lufa/Bootloaders/CDC/BootloaderCDC.c:262-278 | How that fails: two reads of one byte each are both answered with the first byte |
| `CdcTheorems.FlashReadOut` | lufa/Bootloaders/CDC/BootloaderCDC.c:235-342 | One run of set-address, full-page writes and a last shorter one, set-address, reads of any sizes: the answers are what those reads take from the bytes written |
| `CdcTheorems.FlashRoundTrip` | lufa/Bootloaders/CDC/BootloaderCDC.c:235-342 | In such a run the bytes written come back, an odd last one excepted, when every read of odd size is followed by empty reads only |
| `CdcTheorems.EepromRoundTrip` | lufa/Bootloaders/CDC/BootloaderCDC.c:235-342 | One run of set-address, writes, set-address, reads over EEPROM, with blocks of any sizes on both sides, returns what was written |
| `CdcTheorems.EraseThenRead` | lufa/Bootloaders/CDC/BootloaderCDC.c:474-488 | After an erase the application section reads as 0xFF at any place and in any size; boot section, EEPROM and address are kept |
| `CdcTheorems.EepromByteRoundTrip` | lufa/Bootloaders/CDC/BootloaderCDC.c:573-592 | A byte written to any EEPROM address below 0x4000 comes back, every other byte stays, and write and read move on by one |
| `CdcTheorems.Courtesies` | lufa/Bootloaders/CDC/BootloaderCDC.c:241-255 | Leaving is acknowledged, an unknown memory is refused with a question mark, synchronisation is not answered; none touches a memory |
| `IntelHex.Reader.StoreData` | lufa/Bootloaders/HID/HostLoaderApp/hid_bootloader_cli.c:865-875 | The byte loop stores, marks and sums up to the first bad digit pair, with the index in 32-bit arithmetic; a byte outside of the image is noted |
| `IntelHex.Reader.ParseHexLine` | lufa/Bootloaders/HID/HostLoaderApp/hid_bootloader_cli.c:819-879 | A line does to image, mask, extended address and byte count what `ParseLine` says, accepted or not, and whether it stored a byte outside of the image |
| `IntelHex.Reader.ReadIntelHex` | lufa/Bootloaders/HID/HostLoaderApp/hid_bootloader_cli.c:773-808 | Lines are read until the end record or the first bad line; the byte count or -2 |
| `IntelHex.Reader.BytesWithinRange` | lufa/Bootloaders/HID/HostLoaderApp/hid_bootloader_cli.c:881-893 | True if and only if the range is valid and holds a loaded address |
| `IntelHex.Reader.GetData` | lufa/Bootloaders/HID/HostLoaderApp/hid_bootloader_cli.c:895-913 | The loaded bytes with 255 in the gaps, into the given part of the buffer only |
| `IntelHexTheorems.DataLine` | lufa/Bootloaders/HID/HostLoaderApp/hid_bootloader_cli.c:819-879 | A data line is accepted if and only if its range passes the check, whose sum wraps at 32 bits, and its bytes add up to zero modulo 256 |
| `IntelHex.PassesExact` | lufa/Bootloaders/HID/HostLoaderApp/hid_bootloader_cli.c:837 | The range check lets through what lies inside the memory and what begins below 2^32 and ends behind it |
| `IntelHexTheorems.WrittenData` | lufa/Bootloaders/HID/HostLoaderApp/hid_bootloader_cli.c:819-879 | The line of any data record is accepted if and only if its range passes the check, and then stores exactly the bytes of the record |
| `IntelHexTheorems.StrayExact` | lufa/Bootloaders/HID/HostLoaderApp/hid_bootloader_cli.c:837-875 | The line of a data record stores outside of the image if and only if the extended address is 0xFFFF0000 and the record reaches the end of its 64KB |
| `IntelHexTheorems.StrayFile` | lufa/Bootloaders/HID/HostLoaderApp/hid_bootloader_cli.c:773-879 | Files of two lines that do so and are read without complaint, for example a type 04 record of 0xFFFF and one byte at 0xFFFF |
| `IntelHexTheorems.CaseIgnored` | lufa/Bootloaders/HID/HostLoaderApp/hid_bootloader_cli.c:819-879 | Digits in lower case change nothing |
| `IntelHexTheorems.MalformedRejected` | lufa/Bootloaders/HID/HostLoaderApp/hid_bootloader_cli.c:819-837 | A line that is too short, has no colon, or whose length, address or type is not in digits is rejected and has no effect |
| `IntelHexTheorems.BadPairStored` | lufa/Bootloaders/HID/HostLoaderApp/hid_bootloader_cli.c:865-878 | A data line with a bad pair is rejected, yet the bytes before the pair are stored and its announced length is counted |
| `IntelHexTheorems.ReadRecord` | lufa/Bootloaders/HID/HostLoaderApp/hid_bootloader_cli.c:819-879 | Reading a written record does what the record means |
| `IntelHexTheorems.ReadWritten` | lufa/Bootloaders/HID/HostLoaderApp/hid_bootloader_cli.c:773-879 | Reading a written file applies its records in order and ignores what is behind the end record |
| `IntelHexTheorems.ImageOf` | lufa/Bootloaders/HID/HostLoaderApp/hid_bootloader_cli.c:865-875 | The image is the sequential overlay, the mask the union, and the byte count the total of the record lengths |
| `IntelHexTheorems.ByteCountExact` | lufa/Bootloaders/HID/HostLoaderApp/hid_bootloader_cli.c:865-875 | The byte count is at least the number of marked addresses, and equal if and only if no two records overlap |
| `IntelHexTheorems.DamageDetected` | lufa/Bootloaders/HID/HostLoaderApp/hid_bootloader_cli.c:819-879 | Any other value in any one address, data or checksum byte of a data record makes its line rejected |
| `IntelHexTheorems.TypeDamageAccepted` | lufa/Bootloaders/HID/HostLoaderApp/hid_bootloader_cli.c:838-864 | With any other type byte the line of a data record is accepted if and only if its range passes the check; type 1 then ends the file, and no other has any effect |
| `IntelHexTheorems.AddressDamageIgnored` | lufa/Bootloaders/HID/HostLoaderApp/hid_bootloader_cli.c:844-864 | With any one byte of its address or checksum changed an address record is accepted and has no effect |
| `IntelHexTheorems.LengthDamageExact` | lufa/Bootloaders/HID/HostLoaderApp/hid_bootloader_cli.c:826-878 | With any other length byte the line is accepted if and only if the length is smaller, the range passes the check and the bytes up to where the checksum is then looked for add up to zero |
| `HidLoader.Device.SetReport` | lufa/Bootloaders/HID/BootloaderHID.c:134-187 | The start-application report changes no memory; any other address programs exactly one page, also where the address is the upper part of a longer one; an odd address leaves that page unspecified and every other page as it was |
| `HidLoader.AddressesAgree` | lufa/Bootloaders/HID/HostLoaderApp/hid_bootloader_cli.c:153-159 | Host and device agree on every block address of a known part if and only if it is not the 64 KiB one |
| `HidLoader.ReachesExact` | lufa/Bootloaders/HID/HostLoaderApp/hid_bootloader_cli.c:146-159 | Host and device agree on all blocks that are sent if and only if the part is not the 64 KiB one or nothing is loaded behind the first block |
| `HidLoader.ProgramDevice` | lufa/Bootloaders/HID/HostLoaderApp/hid_bootloader_cli.c:146-177 | On every part, where host and device agree on the blocks that are sent: page 0 and every page with a loaded byte hold what the host sends and every other page is unchanged; where they do not, nothing behind page 0 changes. No data report starts the application |
| `HidLoader.LoadAndProgram` | lufa/Bootloaders/HID/HostLoaderApp/hid_bootloader_cli.c:91-177 | The whole host program against the device, for all lines and parts; a damaged file leaves the device untouched |
| `HidLoader.FlashedExact` | lufa/Bootloaders/HID/HostLoaderApp/hid_bootloader_cli.c:146-174 | Whatever was in flash, it ends up as the image with 0xFF in its gaps if and only if the part is below 64 KiB, or is the 64 KiB one and nothing is loaded behind the first block, or is above and the last block of the host memory, which is always sent as all 0xFF, holds nothing else |
| `HidLoader.FileToFlash` | lufa/Bootloaders/HID/HostLoaderApp/hid_bootloader_cli.c:91-177 | End to end from records: the file is read, and whatever was in flash, it ends up as the records say, later ones winning, gaps of used pages 0xFF, the rest unchanged, if and only if the records suit the part in that sense |
| `HidLoader.FlashRecords` | lufa/Bootloaders/HID/HostLoaderApp/hid_bootloader_cli.c:91-177 | The same for one run on the device: flash is as the records say if and only if they suit the part; if they do not suit the 64 KiB part nothing behind page 0 changes |
| `RingBuffer.Buffer.constructor` | lufa/LUFA/Drivers/Misc/RingBuffer.h:132-149 | An empty queue over the given storage |
| `RingBuffer.Buffer.GetCount` | lufa/LUFA/Drivers/Misc/RingBuffer.h:166-177 | The number of stored bytes |
| `RingBuffer.Buffer.IsEmpty` | lufa/LUFA/Drivers/Misc/RingBuffer.h:210-213 | True if and only if nothing is stored |
| `RingBuffer.Buffer.IsFull` | lufa/LUFA/Drivers/Misc/RingBuffer.h:224-227 | True if and only if the storage is used up |
| `RingBuffer.Buffer.Insert` | lufa/LUFA/Drivers/Misc/RingBuffer.h:239-254 | Appends to the contents, wrapping at the end of the storage |
| `RingBuffer.Buffer.Remove` | lufa/LUFA/Drivers/Misc/RingBuffer.h:267-284 | Takes the oldest byte off the contents |
| `RingBuffer.Buffer.Peek` | lufa/LUFA/Drivers/Misc/RingBuffer.h:293-296 | The oldest byte |
| `RingInterleaving.StoreIsSafe` | lufa/LUFA/Drivers/Misc/RingBuffer.h:239-254 | The slot an insertion stores to holds no unread byte, whatever the remover is in the middle of |
| `RingInterleaving.StepKeeps` | lufa/LUFA/Drivers/Misc/RingBuffer.h:239-284 | Every sub-step of either thread keeps the queue invariant |
| `RingInterleaving.FifoInEveryInterleaving` | lufa/LUFA/Drivers/Misc/RingBuffer.h:239-284 | In every interleaving the removed bytes, one for each removal, are a prefix of the bytes insertions were begun with, the count stays within the size, and no unread slot is overwritten |
| `SerialBridge.EventKeeps` | lufa/Projects/USBtoSerial/USBtoSerial.c:95-143 | Every safe event keeps the invariant, with interrupts also between the peek, the send and the steps of the removal |
| `SerialBridge.NothingLost` | lufa/Projects/USBtoSerial/USBtoSerial.c:97-139 | In every run of safe events: bytes sent, the byte looked at and bytes stored are the data of the interrupts, whatever sends fail; no removal finds the buffer empty; the bytes taken from the host are those gone to the serial port and those pending |
| `SerialBridge.CameIn` | lufa/Projects/USBtoSerial/USBtoSerial.c:97-104 | In every run the bytes received are the data of the interrupts, the bytes taken from the host are those ready while fewer than 128 were pending, and they go to the serial port in order |
| `SerialBridge.InStep` | lufa/Projects/USBtoSerial/USBtoSerial.c:97-139 | A byte of the host is taken while fewer than 128 are pending, and whenever one is pending the oldest goes to the serial port |
| `SerialBridge.RoundBegins` | lufa/Projects/USBtoSerial/USBtoSerial.c:107-118 | Bytes are sent exactly when the buffer holds some and no packet is under way |
| `SerialBridge.RoundSends` | lufa/Projects/USBtoSerial/USBtoSerial.c:108-135 | A round sends as many bytes as the buffer held when it was looked at, at most 15, and fewer only when a send fails |
| `SerialBridge.LosslessExact` | lufa/Projects/USBtoSerial/USBtoSerial.c:97-139 | A run keeps every unsent byte, in order, at all its points if and only if every interrupt finds a slot without a byte only the buffer holds, and no send fails after the slot of its byte was taken |
| `SerialBridge.SafeByCount` | lufa/LUFA/Drivers/Misc/RingBuffer.h:224-227 | An interrupt is safe if and only if the buffer is not full, or just full with its oldest byte looked at or under removal; a failing send is safe if and only if the count does not exceed the size |
| `SerialBridge.FullWhilePeeked` | lufa/Projects/USBtoSerial/USBtoSerial.c:121-129 | An interrupt into a full buffer between the peek and the send loses nothing if and only if that send succeeds |
| `SerialBridge.NeverFullIsSafe` | lufa/Projects/USBtoSerial/USBtoSerial.c:97-139 | A run whose interrupts never find the buffer full consists of safe events |
| `SerialBridge.Overrun` | lufa/Projects/USBtoSerial/USBtoSerial.c:192-198 | A run without room: 128 zeros and a one arrive before the main loop runs, and the host is sent the one first |
| `SerialBridge.InsertedIsSteps` | lufa/LUFA/Drivers/Misc/RingBuffer.h:239-254 | The insertion of the interrupt is the sequence of insertion steps of the two-thread model |
| `LcdEscape.Bridge.Drain` | lufa/Projects/SerialToLCD/SerialToLCD.c:101-130 | The drain loop decodes everything stored and carries the escape flag over |
| `LcdEscape.Bridge.Turn` | lufa/Projects/SerialToLCD/SerialToLCD.c:88-134 | One turn of the main loop feeds the decoder at most one byte and leaves the buffer empty |
| `LcdEscape.AnyChunking` | lufa/Projects/SerialToLCD/SerialToLCD.c:101-130 | Decoding does not depend on how the bytes are cut into chunks |
| `LcdEscape.DecodeEscaped` | lufa/Projects/SerialToLCD/SerialToLCD.c:101-130 | What the decoder makes of any escaped list of items |
| `LcdEscape.RoundTripExact` | lufa/Projects/SerialToLCD/SerialToLCD.c:101-130 | Escaped items in any chunking come out as they were if and only if none is the command 0x1B |
| `LockController.RequestsUnderstood` | c_locc.c:193-240 | Any list of requests written one to a line, with junk behind each, is recognised in order; LED operands are never taken for commands |
| `LockController.OpensOn` | c_locc.c:202-227 | The parser gives the command if and only if it expects one and reads an o |
| `LockController.ProtocolExact` | c_locc.c:193-240 | After any bytes the parser expects a command if and only if they end with a line end that is no LED operand, or with an h or i read as a command; likewise for the two LED operands |
| `LockController.RequestsExact` | c_locc.c:193-240 | In any string of bytes exactly every o read as a command opens the lock and every pair of operands switches an LED |
| `LockController.CommandExamples` | c_locc.c:202-227 | Carriage return, newline, o and newline, h, o each open the lock once; newline, x, o does not |
| `LockController.LedsExact` | c_locc.c:125-240 | After any bytes each LED is on or off as the last request for its digit says |
| `LockController.StepKeeps` | locc.c:215-292 | Every main-loop step and every tick keeps the invariant on actions, waits, supply and step |
| `LockController.SequenceInEveryRun` | locc.c:215-292 | In every interleaving: the actions are wake-up, telegram, power-down, power-up over and over with at least 59, 15000, 5000 and 5000 ticks after each, and the timer never set to more; the supply is off exactly between power-down and power-up; four actions for each o read as a command while idle |
| `LockController.FrameIsSteps` | c_locc.c:142-169 | A frame without interrupts is a sequence of the main-loop steps |
| `LockController.MeasureFalls` | locc.c:219-273 | The measure of steps and ticks left never rises until idle, and falls with a main-loop step or, while waiting, with a tick |
| `LockController.BackToIdle` | locc.c:219-292 | From any state, whatever is received and whenever the interrupt comes, the controller returns to idle before main loop and timer have alternated more often than the measure says |
| `LockController.Controller.HandleUserInput` | c_locc.c:193-240 | Next protocol state, LED number and LEDs; the command is given if and only if an o comes where a command is expected |
| `LockController.Controller.DoLoccStep` | locc.c:236-273 | The action, wait and next step of each of the four steps: wake-up and 59, telegram and 15000, power-down and 5000, power-up and 5000 |
| `LockController.Controller.TimerInterrupt` | locc.c:328-334 | A tick |
| `LockController.Controller.Loop` | c_locc.c:142-169 | A frame of the main loop is `Frame`, and an LED request takes effect in the same frame |
| `Telegram.Cylinder.SendEntry` | locc.c:147-169 | Eight bits, most significant first, as two opposite half-bits each |
| `Telegram.Cylinder.SendTelegram` | locc.c:140-177 | The levels of all `length + 1` entries, 16 for each, and the line ends high |
| `Telegram.RoundTrip` | locc.c:140-177 | Decoding the levels gives the low byte of every entry, for any integers |
| `Telegram.ClockRecoverable` | locc.c:140-177 | No level lasts more than two half-bits inside a telegram |
| `Debounce.FiresOnPulses` | keypad.c:39-52 | For every input, a debounce counter fires exactly on the rising edges with no such edge within the lockout before them |
| `Debounce.PulsesApart` | keypad.c:39-52 | Two of them are more than a lockout apart with a low input in between |
| `Debounce.PulsesCanBeThatClose` | keypad.c:39-52 | That distance is reached |
| `Debounce.BounceIgnored` | dial.c:34-45 | If bounce stays within the lockout after real edges, the counter fires on exactly the real edges |
| `Dial.Scanner.DialScan` | dial.c:28-85 | One scan on the static variables |
| `Dial.HookReported` | dial.c:64-82 | For every trace, the hook is reported on exactly the changes with none reported in the 254 scans before |
| `Dial.ReportExact` | dial.c:28-85 | What every scan of every trace reports: a hook change, else on a dial pulse the digit for the number of impulses since the last one, modulo 256 and 0 for ten and more, else nothing |
| `Dial.Spacing` | dial.c:28-85 | Impulses at least 65 scans apart, digits at least 129, hook reports at least 255 |
| `Dial.RealImpulsesCounted` | dial.c:34-62 | With bounce confined to the lockout and no hook change in the same scan, the digit is the number of real impulses since the last digit |
| `Keypad.Scanner.KeypadScan` | keypad.c:30-62 | Row, selector, counters and the reported key after one scan; the selector stays 0x10 shifted by the row |
| `Keypad.LedSet` | c_locc.c:125-130 | Setting an LED lights or clears it and no other, and leaves the row bits alone |
| `Keypad.OneRowDriven` | c_locc.c:132-140 | Whatever the LEDs show, the shift-register word drives exactly the selected row, so the columns read are that row |
| `Keypad.Panel.SetLed` | c_locc.c:125-130 | The LEDs after set_led |
| `Keypad.Panel.Frame` | c_locc.c:171-184 | After the first frame every scan sees the keys of the row it scans, and the next row is driven |
| `Keypad.KeysIndependent` | keypad.c:30-62 | In every trace the counter of each of the 16 keys depends on the samples of its own key alone |
| `Keypad.ReportExact` | keypad.c:30-62 | Every scan of every trace reports the character of the new press in the highest column of its row, from the literal table, and nothing if and only if there is none |
| `Keypad.PressesApart` | keypad.c:39-52 | Two reports of a key are at least 260 scans apart with the key seen released in between |
| `Keypad.ReportIdentifies` | keypad.c:37 | Different keys have different characters |

## Left out

- USB controller, endpoint and class drivers of LUFA: endpoints are packet queues.
- AVR intrinsics, port pins, delays and the watchdog: only flash, EEPROM and pin levels are modelled.
- Early returns when the USB cable is pulled: runs are connected.
- Starting the application, the magic boot key and the jump check: only the flags that lead there.
- DfuBootloader.Bootloader.DnLoad: requires a request the device can complete, `Completes`, because a data stage that is too short leaves it waiting for a packet and an address beyond the memory is undefined on the hardware; flash words from a start that is not a multiple of 32 straddle packets and are excluded with it.
- DfuBootloader.Bootloader.ControlRequest: answers requests to the DFU interface only, and its replies are not cut to the length the host asks for.
- DfuBootloader.Bootloader.ReadCommand: an index outside the tables leaves the response unchanged, where the firmware would read beyond them.
- CdcBootloader.Bootloader.Task: models the commands that address memory; single-word flash commands, fuse, lock and signature commands, constant replies and unknown command bytes are one-branch behaviour.
- CdcBootloader.Bootloader.StoreFlash: blocks longer than a page would load a slot of the page buffer twice, which the hardware does not define; the bootloader announces the page size as its block size.
- IntelHex.Reader.ParseHexLine: `sscanf` on malformed digits is taken to fail, and lines fit the buffer. A byte stored outside of the image is noted and dropped; what it would overwrite is up to the host.
- HidLoader.LoadAndProgram: every report is written; a write that fails, or a file that does not open, ends the host program. For a file that stores outside of the image it says what follows if that store hits nothing.
- HidLoader.Device.SetReport: an address beyond the flash and a report shorter than a page are excluded, because the hardware does not define the one and the device waits for the rest of the other.
- HidLoader.ProgramDevice: which bytes page 0 of the 64 KiB part ends up with when other blocks are taken for it, because some of them load the page buffer at odd addresses.
- SerialBridge: the main loop is a state machine rather than a method, because interrupts come between its steps; the buffer towards the serial port belongs to the main loop alone and is its contents.
- Dial.ReportExact: a hook change hides a digit detected in the same scan, as in the code.
- LockController: the legacy state machine of locc.c, which the main loop does not call, the unreachable step 0 of the sequence, and echoes to the host.
- Other LUFA projects, demos, descriptors and build files, and the scripts beside the firmware.
