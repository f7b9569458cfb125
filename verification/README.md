# SeLinOS root services: a verified model

This project models four cores of SeLinOS and two small loops beside them, and proves
what each is for.  `dafny verify dfyconfig.toml` checks everything.

- **Archive and file server** (`Newc*.dfy`, `RomServer.dfy`, `FixtureBoot.dfy`): the Python
  tool that prints a newc archive ("New ASCII Format" of cpio(5)), the C reader that parses
  it back from untrusted bytes, and the request loop above it.  The format itself is
  declarative (`Newc.dfy`: members, chains, lookup); printer and parser are proved against
  it separately, and the round trip follows.
- **ELF metadata parser** (`Elf*.dfy`): three dependent passes over an image, proved against
  a declarative status and summary, then against an order-free well-formedness predicate
  (System V gABI, chapter 5).
- **PCI and virtio** (`Pci*.dfy`, `Virtio*.dfy`): the bounded capability walk (PCI Local Bus
  3.0, section 6.7), BAR sizing as a restoring transaction and BAR allocation (section
  6.2.5.1), notification addresses (Virtio 1.1, section 4.1.4.4), and the staging functions
  against an arbitrary device, allocator and address space.  Which requests go through is
  an arbitrary function of their number (`ConfigPort.grants`, `PciFunction.port`,
  `Platform.grants`), so contracts name the requests they depend on, and a failing case can
  be exhibited (`ProbeLeftBehind`, `LayoutRefused`).  The protocol of a stage is a script
  (`VirtioScript.dfy`); its log is the script replayed against the device's answers, which
  the log determines (`AnswersDetermined`).
- **Root construction and lease** (`RootConstruct.dfy`, `RootSystem.dfy`): root's code as a
  class, runs over arbitrary messages, and a step system of root, client and child over
  rendezvous.  `Execute` ties root's code to the step system, `ClientProcess.Run` the
  client's.
- **User copies** (`UserCopy.dfy`) and the **displacement normaliser** (`ObjectWindow.dfy`).

Code and specification share words such as "the dynamic entry at this offset" or "the low
half of an address".  What these words mean is said once more without them, in bytes and
numbers of the formats and protocols: `NewcLaws.dfy`, `RomProtocol.dfy`, `ElfLayout.dfy`
(a printer for the tables), `ElfLaws.dfy`, `ElfExample.dfy` (an image byte by byte),
`PciLaws.dfy`, `VirtioLaws.dfy` and `RootProtocol.dfy`.

Machine words are integers with explicit ranges; wrap-around and masks are written out
(`Bits.dfy`).  Configuration space is a register file: a BAR write stores the writable bits
of the value and the wired bits, and registers are assumed to hold values that such a write
leaves (`Settled`).  Device and kernel answers, slot numbers returned by the process library
and physical addresses of frames are arbitrary values; an address range that the address
space grants has nothing mapped in it.

Where the code does not do what its comments or documentation suggest, the model follows
the code, and the difference is proved:

- Rounding an offset up is refused when fewer than three bytes follow it, even when it is
  aligned (`Align4BoundedExact`), so an archive that ends right behind its last data cannot
  be walked to that end.  The printer's trailer is what makes every file reachable.
- The seventeenth member and later ones are never found (`RoundTrip`).
- The packed volatile path is compared as two words, so its two spare bytes must be zero;
  every other path ignores spare bytes (`StatePathNeedsZeroFill`, `PackedPathDecoded`).
- A read of the release file returns eight bytes and reports length 18
  (`RomRequestsSucceed` answers with the table's reported length).
- A notify capability at 0xf0 takes its multiplier from offset zero, which holds the
  device's own identity (`MultiplierSource`).
- A prefetchable 32-bit BAR is never assigned, because the attribute bits are cleared before
  they are programmed (`AssignmentLaw`).  If the probe has been written and the sizing read
  or the write back is refused, the probe value stays in the BAR and the command register
  is restored all the same, so memory decoding comes back on over it (`AssignBar32`,
  `LeftBar`; `ProbeLeftBehind` shows it).
- A sane common range may have its registers on the next page (`SaneButOutOfPage`).  Each
  stage leaves the mapped page exactly if what it accesses does not fit: 0x15 bytes for the
  status-only stages, 0x1a and 0x20 once the queue is inspected, 0x38 once its addresses
  are written (`Confined`, `Reach`, `QueueReach`).
- The queue stage marks the common page mapped before it sets its register pointer.  The
  clean-up writes through a null pointer once exactly when the common page is mapped but the
  layout page is not mapped or does not read as zero (`NotifyZeroDescriptor`;
  `LayoutRefused` shows it).
- A wrong completion slot for the client leaves the completion endpoint allocated, and once
  the client is prepared a failed start cannot be repeated (`PrepareTaskd`, `StartBundle`).
- A string that ends exactly at the top of the address space is refused (`TestsAreDivision`).

## Model

| member | source | states |
|---|---|---|
| NewcRoundTrip.RoundTrip | src/projects/helixos/servers/romfsd.c:113-165 | looking a name up in any printed archive answers with the data of the first file of that name when it is regular and among the first sixteen, and with nothing otherwise |
| NewcRoundTrip.MembersChained | tools/generate_romfs_cpio_fixture.py:44-50 | an archive printed from any list of files is a chain of its members: each header at the aligned end of the one before, mode, name and data as given, the trailer last |
| NewcRoundTrip.FirstSelected | src/projects/helixos/servers/romfsd.c:149-159 | in a chain that ends with the trailer the first member of the name decides, even when it is not regular |
| NewcRoundTrip.TrailerStops | src/projects/helixos/servers/romfsd.c:149-151 | nothing behind a trailer is ever found, whatever the archive holds there |
| NewcParser.CpioLookupRegular | src/projects/helixos/servers/romfsd.c:113-165 | for every byte string and pathname the loop returns the entry of the declarative lookup: the first of at most sixteen chained members of that name, if regular |
| NewcParser.ReadMember | src/projects/helixos/servers/romfsd.c:132-148 | one header pass yields exactly the member the format defines at that offset, or finds that there is none |
| NewcParser.AddBoundedExact | src/projects/helixos/servers/romfsd.c:47-55 | a bounded sum is accepted exactly when the integer sum stays inside the archive, wrap-around included |
| NewcParser.Align4BoundedExact | src/projects/helixos/servers/romfsd.c:57-64 | rounding up never wraps; it is refused exactly when three more bytes would leave the archive, except offset zero of an archive shorter than three bytes |
| NewcParser.ParseHex8 | src/projects/helixos/servers/romfsd.c:66-89 | accepts exactly eight hexadecimal digits and returns the number they denote |
| NewcParser.LiteralEquals | src/projects/helixos/servers/romfsd.c:91-105 | true exactly when the name field is the literal followed by one NUL, without reading past either |
| NewcParser.MagicIsNewc | src/projects/helixos/servers/romfsd.c:107-111 | true exactly for the magic 070701 |
| Newc.SelectionUnique | src/projects/helixos/servers/romfsd.c:113-165 | two chains of one archive that both select a pathname select the same member, so the lookup is well defined |
| Newc.NothingSelected | src/projects/helixos/servers/romfsd.c:132-164 | each way the search can stop empty-handed means that no chain of the archive selects the pathname |
| Newc.MemberInside | src/projects/helixos/servers/romfsd.c:142-148 | a member's name and data lie inside the archive, behind its header |
| NewcWriter.ArchiveBuffer.Align4 | tools/generate_romfs_cpio_fixture.py:18-19 | appends exactly the zeros that make the length a multiple of four |
| NewcWriter.ArchiveBuffer.AppendMember | tools/generate_romfs_cpio_fixture.py:44-50 | the buffer afterwards, also when the name cannot be encoded or the header is refused: what an exception leaves behind is part of the contract |
| NewcWriter.BuildFixture | tools/generate_romfs_cpio_fixture.py:72-77 | any list of names and contents is assembled into its archive, or refused exactly when a file, or the trailer with its number, cannot be printed |
| NewcWriter.Hex8ReadsBack | tools/generate_romfs_cpio_fixture.py:38 | a printed field has eight digits exactly when the number is below 2^32, and then reads back as it |
| NewcWriter.HeaderDefined | tools/generate_romfs_cpio_fixture.py:38-41 | the header has 110 bytes exactly when all four variable fields are below 2^32 |
| NewcWriter.HeaderFields | tools/generate_romfs_cpio_fixture.py:22-41 | mode, size and name size of an accepted header sit where the reader looks for them |
| NewcLaws.HeaderShape | tools/generate_romfs_cpio_fixture.py:22-41 | what an accepted header holds at each of its thirteen places, with the magic in bytes |
| NewcLaws.MemberExact | src/projects/helixos/servers/romfsd.c:132-148 | which bytes are a member, position by position and in numbers: data at the next multiple of four behind the name |
| NewcLaws.RegularMeans | src/projects/helixos/servers/romfsd.c:154-155 | a mode is that of a regular file exactly if bits 12 to 15 are 1000 |
| NewcLaws.DigitsMean | src/projects/helixos/servers/romfsd.c:72-83 | the digits are 0 to 9, A to F and a to f and nothing else, with their values; upper and lower case agree |
| NewcLaws.CaseIgnored | src/projects/helixos/servers/romfsd.c:72-83 | a field read in upper or lower case denotes the same number |
| NewcLaws.DigitsWeigh | src/projects/helixos/servers/romfsd.c:66-89 | digits in front of n others weigh sixteen to the n |
| NewcLaws.OnlyText | tools/generate_romfs_cpio_fixture.py:38 | texts of one length without upper-case digits that denote the same number are the same text, so a printed field is determined by its number |
| FixtureBoot.FixturePassesSelfCheck | tools/generate_romfs_cpio_fixture.py:11-15 | the archive generated from the three embedded files passes the server's start-up check |
| RomServer.Server.ArchiveSelfCheck | src/projects/helixos/servers/romfsd.c:240-256 | true exactly when each table file is found with its declared length and magic word |
| RomServer.Server.Handle | src/projects/helixos/servers/romfsd.c:270-370 | one turn of the request loop: the reply and the new volatile state are those of the abstract server, for every message |
| RomServer.Server.Serve | src/projects/helixos/servers/romfsd.c:258-371 | the request loop over any finite run of requests keeps refining the abstract server |
| RomServer.VolatileHistory | src/projects/helixos/servers/romfsd.c:286-361 | after any run the word is readable exactly when an open has not been closed, and then holds the last value written since the latest open, else the initial word |
| RomServer.RomRequestsSucceed | src/projects/helixos/servers/romfsd.c:279-341 | once the start-up check has passed, a well-formed ROM open or read succeeds at any point of any run, always with the same magic word, and changes nothing |
| RomServer.StatePathNeedsZeroFill | src/projects/helixos/servers/romfsd.c:302-317 | of all buffers that spell the volatile path only the zero-filled one opens it; any other filler is answered with ENOENT |
| RomServer.FileByPackedPath | src/projects/helixos/servers/romfsd.c:178-210 | returns exactly the table entry the three request words decode to, by first match, and none for a length outside 1 to 16 |
| RomServer.PackedPathDecoded | src/projects/helixos/servers/romfsd.c:178-210 | for the packed words of any sixteen-byte buffer the decoder's answer is the table entry whose pathname the buffer starts with, whatever the other bytes are |
| RomServer.UnpackPacked | src/projects/helixos/servers/romfsd.c:186-203 | shifting characters out of the two packed words gives back the buffer they were packed from |
| RomServer.EntryPayloadWord | src/projects/helixos/servers/romfsd.c:223-238 | one to eight bytes have a payload word, the big-endian number of the data; other lengths have none |
| RomServer.BigEndianInjective | src/projects/helixos/servers/romfsd.c:223-238 | for data of one length the payload word determines the data |
| RomServer.OneEntry | src/projects/helixos/servers/romfsd.c:178-221 | the table holds each pathname once: the search's answer is the only entry of that name |
| RomProtocol.WordRead | src/projects/helixos/servers/romfsd.c:323-328 | for every run of messages and a read of the word given by its message words: the reply is [0, 8, v] exactly if v is the last word written since the latest open, the initial word if none was, and [9, 0] exactly if no open is outstanding |
| RomProtocol.WordChanged | src/projects/helixos/servers/romfsd.c:286-361 | by message words: what opens, writes and closes answer while an open is outstanding and while none is, and that a write leaves the word it carries |
| RomProtocol.EverythingElse | src/projects/helixos/servers/romfsd.c:270-370 | once the start-up check has passed, every other message is answered by one table of words, without history, and leaves the word alone |
| RomProtocol.TableFilesAnswer | src/projects/helixos/include/selinos_romfs_protocol.h:26-48 | with a checked archive: the descriptors, lengths, magic words and error codes of the protocol as numbers |
| RomProtocol.PathAnswer | src/projects/helixos/servers/romfsd.c:178-221 | a path opens the file whose name it is, character by character, and any other path is answered with ENOENT |
| ElfParser.ParseImage | src/projects/helixos/elfrt/src/selinos_elfrt.c:120-268 | for every byte string the status is the declarative one, and on success the summary describes the image in full: counts, interpreter, flags and needed names |
| ElfFacts.AcceptedIffWellFormed | src/projects/helixos/elfrt/src/selinos_elfrt.c:120-268 | the ordered checks accept exactly the well-formed images, a predicate without any order of checking |
| ElfFacts.TranslationInFile | src/projects/helixos/elfrt/src/selinos_elfrt.c:99-118 | through accepted headers an address translates without wrap to the first covering segment's place, and offset plus available bytes stay in the file |
| ElfFacts.StringTableInFile | src/projects/helixos/elfrt/src/selinos_elfrt.c:251-258 | so the last range check of the string table can never be the one that fails |
| ElfFacts.PolicyMeaning | src/projects/helixos/elfrt/src/selinos_elfrt.c:270-280 | the two summary fields are zero exactly when no loadable segment is both writable and executable and no text relocation marker precedes the first null entry |
| ElfFacts.ValidateInitialLoadPolicy | src/projects/helixos/elfrt/src/selinos_elfrt.c:270-280 | given the summary of an accepted image the verdict is about the image: passed exactly if it is safe to load; a missing summary and nothing else is an argument error |
| ElfLayout.EhdrPrinted | src/projects/helixos/elfrt/src/selinos_elfrt.c:25-40 | a file header printed field by field in the order of the C struct, each least significant byte first, stands in an image exactly if it is what the parser reads |
| ElfLayout.PhdrPrinted | src/projects/helixos/elfrt/src/selinos_elfrt.c:42-51 | the same for a program header, with the physical address between address and file size |
| ElfLayout.DynPrinted | src/projects/helixos/elfrt/src/selinos_elfrt.c:53-59 | the same for a dynamic entry |
| ElfLayout.HeaderDecides | src/projects/helixos/elfrt/src/selinos_elfrt.c:137-161 | every image of 64 bytes starts with some printed header, whose fields alone give the verdict and its order, in numbers |
| ElfLayout.TableRead | src/projects/helixos/elfrt/src/selinos_elfrt.c:162-168 | the parser's program headers are a list exactly if that list is printed, one every 56 bytes, where the file header says |
| ElfLayout.EntriesRead | src/projects/helixos/elfrt/src/selinos_elfrt.c:212-217 | the same for the entries of a dynamic segment, one every 16 bytes |
| ElfLayout.PrintedVerdict | src/projects/helixos/elfrt/src/selinos_elfrt.c:120-268 | the verdict on any printed table: accepted exactly if each header is sound in numbers, one to eight segments load, at most one table and one interpreter exist, and the entries are sound |
| ElfExample.Accepted | src/projects/helixos/elfrt/src/selinos_elfrt.c:120-268 | an image given byte by byte, with zero-filled memory behind its segment, a dynamic table and a needed library, is accepted |
| ElfExample.Described | src/projects/helixos/elfrt/src/selinos_elfrt.c:120-268 | and every field of its summary, down to the name of the library |
| ElfLaws.LoadMeans | src/projects/helixos/elfrt/src/selinos_elfrt.c:169-176 | a segment loads exactly if it does not shrink in memory, ends in the file, and its alignment above one is a power of two modulo which address and offset agree |
| ElfLaws.VerdictMeans | src/projects/helixos/elfrt/src/selinos_elfrt.c:168-207 | which kind of header gives which error, given the kinds of those before it |
| ElfLaws.FirstVerdict | src/projects/helixos/elfrt/src/selinos_elfrt.c:167-208 | the header pass ends with the verdict of the first header that is not fine |
| ElfLaws.DynamicCodes | src/projects/helixos/elfrt/src/selinos_elfrt.c:212-267 | the dynamic pass: more than eight libraries are a matter of policy; it accepts exactly if there is a null and, when libraries are named, both string entries are there, the table lies in the file and each name ends inside it within 96 bytes |
| ElfLaws.PartsInOrder | src/projects/helixos/elfrt/src/selinos_elfrt.c:120-268 | in which order file header, program headers and dynamic table decide |
| ElfLaws.EntryMeans | src/projects/helixos/elfrt/src/selinos_elfrt.c:223-240 | the tags of needed libraries, relocations and text relocations as numbers |
| ElfLaws.LastValueMeans | src/projects/helixos/elfrt/src/selinos_elfrt.c:224-227 | a tag's value is the one of its last entry before the null, zero without one |
| ElfLaws.NeededInOrder | src/projects/helixos/elfrt/src/selinos_elfrt.c:228-232 | the libraries of two tables one after the other are those of the first and then those of the second |
| ElfLaws.SummaryMeans | src/projects/helixos/elfrt/src/selinos_elfrt.c:181-207 | the summary's counters are the numbers of headers of their kind and flags, in numbers |
| ElfParser.AlignmentTest | src/projects/helixos/elfrt/src/selinos_elfrt.c:172-174 | masking the wrapped difference with align - 1 is congruence of the two integers modulo a power of two |
| ElfParser.CopyBoundedString | src/projects/helixos/elfrt/src/selinos_elfrt.c:80-97 | copies a NUL-terminated string shorter than the buffer together with its NUL, changes no byte behind that NUL or outside the buffer, and fails exactly when there is no such string |
| ElfParser.VirtualToFileOffset | src/projects/helixos/elfrt/src/selinos_elfrt.c:99-118 | the loop's answer is the translation through the first segment that covers the address |
| ElfParser.ScanProgramHeaders | src/projects/helixos/elfrt/src/selinos_elfrt.c:167-208 | the header pass stops with the first header's verdict that is not acceptance, and otherwise counts what the headers say |
| ElfParser.ScanHeader | src/projects/helixos/elfrt/src/selinos_elfrt.c:168-207 | one header: its verdict given the headers before it, and the counters one header further |
| ElfParser.ReadInterpreter | src/projects/helixos/elfrt/src/selinos_elfrt.c:193-195 | the interpreter buffer holds the NUL-terminated name exactly when the segment has one |
| ElfParser.CheckLoad | src/projects/helixos/elfrt/src/selinos_elfrt.c:169-176 | accepts exactly a loadable segment that lies in the file, does not shrink in memory and is aligned |
| ElfParser.ScanDynamic | src/projects/helixos/elfrt/src/selinos_elfrt.c:216-243 | the dynamic pass up to the first null: last string table values, needed offsets in order, flags; it fails on the ninth name or without a null |
| ElfParser.CopyNames | src/projects/helixos/elfrt/src/selinos_elfrt.c:259-266 | the needed rows hold the strings at their offsets in the table, in order, or the first bad offset fails the pass |
| ElfParser.ParseDynamic | src/projects/helixos/elfrt/src/selinos_elfrt.c:212-267 | from the dynamic segment to the names: status and summary as the format prescribes |
| ElfParser.CheckHeader | src/projects/helixos/elfrt/src/selinos_elfrt.c:137-161 | the file header's verdict, every test in the source's order |
| PciConfig.ConfigAddressDecodes | src/projects/helixos/src/selinos_pci.c:97-102 | the parts of a configuration address never overlap, so it names exactly one device, function and dword |
| PciConfig.DwordOffset | src/projects/helixos/src/selinos_pci.c:100-101 | only the dword inside the 256-byte space survives the mask: offset 0x100 comes out as offset zero |
| PciConfig.ConfigPort.ReadDword | src/projects/helixos/src/selinos_pci.c:104-119 | succeeds exactly if both of its requests are granted, with the dword at the offset, little-endian |
| PciConfig.ConfigPort.ReadWord | src/projects/helixos/src/selinos_pci.c:132-148 | succeeds exactly if both of its requests are granted, with the 16-bit half of that dword |
| PciConfig.ConfigPort.ReadByte | src/projects/helixos/src/selinos_pci.c:490-501 | succeeds exactly if both of its requests are granted, with the byte at the offset |
| PciCapabilities.FirstMatchIsNear | src/projects/helixos/src/selinos_pci.c:547-584 | by pigeonhole the first match of any list, cyclic ones included, is among its first 45 links |
| PciCapabilities.NoPointerTwice | src/projects/helixos/src/selinos_pci.c:547-584 | before the first match no pointer comes twice |
| PciCapabilities.Walk | src/projects/helixos/src/selinos_pci.c:547-584 | the 48-step walk returns only reachable capabilities; without port failures it returns the first match of the whole list, or there is none |
| PciCapabilities.Inspect | src/projects/helixos/src/selinos_pci.c:503-588 | the whole inspection, common or notify, on the first virtio block device: the first match of its list if every request made is granted, never wrong otherwise, the port slot always given back |
| PciCapabilities.FindBlk | src/projects/helixos/src/selinos_pci.c:503-546 | the scan stops at the first modern virtio block device |
| PciCapabilities.ReadCapability | src/projects/helixos/src/selinos_pci.c:641-671 | one link of the walk: the capability there if it is the wanted one and could be read |
| PciCapabilities.MultiplierSource | src/projects/helixos/src/selinos_pci.c:655-656 | the multiplier is the dword sixteen bytes behind the capability, inside the space exactly when the capability is not at 0xf0; at 0xf0 it is the dword at offset zero, for a block device 0x10421af4 |
| PciLaws.CapabilityBytes | src/projects/helixos/src/selinos_pci.c:641-671 | a capability is accepted exactly by these bytes, with offset and length the dwords eight and twelve bytes behind the link |
| PciLaws.ListBytes | src/projects/helixos/src/selinos_pci.c:547-584 | the device's identity, the list bit, the header type and the links as bytes of the space |
| PciBar.ValidateRange32 | src/projects/helixos/src/selinos_pci.c:706-823 | a restoring transaction, exact for every pattern of refused requests: the answer, the BAR (the probe stays exactly if it was written, not written back, and the clean-up write is refused), the command register (restored exactly if the last request goes through), and decoding off whenever the BAR holds anything else unless both happen; so the registers are restored if the clean-up writes go through |
| PciBar.ValidateRange64 | src/projects/helixos/src/selinos_pci.c:878-1019 | the same over a BAR pair, each half on its own, the high one written back first |
| PciBar.ReadE1000Range | src/projects/helixos/src/selinos_pci.c:1061-1172 | the same for the e1000 reader, which verifies its clean-up: it succeeds exactly if the command write and its read-back go through as well, and then the registers are restored |
| PciBar.Transact32 | src/projects/helixos/src/selinos_pci.c:755-820 | from the quiescing write to the last clean-up write, with the requests counted from there |
| PciBar.Probe64 | src/projects/helixos/src/selinos_pci.c:940-967 | how many of the eight accesses go through decides what is in each half |
| PciBar.SetBar | src/projects/helixos/src/selinos_pci.c:761-765 | a BAR write while decoding is off keeps the transaction quiet; what it leaves when it goes through and when not |
| PciBar.SetCommand | src/projects/helixos/src/selinos_pci.c:816-820 | the command write that opens or closes a transaction, with the same bookkeeping |
| PciBar.Probe32 | src/projects/helixos/src/selinos_pci.c:761-801 | the sizing probe touches one BAR, keeps decoding off throughout, and announces the wired size |
| PciBar.Range32Exact | src/projects/helixos/src/selinos_pci.c:776-809 | the arithmetic accepts exactly when the BAR announces a size, the window fits and the feature words stay in one page; then the range is sane |
| PciBar.Range64Exact | src/projects/helixos/src/selinos_pci.c:969-1001 | the same for 64 bits, where in addition the address must not wrap |
| PciBar.SizeMeaning | src/projects/helixos/src/selinos_pci.c:776-788 | an announced size is a power of two from 16 to 2^32 and complements the mask |
| PciBar.Size64Meaning | src/projects/helixos/src/selinos_pci.c:969-978 | a 64-bit size is a power of two and complements the mask |
| PciLaws.E1000Exact | src/projects/helixos/src/selinos_pci.c:1133-1150 | the e1000 reader accepts exactly if a size is announced and fits below 2^32, with the masked address and that size |
| PciLaws.Size32Exact | src/projects/helixos/src/selinos_pci.c:776-788 | a 32-bit response announces a size exactly if it is a memory BAR whose complement is a power of two |
| PciLaws.Size64Exact | src/projects/helixos/src/selinos_pci.c:969-978 | the same for a 64-bit response |
| PciLaws.BarTypes | src/projects/helixos/src/selinos_pci.c:735-750 | the types of BARs as remainders of their value |
| PciLaws.QuiescedBits | src/projects/helixos/src/selinos_pci.c:752-760 | quiescing clears bits 1 and 2 of the command and nothing else |
| PciBar.ProbeAnnouncesSize | src/projects/helixos/src/selinos_pci.c:316-332 | a memory BAR of size 2^k answers the all-ones probe with 2^k |
| PciBar.QuiescedDecodeOff | src/projects/helixos/src/selinos_pci.c:752-760 | the quiesced command turns memory decoding and mastering off whatever else is wired |
| PciAllocator.AssignBar32 | src/projects/helixos/src/selinos_pci.c:250-379 | exact for every pattern of refused requests: the answer; the BAR after a failed call (the probe if the sizing was interrupted, the placement if that was written, did not read back and its clean-up write is refused, otherwise the entry value); the command register restored exactly if the last request goes through; with every request granted the answer is the assignment function's |
| PciAllocator.ProbeLeftBehind | src/projects/helixos/src/selinos_pci.c:316-322 | that case at work: from a function with decoding on, one refused sizing read and nothing else refused, the call fails with the probe value in the BAR and memory decoding on |
| PciAllocator.SizeBar | src/projects/helixos/src/selinos_pci.c:316-322 | which of the three accesses go through decides what is in the BAR |
| PciAllocator.AssignmentLaw | src/projects/helixos/src/selinos_pci.c:324-364 | for every memory BAR of size 2^4 to 2^31 and every window a non-prefetchable BAR gets the least aligned block, failure means that no aligned block fits, and a prefetchable BAR is refused always |
| PciAllocator.FirmwareBarKept | src/projects/helixos/src/selinos_pci.c:303-314 | a BAR that firmware programmed, any value from 16 to 0xffffffef, is refused and never written, whatever requests go through; the next request is the one that restores the command |
| PciAllocator.UnassignedMeans | src/projects/helixos/src/selinos_pci.c:303-314 | the BARs that may be assigned are those whose address part is zero or all ones, as numbers |
| PciAllocator.PlacementLeast | src/projects/helixos/src/selinos_pci.c:337-350 | the placement is the least aligned block not below the window's start, refused exactly when it does not fit |
| PciAllocator.ReadBack | src/projects/helixos/src/selinos_pci.c:352-358 | the programmed address reads back exactly when no attribute bit is wired |
| VirtioRange.CommonContained | src/projects/helixos/src/selinos_pci.c:687-704 | a sane common range is the capability's window inside its BAR, without wrap, and both feature words lie in the mapped page |
| PciLaws.CommonSaneExact | src/projects/helixos/src/selinos_pci.c:687-704 | sanity of a common range in integers, without masks or wrap-around |
| PciLaws.NotifySaneExact | src/projects/helixos/src/selinos_pci.c:1880-1893 | the same for a notify range |
| VirtioRange.SaneButOutOfPage | src/projects/helixos/src/selinos_pci.c:687-704 | a sane range whose status byte lies on the next page: sanity alone does not confine the stages |
| VirtioRange.NotifyAccepted | src/projects/helixos/src/selinos_pci.c:1895-1926 | the validator accepts exactly the well-formed capabilities of the same function and BAR whose window lies in the BAR; its closing test never rejects |
| VirtioRange.NotifyContained | src/projects/helixos/src/selinos_pci.c:1880-1893 | a sane notify range lies in its BAR without wrap |
| VirtioRange.NotificationAccepted | src/projects/helixos/src/selinos_pci.c:2006-2024 | an address is accepted exactly when its two bytes lie inside the notify capability and below 2^64; the product cannot overflow |
| VirtioRange.NotificationPageContained | src/projects/helixos/src/selinos_pci.c:2243-2258 | an accepted page is the address's own, holds both bytes and lies wholly inside the capability |
| VirtioNotify.ValidateCommonRange | src/projects/helixos/src/selinos_pci.c:1021-1058 | the BAR's type chooses the transaction; an answer is the arithmetic's, and is given, with the registers restored, when every request goes through |
| VirtioNotify.ValidateNotifyRange | src/projects/helixos/src/selinos_pci.c:1895-1926 | end to end, from the configuration space over the BAR registers: an answer follows from a common capability reachable on a block device's list, and with every request granted it is the answer for the first of these and all registers are as before |
| VirtioNotify.NotifyBySane | src/projects/helixos/src/selinos_pci.c:1911-1925 | an answered notify range is the capability's window inside its BAR, without wrap |
| VirtioStages.ObserveFeatures | src/projects/helixos/src/selinos_pci.c:825-876 | two reads of the declared page and nothing else, exactly if the range is sane and the page granted; everything acquired is given back |
| VirtioStages.DriverReadyReset | src/projects/helixos/src/selinos_pci.c:1221-1301 | the log is the script replayed against the device's answers, plus one reset on failure; success exactly when every read-back passes; the registers are touched exactly if frame, range and mapping are granted; the page is left exactly if pageOffset + 0x15 exceeds it; all resources back |
| VirtioStages.ZeroFeatures | src/projects/helixos/src/selinos_pci.c:1303-1385 | the same for the script up to FEATURES_OK; DRIVER_OK is not in it |
| VirtioStages.ObserveQueueZero | src/projects/helixos/src/selinos_pci.c:1413-1503 | the same with queue zero selected; the page is left exactly if the accesses made, up to 0x1a once the climb is answered, do not fit; success returns the non-zero size the device answered |
| VirtioStages.ObserveNotification | src/projects/helixos/src/selinos_pci.c:1928-2046 | the same with the notification offset, reaching 0x20; success returns base plus offset times multiplier, inside the capability |
| VirtioStages.BringUp | src/projects/helixos/src/selinos_pci.c:1259-1281 | reset, ACKNOWLEDGE, DRIVER, FEATURES_OK, DRIVER_OK, stopping at the first value that does not read back |
| VirtioStages.Finish | src/projects/helixos/src/selinos_pci.c:1287-1300 | the common clean-up: a last reset unless successful, then exactly what was obtained is released |
| VirtioStages.MapCommon | src/projects/helixos/src/selinos_pci.c:1245-1256 | a fresh triple of frame, reservation and mapping on the given page; mapped exactly if all three requests are granted |
| VirtioPlatform.Platform.ReleaseTriple | src/projects/helixos/src/selinos_pci.c:1291-1299 | mapping, reservation and frame released once each, in the order in which each is no longer used |
| VirtioScript.Advance | src/projects/helixos/src/selinos_pci.c:1259-1285 | one more block of writes, reads and test extends a log that follows its script |
| VirtioScript.AnswersDetermined | src/projects/helixos/src/selinos_pci.c:1259-1285 | a log determines the answers it was replayed against, even among scripts that differ in what they write |
| VirtioScript.LogDecides | src/projects/helixos/src/selinos_pci.c:1259-1300 | the log of a finished stage decides whether it succeeded and what the device answered |
| VirtioScript.StageLogsDecide | src/projects/helixos/src/selinos_pci.c:1221-2046 | so for each stage over one mapping |
| VirtioLaws.DriverOkLast | src/projects/helixos/src/selinos_pci.c:1273-1281 | DRIVER_OK is written only right after a status with FEATURES_OK was read back |
| VirtioLaws.StagesClimbFirst | src/projects/helixos/src/selinos_pci.c:1221-2046 | this holds for every stage that writes DRIVER_OK |
| VirtioLaws.NoDriverOk | src/projects/helixos/src/selinos_pci.c:1303-1385 | the zero-feature stage never writes it |
| VirtioLaws.StageNumbers | src/projects/helixos/src/selinos_pci.c:1221-2046 | the scripts of the stages over one mapping with their registers and values as numbers |
| VirtioQueue.NotifyZeroDescriptor | src/projects/helixos/src/selinos_pci.c:2048-2328 | for every platform and device: all three triples released; the registers reached exactly if the common page and the layout page are granted and the layout page reads as zero, and one write through address zero exactly if only the common page is; then the log is the script's, stopping only at a refused read-back, a missing or ungranted notification page or a dirty layout page, with the addresses of the layout frame and the notification's own address; the page left exactly if the accesses made do not fit |
| VirtioQueue.QueueLogDecides | src/projects/helixos/src/selinos_pci.c:2048-2328 | the log decides the outcome and the answers of this stage too |
| VirtioLaws.NotifiedNumbers | src/projects/helixos/src/selinos_pci.c:2218-2291 | at the one notification size one, the addresses frame, frame + 16 and frame + 24 (low half at 0x20, 0x28, 0x30, high half four behind) and the enable bit have been read back, as numbers |
| VirtioLaws.AddressesWritten | src/projects/helixos/src/selinos_pci.c:2223-2228 | the six address writes: low halves below 2^32 that make up the addresses with the high ones, register by register |
| VirtioLaws.HalvesMakeAddress | src/projects/helixos/src/selinos_pci.c:2223-2228 | a low half below 2^32 and a high half make up the address |
| VirtioLaws.SuccessNotifies | src/projects/helixos/src/selinos_pci.c:2196-2291 | a successful stage found an existing, disabled queue and notified at the capability's base plus the device's offset times the multiplier |
| VirtioLaws.QueueNumbers | src/projects/helixos/src/selinos_pci.c:2162-2291 | the queue stage's script with its registers, values and tests as numbers |
| VirtioLaws.ReachNumbers | src/projects/helixos/src/selinos_pci.c:2162-2291 | how far into the registers each stage's accesses reach, by the blocks it got through, in bytes |
| VirtioQueue.LayoutRefused | src/projects/helixos/src/selinos_pci.c:2130-2139 | the write through address zero at work: on any platform that refuses only the mapping of the layout page the stage fails with that one write and no access to the device |
| VirtioQueue.Ring | src/projects/helixos/src/selinos_pci.c:2274-2291 | one notification at the target, then the reset and its two read-backs |
| VirtioQueue.RunQueue | src/projects/helixos/src/selinos_pci.c:2162-2291 | from reset to reset: the notification written at most once, at the address the device's offset gives, after size, addresses and enable were read back; success reads status and enable back as zero |
| VirtioQueue.MapNotification | src/projects/helixos/src/selinos_pci.c:2243-2274 | maps exactly the page of base plus offset times multiplier, exactly if it lies wholly inside the capability and is granted |
| VirtioQueue.ProgramQueue | src/projects/helixos/src/selinos_pci.c:2218-2236 | queue size and the three address pairs written, then read back in order, stopping at the first difference |
| VirtioQueue.CheckPair | src/projects/helixos/src/selinos_pci.c:2229-2236 | two halves of one address read back, stopping at the first that differs |
| VirtioQueue.PreparePages | src/projects/helixos/src/selinos_pci.c:2105-2140 | both frames, then both mappings, each exactly as granted; it keeps what it has at the first failure, which can leave the common page mapped alone |
| VirtioQueue.CheckQueue | src/projects/helixos/src/selinos_pci.c:2196-2207 | queue zero selected and the four registers read; accepted exactly when it exists and is disabled |
| VirtioQueue.SetRegister | src/projects/helixos/src/selinos_pci.c:2218-2222 | a register written and accepted exactly when it reads back |
| VirtioQueue.ResetQueue | src/projects/helixos/src/selinos_pci.c:2286-2291 | the last reset; success exactly when status and enable both read zero |
| VirtioQueue.TakeDown | src/projects/helixos/src/selinos_pci.c:2297-2327 | the three triples released leave the books as they were before the stage |
| VirtioQueue.LayoutNeverRefused | src/projects/helixos/src/selinos_pci.c:2209-2217 | the four layout tests refuse no frame address that passed the first test, not even at the top of the address space |
| VirtioQueue.StillNotifiedOnce | src/projects/helixos/src/selinos_pci.c:2274-2291 | later accesses that are no notifications keep the notification unique |
| RootConstruct.Root.Dispatch | src/projects/helixos/src/root_construct_m1.c:144-187 | one turn of the loop: new state and reply are those of the abstract root, and a recorded child exists exactly when constructed |
| RootConstruct.Root.ConstructChild | src/projects/helixos/src/root_construct_m1.c:43-83 | succeeds exactly when every step does; what it records otherwise |
| RootConstruct.Root.TryDispatchLease | src/projects/helixos/src/root_construct_m2.c:39-69 | takes exactly the messages whose first word is the lease word, grants the recorded capability once |
| RootConstruct.Root.RecordChildTcb | src/projects/helixos/src/root_construct_m2.c:29-37 | records one non-null capability, once, before any grant |
| RootConstruct.Root.PrepareTaskd | src/projects/helixos/src/root_construct_m4.c:19-34 | succeeds once; the endpoint flag survives a wrong slot |
| RootConstruct.Root.PrepareChild | src/projects/helixos/src/root_construct_m4.c:36-50 | succeeds once, after the client was prepared |
| RootConstruct.Root.StartBundle | src/projects/helixos/src/root_construct_m1.c:85-142 | succeeds exactly when the bundle was not started, the client was not prepared and every step succeeds; a failed first call can be repeated only if it failed before the client was prepared |
| RootConstruct.Absorbing | src/projects/helixos/src/root_construct_m1.c:144-187 | in every run constructed and rejected are absorbing, and a grant is not taken back |
| RootConstruct.OneAttempt | src/projects/helixos/src/root_construct_m1.c:165-187 | in every run of messages there is at most one construction attempt |
| RootConstruct.OneGrant | src/projects/helixos/src/root_construct_m2.c:39-69 | in every run at most one reply carries a capability; it is the one the earlier successful construction named |
| RootConstruct.ConstructedWhen | src/projects/helixos/src/root_construct_m1.c:173-186 | a constructed child was constructed by one earlier turn, whose outcome named it |
| RootProtocol.FailsClosed | src/projects/helixos/src/root_construct_m1.c:164-171 | a settled root that gets a non-lease message with any word not exact answers with the rejection and is rejected afterwards, unless it is already constructed |
| RootProtocol.RequestDecides | src/projects/helixos/src/root_construct_m1.c:173-186 | the exact request, word by word: what a free root answers and records for each outcome, and that no other state reacts |
| RootProtocol.LeaseDecides | src/projects/helixos/src/root_construct_m2.c:39-69 | a lease message by its words: granted once, with the child's capability, after a construction |
| RootProtocol.FirstMessageDecides | src/projects/helixos/src/root_construct_m1.c:144-187 | over runs: the construction is attempted at a turn exactly if it carries the exact request and every earlier message was for the lease, so the first other message decides |
| RootProtocol.FirstLeaseDecides | src/projects/helixos/src/root_construct_m2.c:39-69 | over runs: a capability is given at a turn exactly if it is the first exact lease after the turn that built the child |
| RootSystem.EveryRun | src/projects/helixos/servers/taskd_root_construct_m4_client.c:64-95 | in every interleaving a finished run tells one of three stories; with resumes accepted it is the full success story exactly if the one construction succeeded |
| RootSystem.RunsEnd | src/projects/helixos/servers/taskd_root_construct_m4_client.c:64-95 | every interleaving has at most sixteen steps, never deadlocks before its end, and a validated run has exactly sixteen |
| RootSystem.AlwaysSafe | src/projects/helixos/drivers/root_construct_m4_completion_child.c:6-19 | at every moment of every run: no event twice, the capability delivered only by the one grant, the child run only after that capability resumed it |
| RootSystem.StepKeeps | src/projects/helixos/servers/taskd_root_construct_m4_client.c:11-62 | every step of root, client or child keeps the system invariant |
| RootSystem.ServeKeeps | src/projects/helixos/src/root_construct_m1.c:144-187 | root's turn keeps it, and decides between the stories at the first call |
| RootSystem.StepProgresses | src/projects/helixos/servers/taskd_root_construct_m4_client.c:64-95 | every step uses up part of a measure, exactly one unit unless the client gives up |
| RootSystem.StuckIffFinished | src/projects/helixos/servers/taskd_root_construct_m4_client.c:70-95 | nothing is enabled exactly when the client has parked or validated and root is back at its endpoint |
| RootSystem.Afterwards | src/projects/helixos/servers/taskd_root_construct_m4_client.c:76-89 | after the construction the client gives up exactly when a resume is refused |
| RootSystem.ClientProcess.Run | src/projects/helixos/servers/taskd_root_construct_m4_client.c:64-95 | whatever a kernel answers, the client's code follows the client of the step system to one of its two ends |
| RootSystem.ValidatedExactly | src/projects/helixos/servers/taskd_root_construct_m4_client.c:64-95 | the client validates exactly after four expected answers, one accepted resume of slot 10 and one exact completion |
| RootSystem.Execute | src/projects/helixos/src/root_construct_m1.c:144-187 | root's code takes exactly root's part in any schedule of the step system |
| RootProtocol.ClientWords | src/projects/helixos/servers/taskd_root_construct_m4_client.c:11-62 | the client's requests, the answers it accepts, the completion and the slots, as numbers |
| RootProtocol.SuccessWords | src/projects/helixos/servers/taskd_root_construct_m4_client.c:64-95 | the three stories told in words and slots |
| UserCopy.TestsAreDivision | src/projects/helixos/src/domain_manager.c:200-206 | the non-wrapping sum and the two masks say exactly that the bytes end below the top and divide to one page |
| UserCopy.TestsExact | src/projects/helixos/src/domain_manager.c:213-228 | with the page lookup the tests are exactly: one mapped page holds all the bytes |
| UserCopy.Probe.HasWordPage | src/projects/helixos/src/domain_manager.c:197-207 | true exactly for a non-null address whose eight bytes lie in one mapped page below the top |
| UserCopy.Probe.WriteBuffer | src/projects/helixos/src/domain_manager.c:209-240 | copies exactly the user's bytes and a NUL, or leaves the buffer alone; the duplicate mapping is always undone |
| UserCopy.Probe.BytesToUser | src/projects/helixos/src/domain_manager.c:246-276 | changes exactly the requested bytes as seen at every address, or nothing |
| UserCopy.Probe.ExactString | src/projects/helixos/src/domain_manager.c:278-302 | true exactly when a literal of at most 126 bytes and its NUL stand at the address in one mapped page and the duplicate was granted |
| UserCopy.Probe.WordToUser | src/projects/helixos/src/domain_manager.c:304-330 | exactly eight bytes change, and they read back as the word |
| UserCopy.OneStringAt | src/projects/helixos/src/domain_manager.c:278-302 | no address holds two different literals |
| Bits.WordReadsBack | src/projects/helixos/src/domain_manager.c:326-327 | the stored bytes read back as the word |
| ObjectWindow.NormaliseDisplacements | tools/verify_m15_probe_object_window.py:44-53 | the in-place scan computes the recursive normal form |
| ObjectWindow.NormalAt | tools/verify_m15_probe_object_window.py:44-53 | blanking keeps the length, zeroes exactly the displacements of the jumps found, and keeps every other byte |
| ObjectWindow.NormalKeepsJumps | tools/verify_m15_probe_object_window.py:44-53 | blanking does not move the jumps a scan finds |
| ObjectWindow.Idempotent | tools/verify_m15_probe_object_window.py:44-53 | blanking twice is blanking once |
| ObjectWindow.SameNormal | tools/verify_m15_probe_object_window.py:44-53 | two texts agree after blanking exactly when they have the same jumps and differ only in displacements |
| ObjectWindow.JumpsExact | tools/verify_m15_probe_object_window.py:44-53 | the jumps are exactly the positions of bytes 0f 80 to 0f 8f with four more behind, save those inside an earlier jump |
| ObjectWindow.ReplacedExactly | tools/verify_m15_probe_object_window.py:56-60 | for every searched string: the replacement succeeds exactly when some occurrence is the first and no other begins at or behind its end, and replaces it there |
| ObjectWindow.OnceIsOnly | tools/verify_m15_probe_object_window.py:16-20 | for a string that cannot overlap itself, as the declared setup, that is the only occurrence at all |
| ObjectWindow.GuardPasses | tools/verify_m15_probe_object_window.py:69-81 | the guard passes exactly when the baseline has the setup at one place and the candidate is it with the declared window put there, both up to displacements |

## Left out

- The queue layout and queue enable stages (lines 1505-1878 of selinos_pci.c): their accesses and clean-up are a prefix of the notification stage's, with the same early mapping flag.
- The bytes of the queue layout page: reads of its flags and indices before and after the notification are arbitrary, and a non-zero one is one more request that is not granted.
- Observation structures that a stage fills before it fails; results are promised for success.
- ParseImage: on an error status nothing is promised about the summary, because callers are to ignore it.
- ValidateRange32: register values that a write would not leave unchanged (reserved bits with a memory of their own) are outside the register model.
- AssignBar32: the trace of decoding states is promised for calls that fail with the BAR as before; for others the final registers are.
- ValidateCommonRange: after refused requests the registers are those of the transaction it runs, and are promised there.
- ValidateNotifyRange: the configuration space is read as it is at the start; writes to BARs during the transaction are not reflected in its bytes.
- Root.StartBundle: the null tests on the allocator and the address space are folded into the outcome of the configuration step.
- WordToUser: the store is byte by byte, least significant first, as on x86; the alignment of the address is not modelled.
- Serving and construction inside root take one step of the system: nobody else can act on them in between, since the only caller is blocked and the child is suspended.
- The capability a reply carries arrives if the call named a free slot; other reasons for the kernel to drop it are not modelled.
- Rendering the archive as C source text, writing the file, and the tool's printed messages.
- Byte order across the write and read system calls: words are folded big-endian and stored natively, so bytes do not come back in order.
- The edu enumeration, the scans that only report a device identity, and the wrapper that assigns the network BAR: linear scans around parts that are modelled.
- Conformance to Virtio 1.1, section 3.1.1: queues are configured here after DRIVER_OK.
- Real MMIO, DMA, interrupt and IOMMU behaviour, seL4 library calls, boot wiring, process spawning, CSpace checks and debug strings.
- The KABI relocator and the KAPI runtime, the syscall probe script, and the evidence verifiers under tools/ other than the object window guard.
- Extracting the text section with objcopy, the guard's arguments and its messages.
