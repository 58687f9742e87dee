# Verified models of the firmware package's core logic

This project models seven self-contained pieces of the firmware package in Dafny and proves what
they promise. `dafny verify dfyconfig.toml` checks all of it.

| piece | modules |
|---|---|
| intrusive circular list (`list.h`) | `IntrusiveList`, `ListRuns` |
| Android boot and vendor boot images (`mkbootimg.py`) | `BootImage`, `BootReader`, `BootValues`, `ImageId`, `CommandLine`, `OsVersion`, `VendorTable`, `VendorBoot`, `VendorReader`, `VendorValues` |
| ELF header writer and reader (`elf_tools.py`) | `Elf`, `ElfRoundTrip`, `ElfValues` |
| TLS output buffering (`TlsProcess.c`) | `TlsBuffers`, `TlsProcess` |
| TLS configuration strings (`TlsConfig.c`) | `TlsCiphers`, `TlsSigAlgs` |
| front page menu and SMBIOS strings (`FrontPage.c`) | `Menu`, `Smbios` |
| memory map to MMU table and HOBs (`MemoryInitPeiLib.c`) | `MemoryMap` |

`Arith`, `Bits`, `Bytes`, `Struct`, `Pages`, `Files`, `Strings` and `Wrappers` hold what they share:
division facts, `&` and `|` on unbounded integers, little-endian integers, Python's `struct`,
page-aligned layout, open files, joining and splitting strings, and result types.

How to read the models:

- Code that changes things in place is a class or a method with a loop: list nodes on the heap,
  output files, the hash object, the ramdisk table builder, TLS connections with caller buffers and
  size cells, the character buffers of the string builders, the menu table and the MMU table. Each
  method is tied to a function of its inputs or of the old state, and the lemmas speak about that.
- An image is read back by an independent reader that follows the C structs of `BootImage.h`. It
  knows header fields and page rounding only. `BootValues`, `VendorValues` and `ElfValues` then state
  each value the reader finds from the arguments, by its place in the struct.
- `pack` raising `struct.error`, the `ValueError`s and the TLS and allocation failures are results,
  with the order of the source's checks. Integers are unbounded; 16-bit wrap-around, 32-bit casts,
  the `int` parameter behind them, `UINTN` overflow and the field widths of `pack` are written out.
- The TLS engine is an arbitrary function on an arbitrary state: it eats a prefix of the input BIO,
  appends to the output BIO and returns any result. SHA-1 is an arbitrary function of the bytes fed.

Where code and documentation differ, the model follows the code:

- The TLS functions promise to hand over the pending packet once the buffer is large enough. They
  cast its size to `UINT32` and pass it as `int`, so from 2^31 bytes on they report success with
  output left behind. `TlsBuffers.SuccessDrains` gives the exact condition and
  `TlsBuffers.HugeOutputStuck` a failing case; it needs a BIO that can hold that much, which the
  source leaves to OpenSSL.
- `TlsDoHandshake` and `TlsHandleAlert` ignore their input while output is pending, and queue only
  part of an input of 2^31 bytes or more, or none of it: `TlsBuffers.InputQueuedExactly`.
- `create_elf_header` cuts the payload size to the field. The program header names the payload
  exactly when its size fits: `ElfRoundTrip.SegmentIsPayload`.
- The version 4 header always records 4096 as the signature size, also for a shorter block. A reader
  that follows it gets the block with its padding, and nothing for an empty block.
- `BootImage.h` has no version 4 structs. The readers' extra words, the vendor header size 2128 and
  the 108-byte table record mirror the writer.
- `BootImage.h` draws the vendor boot header as one page. With 2048-byte pages it takes two, and the
  reader rounds the header size up.
- `CallFrontPage` opens the first unused row when it is asked for index 0xFFFF; the contract of
  `Menu.FindForm` covers that index like any other.

## Model

| member | source | states |
|---|---|---|
| IntrusiveList.ListInitialize | Platforms/QcomModulePkg/Include/Library/list.h:43-47 | the sentinel alone forms the empty ring |
| IntrusiveList.ListAddHead | Platforms/QcomModulePkg/Include/Library/list.h:64-73 | inserting behind any node of a ring, sentinel or entry, gives the ring with the item at that place; only the three named nodes change |
| IntrusiveList.ListAddTail | Platforms/QcomModulePkg/Include/Library/list.h:75-84 | the same in front of any node |
| IntrusiveList.ListDelete | Platforms/QcomModulePkg/Include/Library/list.h:93-99 | the ring closes over the item, whose links are cleared; only it and its neighbours change |
| IntrusiveList.ListRemoveHead | Platforms/QcomModulePkg/Include/Library/list.h:102-112 | takes the first item off and returns it cleared, NULL exactly for the empty ring |
| IntrusiveList.ListRemoveTail | Platforms/QcomModulePkg/Include/Library/list.h:125-135 | takes the last item off and returns it cleared, NULL exactly for the empty ring |
| IntrusiveList.EndsSeen | Platforms/QcomModulePkg/Include/Library/list.h:148-177 | peeking shows the two ends; list_is_empty (list.h:298-302) holds exactly when there are no items |
| IntrusiveList.NeighboursSeen | Platforms/QcomModulePkg/Include/Library/list.h:190-240 | next and prev step along the items and give NULL at the ends |
| IntrusiveList.WrapSeen | Platforms/QcomModulePkg/Include/Library/list.h:210-261 | the wrapping neighbours skip the sentinel and are never NULL for a linked item, a lone one included |
| IntrusiveList.NextWrapSteps | Platforms/QcomModulePkg/Include/Library/list.h:252-261 | k steps from item i reach item (i + k) mod n |
| IntrusiveList.WrapInverse | Platforms/QcomModulePkg/Include/Library/list.h:210-261 | list_prev_wrap undoes list_next_wrap |
| IntrusiveList.ListForEverySafe | Platforms/QcomModulePkg/Include/Library/list.h:278-282 | for any choice of nodes the body deletes: every original node is visited once in order, the ring holds the kept ones in order, the deleted ones are cleared, and it terminates |
| ListRuns.InListExactly | Platforms/QcomModulePkg/Include/Library/list.h:55-62 | in every reachable state list_in_list is true exactly for linked nodes |
| ListRuns.Run | Platforms/QcomModulePkg/Include/Library/list.h:64-135 | any run of the seven operations leaves the ring, and returns the items, that the same run gives on a plain sequence, and every unlinked node of the pool is cleared |
| Files.PadAmount | ImageResources/mkbootimg.py:85-87 | the double mask computes the distance to the next multiple of the page size |
| Files.WritePaddedFile | ImageResources/mkbootimg.py:352-356 | appends one section, whole, and pads it; an absent file changes nothing |
| Pages.ExtractAppendAll | ImageResources/mkbootimg.py:352-356 | cutting by sizes and page rounding inverts appending for any sections, and every section starts on a page boundary |
| ImageId.UpdateSha | ImageResources/mkbootimg.py:76-82 | feeds content and four-byte size and leaves the file rewound; fails exactly for sizes beyond 32 bits |
| ImageId.TranscriptInjective | ImageResources/mkbootimg.py:222-230 | with as many parts and equal streams, the parts are equal, absent counted as empty |
| BootReader.SameStreamSameParts | ImageResources/mkbootimg.py:185-232 | two accepted images of one version with equal hashed streams cover equal files |
| BootImage.WriteHeaderV3AndAbove | ImageResources/mkbootimg.py:107-130 | writes the padded header of versions 3 and 4, or raises exactly when a value does not fit |
| BootImage.WriteHeader | ImageResources/mkbootimg.py:185-264 | writes the header of any version, names the failure the source raises first, and leaves all files rewound |
| BootImage.AddBootImageSignature | ImageResources/mkbootimg.py:568-621 | appends the zero or signed block, refused when longer than 4096 bytes |
| BootImage.WriteData | ImageResources/mkbootimg.py:624-634 | appends the sections of the version in order |
| BootImage.WriteBootImage | ImageResources/mkbootimg.py:660-668 | the output is the whole image or the failure is the source's |
| BootReader.LegacySizes | Platforms/QcomModulePkg/Include/Library/BootImage.h:52-165 | the packed structs of versions 0 to 2 have the recorded header sizes and keep the version at byte 40 |
| BootReader.DtboOffsetIsReal | ImageResources/mkbootimg.py:95-104 | the page count formula equals the offset reached by rounding after each section |
| BootReader.HeaderIsOnePage | ImageResources/mkbootimg.py:97-97 | for every page size on offer the legacy header takes exactly one page |
| BootReader.RecordedOffsetIsReal | ImageResources/mkbootimg.py:237-246 | the recorded recovery DTBO offset is the output position at which that section is written, for all kernel, ramdisk and second sizes |
| BootReader.BootRoundTrip | ImageResources/mkbootimg.py:185-264 | for versions 0 to 4, any contents and every page size on offer, the loader recovers all header fields, kernel, ramdisk, second, recovery DTBO (through its recorded offset), DTB and the version 4 signature section (padded to its recorded size) byte for byte |
| BootValues.LegacyHeaderSays | ImageResources/mkbootimg.py:191-220 | read back from the image of any accepted run of versions 0 to 2, each value stands at its place of the struct: magic, sizes, load addresses (0 for an absent or empty ramdisk or second stage), tags address, page size, version, OS version word, board and command line |
| BootValues.FilesHashed | ImageResources/mkbootimg.py:222-230 | the id covers kernel, ramdisk and second, from version 1 the recovery DTBO and in version 2 the DTB, in this order |
| BootValues.IdSays | ImageResources/mkbootimg.py:232-235 | the image carries the digest of that stream in 32 bytes and the rest of the command line in 1024 |
| BootValues.ExtensionSays | ImageResources/mkbootimg.py:237-262 | the words of versions 1 and 2: recovery DTBO size and position by page rounding (0 without one), header size 1648 or 1660, DTB size and address |
| BootValues.V3HeaderSays | ImageResources/mkbootimg.py:107-130 | each value of the headers of versions 3 and 4, read back from the image, the reserved words zero |
| BootValues.SignatureSays | ImageResources/mkbootimg.py:568-621 | the version 4 signature section is 4096 zeros without a key, else the block filled up with zeros |
| BootValues.BootEndsExactly | ImageResources/mkbootimg.py:660-668 | from the arguments alone: which runs pass, and which failure ends each of the others |
| CommandLine.SplitRoundTrip | ImageResources/mkbootimg.py:559-563 | every accepted command line fits both fields with terminators, and joining the two C strings gives it back if and only if it holds no NUL |
| CommandLine.SplitExactly | ImageResources/mkbootimg.py:559-563 | the first field reads as the first 511 bytes, the second as the rest |
| OsVersion.FieldsRecovered | ImageResources/mkbootimg.py:363-389 | every version and patch level the parsers return, the default 0 included, is read back from its bits of the 32-bit word |
| VendorTable.VendorRamdiskTableBuilder.constructor | ImageResources/mkbootimg.py:303-306 | an empty table is consistent |
| VendorTable.VendorRamdiskTableBuilder.AddEntry | ImageResources/mkbootimg.py:308-333 | appends exactly one entry or raises; names stay distinct and never the banned one, offsets stay prefix sums, and a refused name stays taken as in the source |
| VendorTable.ParseVendorRamdiskArgs | ImageResources/mkbootimg.py:444-464 | passes exactly when every name is allowed and fresh, the board ids are 16 in range and each file exists, and else fails with the first request that cannot be met; the table is consistent and its entries carry path, size, type, name and board ids of the default ramdisk and the groups in order |
| VendorTable.AddEndsExactly | ImageResources/mkbootimg.py:308-330 | which exception add_entry raises, exactly, in its order of checks |
| VendorTable.DefaultEntrySays | ImageResources/mkbootimg.py:444-447 | the default ramdisk comes first, as platform ramdisk without a name and with 16 zero board ids |
| VendorTable.GroupEntrySays | ImageResources/mkbootimg.py:449-464 | each group's entry follows in order with the group's path, type, name and board ids, and its file's size |
| VendorTable.RamdiskAt | ImageResources/mkbootimg.py:335-339 | the slice an entry names in the concatenated ramdisks is its ramdisk |
| VendorBoot.WriteVendorBootHeader | ImageResources/mkbootimg.py:133-182 | writes the padded vendor header of version 3 or 4 or raises as the source does |
| VendorBoot.WriteEntriesPadded | ImageResources/mkbootimg.py:341-349 | appends all records, or raises exactly when some value does not fit |
| VendorBoot.WriteVendorBoot | ImageResources/mkbootimg.py:637-659 | the output is the whole vendor image or the failure is the source's |
| VendorReader.VendorHeaderSize | Platforms/QcomModulePkg/Include/Library/BootImage.h:271-294 | the version 3 vendor header struct has the recorded size 2112, and with the four words the writer adds in version 4 it has 2128 |
| VendorReader.VendorRoundTrip | ImageResources/mkbootimg.py:133-182 | the loader recovers all vendor header fields and every section, however many pages the header takes |
| VendorReader.EntryRead | ImageResources/mkbootimg.py:341-349 | cutting the table into 108-byte records gives back the entries |
| VendorReader.RamdiskRecovered | ImageResources/mkbootimg.py:335-349 | from any written version 4 vendor image, record k leads the loader to ramdisk k, whole, with its type, name and board id |
| VendorValues.VendorHeaderSays | ImageResources/mkbootimg.py:133-182 | each value of the vendor header, read back from the image, at its place of the struct |
| VendorValues.VendorSectionsSay | ImageResources/mkbootimg.py:637-643 | the sections cut out of the image are vendor ramdisk and DTB, or all ramdisks, DTB, table and bootconfig |
| VendorValues.RecordSays | ImageResources/mkbootimg.py:341-349 | record k of a written image holds size and offset of ramdisk k, its type, its name in 32 bytes and its 16 board ids, and leads to its bytes |
| VendorValues.VendorEndsExactly | ImageResources/mkbootimg.py:646-658 | from arguments and table alone: which runs pass, and which failure ends each of the others |
| Elf.ConvertIsLittleEndian | Platforms/QcomModulePkg/Tools/elf_tools.py:340-341 | the encoder yields n mod 256^l in little-endian order for every n, negative ones too, and l |
| Elf.Sizes32 | Platforms/QcomModulePkg/Tools/elf_tools.py:146-148 | the 32-bit formats take 52 and 32 bytes in native mode, without padding |
| Elf.Sizes64 | Platforms/QcomModulePkg/Tools/elf_tools.py:233-285 | the 64-bit formats take 64 and 56 bytes in native mode, without padding |
| Elf.CreateElfHeader | Platforms/QcomModulePkg/Tools/elf_tools.py:346-422 | the bytes written one by one are the packed ELF and program headers of either class |
| Elf.ConcatFiles | Platforms/QcomModulePkg/Tools/elf_tools.py:435-449 | copying in chunks gives the concatenation and terminates |
| Elf.PreprocessElfFile | Platforms/QcomModulePkg/Tools/elf_tools.py:455-492 | the reader's loop returns what the headers of any file say, or fails on a short or misfit struct |
| ElfRoundTrip.BuildElf | Platforms/QcomModulePkg/Tools/image_header.py:73-80 | the built file is header then payload |
| ElfRoundTrip.ElfReadBack | Platforms/QcomModulePkg/Tools/elf_tools.py:455-492 | reading a built file returns every field of both headers, modulo its width, for any address and payload |
| ElfRoundTrip.SegmentIsPayload | Platforms/QcomModulePkg/Tools/elf_tools.py:380-419 | the slice at p_offset of length p_filesz is the payload if and only if its size fits the field |
| ElfValues.EhdrSays | Platforms/QcomModulePkg/Tools/elf_tools.py:358-378 | read back from a built file of either class: the identification bytes, an ARM executable of version 1 that starts at the load address, one program header right behind, no sections |
| ElfValues.PhdrSays | Platforms/QcomModulePkg/Tools/elf_tools.py:381-388 | read back likewise: a loadable segment with flags 7 behind both headers, virtual and physical address the load address, both sizes the payload's, alignment 4096 |
| ElfValues.ViewExactly | Platforms/QcomModulePkg/Tools/elf_tools.py:455-492 | for any file the reader accepts: class byte 2 alone selects the 64-bit structs, and e_phoff, e_phentsize and e_phnum place the table |
| ElfValues.PhdrExactly | Platforms/QcomModulePkg/Tools/elf_tools.py:474-488 | for any such file, program header k of e_phnum is the one at e_phoff plus k times e_phentsize |
| ElfValues.PhdrMissing | Platforms/QcomModulePkg/Tools/elf_tools.py:482-488 | a table that is refused has an entry that does not unpack |
| TlsBuffers.RunConserves | Platforms/OpensslPkg/Library/TlsLib/TlsProcess.c:100-168 | over any run and any engine, bytes handed over followed by bytes pending are all bytes emitted, in order, and bytes eaten followed by bytes waiting are all input queued |
| TlsBuffers.SuccessDrains | Platforms/OpensslPkg/Library/TlsLib/TlsProcess.c:157-168 | a successful packet call leaves no output if and only if the pending size fits an int, and then hands all of it over |
| TlsBuffers.HugeOutputStuck | Platforms/OpensslPkg/Library/TlsLib/TlsProcess.c:162-163 | with 2^31 bytes pending and room for them any packet call succeeds and hands nothing over |
| TlsBuffers.RetryOnce | Platforms/OpensslPkg/Library/TlsLib/TlsProcess.c:112-168 | a too-small handshake reports the exact size; a retry succeeds exactly with that much room, without queueing its input or stepping the engine again |
| TlsBuffers.RetriesInvisible | Platforms/OpensslPkg/Library/TlsLib/TlsProcess.c:112-168 | a too-small packet call, any number of packet calls with too little room and then one with enough leave connection and caller exactly as the first call alone with that room would |
| TlsBuffers.StalledRun | Platforms/OpensslPkg/Library/TlsLib/TlsProcess.c:112-160 | while output is pending, any run of packet calls with too little room changes nothing and hands nothing over |
| TlsBuffers.InputQueuedExactly | Platforms/OpensslPkg/Library/TlsLib/TlsProcess.c:112-119 | a non-empty input is queued whole if and only if no output was pending and its size fits an int; with output pending none of it is |
| TlsBuffers.AbortThenAlert | Platforms/OpensslPkg/Library/TlsLib/TlsProcess.c:226-257 | an alert call with no input succeeds exactly with room for the output an aborted handshake left, and then delivers it whole exactly when its size fits an int |
| TlsBuffers.HandshakeExactly | Platforms/OpensslPkg/Library/TlsLib/TlsProcess.c:100-155 | with output pending the engine is left alone and the call never aborts; otherwise input is queued or the client side selected, the handshake steps once, and the call aborts exactly on a failure with one of the three fatal answers |
| TlsBuffers.AlertExactly | Platforms/OpensslPkg/Library/TlsLib/TlsProcess.c:226-238 | an alert call aborts exactly when no output is pending and its input has 2^31 bytes or more; below that it reads once |
| TlsBuffers.CloseExactly | Platforms/OpensslPkg/Library/TlsLib/TlsProcess.c:298-320 | a close notification never aborts and shuts down once, exactly when no output is pending |
| TlsBuffers.AsIntExactly | Platforms/OpensslPkg/Library/TlsLib/TlsProcess.c:163-163 | a size cast to UINT32 and passed as int is congruent modulo 2^32 and in the range of int |
| TlsProcess.TlsDoHandshake | Platforms/OpensslPkg/Library/TlsLib/TlsProcess.c:73-169 | refines the handshake transition on connection, buffer and size cell; invalid parameters change nothing |
| TlsProcess.ParametersExactly | Platforms/OpensslPkg/Library/TlsLib/TlsProcess.c:90-98 | valid parameters: a connection with both BIOs, an input pointer exactly with a size, and an output pointer unless the size is 0 |
| TlsProcess.TlsHandleAlert | Platforms/OpensslPkg/Library/TlsLib/TlsProcess.c:198-258 | refines the alert transition |
| TlsProcess.TlsCloseNotify | Platforms/OpensslPkg/Library/TlsLib/TlsProcess.c:280-321 | refines the close-notify transition |
| TlsProcess.RunCalls | Platforms/OpensslPkg/Library/TlsLib/TlsProcess.c:73-356 | any run of calls with caller buffers refines the run of the transitions, so what the buffers received and what is pending are all bytes the engine emitted, in order |
| TlsProcess.TlsCtrlTrafficOut | Platforms/OpensslPkg/Library/TlsLib/TlsProcess.c:339-356 | moves pending bytes, in order, into the caller's buffer and nothing else of it |
| TlsCiphers.TlsGetCipherMapping | Platforms/OpensslPkg/Library/TlsLib/TlsConfig.c:110-145 | binary search on any strictly sorted table finds a number if and only if it is there |
| TlsCiphers.TableIsSorted | Platforms/OpensslPkg/Library/TlsLib/TlsConfig.c:41-69 | the shipped table is strictly sorted |
| TlsCiphers.MeasureCiphers | Platforms/OpensslPkg/Library/TlsLib/TlsConfig.c:322-372 | the first pass records the mapped names in order and their joined length, and fails exactly on overflow |
| TlsCiphers.FillCiphers | Platforms/OpensslPkg/Library/TlsLib/TlsConfig.c:404-427 | the second pass fills exactly the measured buffer with the colon-join and a NUL |
| TlsCiphers.LogSegments | Platforms/OpensslPkg/Library/TlsLib/TlsConfig.c:446-456 | the log segments have at most 79 characters, concatenate to the string, and the loop ends |
| TlsCiphers.TlsSetCipherList | Platforms/OpensslPkg/Library/TlsLib/TlsConfig.c:278-484 | status for every input, allocator and OpenSSL answer, and the string passed on |
| TlsCiphers.CipherStatusExactly | Platforms/OpensslPkg/Library/TlsLib/TlsConfig.c:322-470 | success exactly when some number of the list is in the table, both allocations and additions go through and OpenSSL answers more than 0; unsupported exactly when none is or OpenSSL does not |
| TlsCiphers.CipherStringParses | Platforms/OpensslPkg/Library/TlsLib/TlsConfig.c:404-421 | splitting the string at colons gives the mapped names in the caller's order, duplicates kept |
| TlsSigAlgs.MeasureAlgos | Platforms/OpensslPkg/Library/TlsLib/TlsConfig.c:1051-1079 | accepts exactly lists of known algorithms and measures what the second pass writes, never zero |
| TlsSigAlgs.FillAlgos | Platforms/OpensslPkg/Library/TlsLib/TlsConfig.c:1090-1105 | the second pass fills exactly the measured buffer, the last colon turned into NUL |
| TlsSigAlgs.TlsSetSignatureAlgoList | Platforms/OpensslPkg/Library/TlsLib/TlsConfig.c:1029-1115 | status and string for every input; the zero-size branch is never taken |
| TlsSigAlgs.AcceptedExactly | Platforms/OpensslPkg/Library/TlsLib/TlsConfig.c:1038-1068 | the lists accepted: length byte, hash numbers 1 to 6 and signature numbers 1 to 3 |
| TlsSigAlgs.AlgoStatusExactly | Platforms/OpensslPkg/Library/TlsLib/TlsConfig.c:1070-1115 | success exactly for an accepted list, an allocated string and an answer above 0; out of resources exactly for an accepted list without the string |
| TlsSigAlgs.AlgoStringParses | Platforms/OpensslPkg/Library/TlsLib/TlsConfig.c:1090-1105 | parsing the string at colons and pluses, with the names numbered as in section 7.4.1.4.1 of RFC 5246, returns the original pairs |
| Menu.RemoveMenuFromList | Platforms/SurfaceDuoFamilyPkg/FrontPage/FrontPage.c:819-851 | the in-place loop with its flags computes the one-removal table, for any table, with 16-bit wrap-around |
| Menu.RemovedExactly | Platforms/SurfaceDuoFamilyPkg/FrontPage/FrontPage.c:828-850 | on any table: texts and forms stay, rows with the text are cleared, used rows behind the first of them lose one modulo 2^16, all others keep their index |
| Menu.RemovalCompacts | Platforms/SurfaceDuoFamilyPkg/FrontPage/FrontPage.c:812-818 | on a well-formed table one removal numbers the survivors by rank in both columns |
| Menu.RemovalsCompact | Platforms/SurfaceDuoFamilyPkg/FrontPage/FrontPage.c:919-925 | so does any sequence of removals, and the table stays well formed |
| Menu.RemovalOrderIrrelevant | Platforms/SurfaceDuoFamilyPkg/FrontPage/FrontPage.c:919-925 | only the set of removed entries matters: removals commute and are idempotent |
| Menu.ShippedTable | Platforms/SurfaceDuoFamilyPkg/FrontPage/FrontPage.c:112-128 | the shipped indices are well formed |
| Menu.FillCells | Platforms/SurfaceDuoFamilyPkg/FrontPage/FrontPage.c:927-933 | every cell gets the text of the last row with its index; a cell stays empty exactly when no used row has its index, on a well-formed table exactly from the number of used rows on |
| Menu.FindForm | Platforms/SurfaceDuoFamilyPkg/FrontPage/FrontPage.c:720-735 | the first row with the index, or not found exactly when there is none |
| Menu.CellMatchesForm | Platforms/SurfaceDuoFamilyPkg/FrontPage/FrontPage.c:927-933 | each index below the number of used rows belongs to exactly one row, and its text is in that cell |
| Menu.CellOpensForm | Platforms/SurfaceDuoFamilyPkg/FrontPage/FrontPage.c:720-735 | after the cells are filled, the text in cell i is that of the row whose form the lookup finds for i |
| Smbios.AsciiStrSize | Platforms/SurfaceDuoFamilyPkg/FrontPage/FrontPage.c:221-221 | the length up to and including the next NUL |
| Smbios.GetOptionalStringByIndex | Platforms/SurfaceDuoFamilyPkg/FrontPage/FrontPage.c:202-236 | on any well-formed set, the empty one included, and any index: the string with that number or not found, no read behind the terminator, termination |
| MemoryMap.AddHob | Platforms/SurfaceDuoFamilyPkg/MemoryInitPei/MemoryInitPeiLib.c:42-55 | appends the two HOBs its conditions ask for |
| MemoryMap.OptionsExactly | Platforms/SurfaceDuoFamilyPkg/MemoryInitPei/MemoryInitPeiLib.c:86-106 | for each option: whether its descriptors get a table entry, a resource HOB and an allocation HOB |
| MemoryMap.FieldsCarried | Platforms/SurfaceDuoFamilyPkg/MemoryInitPei/MemoryInitPeiLib.c:44-54 | table entries and HOBs carry their descriptor's values, field by field |
| MemoryMap.MemoryPeim | Platforms/SurfaceDuoFamilyPkg/MemoryInitPei/MemoryInitPeiLib.c:85-126 | completes if and only if the mapped entries and the terminator fit; table and HOB lists are the order-preserving selections |
| MemoryMap.TableReadsBack | Platforms/SurfaceDuoFamilyPkg/MemoryInitPei/MemoryInitPeiLib.c:112-126 | read up to the terminator, the table holds exactly the mapped regions, identity mapped, disjoint if the map's are |

## Left out

- OpenSSL, SHA-1, avbtool, the allocators, firmware protocols, rendering and string tables: unseen libraries, parameters here. BIO calls follow OpenSSL's memory BIO: nothing moves for a length that is not positive, and an empty BIO answers -1.
- File names and handles: files are byte strings that do not change while a tool runs, each argument is opened on its own, and a file's size is the length of its content.
- argparse, the regular expressions and the choice of option groups: parsed values are inputs; `OsVersion` starts from the numbers the patterns found, `VendorTable.ParseVendorRamdiskArgs` from the parsed groups.
- BootImage.WriteHeader: says nothing about the bytes a run that raised left in the output file.
- Elf.PreprocessElfFile: verify_elf_header, which the source calls but does not define, is taken to accept.
- TlsProcess.TlsHandleAlert: application data that SSL_read decrypts into the scratch buffer is dropped by the source and not modelled.
- TlsCtrlTrafficIn, TlsRead and TlsWrite appear as steps of a run, without their own buffers; TlsInHandshake and TlsShutdown are left out as thin wrappers.
- MemoryMap.MemoryPeim: an assertion that fails stops the model; a build without assertions would write behind the table.
- The container macros of list.h and list_for_every without deletion: pointer arithmetic around the members modelled here.
- The per-platform copies of mkbootimg.py and the build scripts: near-identical copies and plumbing.
