# classgraph: a verified model of its Mach-O core

classgraph lists the C++ class graph of a library. Its Mach-O half reads a 32-bit image without loading it: it walks
the load commands, decodes the compressed dyld bind stream into one record per bound pointer, maps VM addresses to
file offsets, and finds the symbol that is relocated to an address. Around that it loads the closure of a library's
dependencies into a fixed table and tidies demangled template names. This project models those parts in Dafny and
proves what they do.

`dafny verify dfyconfig.toml` checks everything.

## Modules

| file | what it holds |
|---|---|
| `Words.dfy` | 32- and 64-bit words over unbounded integers, shifts by doubling, bitwise or |
| `Leb128.dfy` | the two LEB128 readers as loops, their meaning on arbitrary bytes, the canonical encodings |
| `MachO.dfy` | segments, sections and the decoder's section lookup |
| `BindOpcodes.dfy` | the registers, the 13 opcodes, and the meaning of a stream: `Run` |
| `BindInterpreter.dfy` | the two-pass decoder as it runs, with its output array |
| `BindPrograms.dfy` | streams as programs: canonical bytes, and the bytes that a run does not depend on |
| `BindDesugar.dfy` | the compound opcodes reduced to DO_BIND and ADD_ADDR_ULEB |
| `BindSections.dfy` | when the records of a repeated bind carry the right section names |
| `BindTable.dfy` | the reference encoder that emits only changed columns, and the table round trip |
| `BindHistory.dfy` | every record told from the history of the stream |
| `LoadCommands.dfy` | the walk from the bytes of the file to the VM range table |
| `CommandLayout.dfy` | a reference writer for load commands and its round trip through the reader |
| `AddressMap.dfy` | the range table as an address map, and translation to file offsets |
| `Relocations.dfy` | relocation and bind lookup of an address |
| `BoundImages.dfy` | results that need all of the above at once |
| `WrittenImages.dfy` | whole slices as bytes: what they load as, and slices that load and reach the failures |
| `Libraries.dfy` | the library table and recursive dependency loading |
| `LibraryRuns.dfy` | which loads complete |
| `LibraryPaths.dfy` | dependencies that are listed with a directory |
| `Templates.dfy` | the `> >` rewrite |

## How the source is read

- The build is 32-bit (`Makefile:4`). Every sum that the source computes in 32 or 64 bits is written with its
  modulus. Nothing is assumed not to wrap unless a lemma says so.
- Memory is a `seq` of bytes and a pointer is a position in it. A symbol pointer is modelled by the text it points
  to, `None` for NULL, since the mapped file never changes. The literal `"??"` for a segment or section name is `None`.
- A slice is mapped at a 32-bit address `base`, and pointers are compared as the source compares them: a bind range
  whose end wraps below its start is empty.
- A step that C leaves undefined ends a run with the outcome `Undefined`, so no terminator and no operand size is
  assumed. There are three: the scan for a symbol's NUL leaving the mapping, a shift of a 64-bit register by 64 or
  more in the signed reader, and a bind stream that starts outside the mapping or reaches its end without halting.
  `BindPrograms.NothingBeyondMapping` shows that all other runs depend on nothing outside the mapping. Signed shifts
  below 64 are read as GCC defines them, in two's complement.
- A failing `assert`, a failing `open` and the like end the process. The walk, the translation and the loading return
  `ok == false` there, and their contracts say for exactly which inputs.
- A null pair of segment arrays makes the decoder behave as with zero 64-bit segments, and is modelled so.
- The loader (opening, mapping and reading a library file) is a function from paths to what it yields.

## What the proofs found

- `read_sleb128` is not an inverse of the encoding for values below -2^62: their ten-byte form makes it shift by 70
  (`otool/dyld_bind_info.c:185-186`). `Leb128.SlebRoundTrip` says exactly for which values the law holds.
  The table round trip holds for every 64-bit addend all the same, because the decoder accepts the unsigned ten-byte
  form of the same pattern and `BindPrograms.EncodeAddend` uses that one below -2^62.
- The section name of a repeated bind is looked up before its loop (`otool/dyld_bind_info.c:364`), so later records
  of the run can carry the name of a section they are not in, or none in a section. `WrittenImages.RecordMisnamed` and
  `WrittenImages.RecordUnnamed` are slices that load and show both. `BoundImages.RunSectionsExactly` says, by a
  condition that can be checked before the run, when the names of an image's records are right, and
  `BindDesugar.ExpandExec` that expanding the opcode changes nothing but those names, and them exactly when they are
  wrong.
- A repeated bind adds `skip + sizeof_pointer` in 32 bits. `BindDesugar.PlainCopies` says for which operands it still
  means that many DO_BIND_ADD_ADDR_ULEB of the same operand.
- `symtab_macho_get_ptr` checks `addr + size` in 32 bits, and the walk never checks `offset + size` of a section beyond
  a wrapped sum. `AddressMap.TranslationSound` gives the exact condition under which the bytes of one read lie in the
  section, the segment and the file, and `AddressMap.SectionSoundExactly` the one under which all unwrapped reads of a
  section do. `WrittenImages.HugeReadAnswered` and `WrittenImages.SectionBeyondFile` are slices that load and miss them.
- A dependency that is listed with a slash is never found by `lib_find` (`library.c:101-102`, names are stored without
  their directory). It is loaded exactly as often as it is listed (`LibraryPaths.LoadedAsOftenAsListed`), so a run can
  hold a library twice (`LibraryPaths.LoadsTwice`), and a load that enters a cycle of such dependencies never
  completes: the table fills up, unless the process ends before (`LibraryPaths.EndlessFills`).

## Model

| member | source | states |
|---|---|---|
| `Leb128.ReadUleb128` | otool/dyld_bind_info.c:133-162 | the loop with its cursor returns the value and the position of the reader's specification, for any bytes between the cursor and the end |
| `Leb128.UlebMeaning` | otool/dyld_bind_info.c:143-161 | on arbitrary bytes: the sum of the 7-bit groups when a terminator comes within ten bytes and the tenth is at most 1, otherwise 0 with the cursor on the first offending byte |
| `Leb128.UlebRoundTrip` | otool/dyld_bind_info.c:133-162 | the canonical encoding of any 64-bit value (section 7.6 of DWARF Version 5) decodes to it and is consumed exactly, whatever follows |
| `Leb128.EncodeUlebLength` | otool/dyld_bind_info.c:133-162 | the canonical encoding is the shortest one: n bytes do exactly for the numbers below 2^(7n) |
| `Leb128.ShiftTest` | otool/dyld_bind_info.c:151-156 | the shift-and-compare overflow test fails exactly for a tenth group above 1, and otherwise the shift loses nothing |
| `Leb128.ReadSleb128` | otool/dyld_bind_info.c:164-189 | the signed loop returns value and position of its specification, or reports the shift by 64 or more that C leaves undefined |
| `Leb128.SlebMeaning` | otool/dyld_bind_info.c:175-188 | on arbitrary bytes: sign-extended sum up to nine bytes, low 64 bits of an unsigned ten-byte operand, undefined for a negative ten-byte one, 0 or undefined without a terminator |
| `Leb128.SignFill` | otool/dyld_bind_info.c:184-186 | or-ing a shifted -1 subtracts 2^bit modulo 2^64 from a smaller pattern |
| `Leb128.SlebDecodesEncoding` | otool/dyld_bind_info.c:164-189 | the canonical encoding of any number from -2^63 up to 2^64 decodes to its 64-bit pattern, consumed exactly, or is undefined below -2^62 |
| `Leb128.SlebRoundTrip` | otool/dyld_bind_info.c:164-189 | encoding and decoding a signed 64-bit value gives it back if and only if it is at least -2^62 |
| `MachO.LookupSectionName` | otool/dyld_bind_info.c:93-131 | the scan returns the name of the first section of the segment that covers the address, in the width of the table, or "??" |
| `MachO.FindSectionFrom` | otool/dyld_bind_info.c:112-116 | the section found covers the address and none before it does; none found means none covers it |
| `MachO.SectionNameMeans` | otool/dyld_bind_info.c:106-130 | in the fields of the file: the name is that of the first section of the segment that holds the address between its start and its end, cut to 32 bits in a 32-bit table and to 64 in the other; without one there is none |
| `BindOpcodes.RecordBound` | otool/dyld_bind_info.c:259-384 | fewer than 2^32 records per byte, so the 64-bit counter cannot wrap on a stream of 32-bit length |
| `BindInterpreter.Bind` | otool/dyld_bind_info.c:316-326 | pass 2 writes exactly slot n and pass 1 nothing; both advance n by one |
| `BindInterpreter.BindTimes` | otool/dyld_bind_info.c:366-379 | the inner loop writes the whole run of records in consecutive slots, each once, and moves the offset as often |
| `BindInterpreter.ReadSymbol` | otool/dyld_bind_info.c:285-289 | the symbol is the text up to the first NUL in the mapping, and the cursor ends one past it |
| `BindInterpreter.SetStep` | otool/dyld_bind_info.c:266-312 | the eight opcodes that write no record set exactly the registers the specification says, and move the cursor past their operands |
| `BindInterpreter.BindStep` | otool/dyld_bind_info.c:313-360 | the three opcodes that bind once write their record in both passes as specified and leave the specified registers and cursor |
| `BindInterpreter.TimesStep` | otool/dyld_bind_info.c:361-380 | the repeated bind reads both operands, writes the specified run of records and leaves the specified registers |
| `BindInterpreter.RunPass` | otool/dyld_bind_info.c:239-384 | pass 1 counts the records of the stream's meaning; pass 2 fills an array of that length with exactly them, writing slots 0, 1, 2, ... once each |
| `BindInterpreter.GetDyldBindInfo` | otool/dyld_bind_info.c:199-387 | for every stream, wherever its bounds lie: the array is exactly the stream's meaning and n its length; by the bytes, both outputs are unchanged when the first halting byte executed is 0xD0 or above, and set when it is below 0x10 or the stream is used up |
| `BindPrograms.RunIsProgram` | otool/dyld_bind_info.c:259-384 | decoding a stream is executing the instructions parsed from it |
| `BindPrograms.ParseEncoded` | otool/dyld_bind_info.c:260-382 | every instruction is recovered from its canonical bytes, whatever follows |
| `BindPrograms.HaltOutcomes` | otool/dyld_bind_info.c:259-266 | a run that halts in the stream does so at a byte below 0x10, and is finished, or at one from 0xD0 on, and is bad; any other uses the stream up unless C leaves it undefined |
| `BindPrograms.NothingAfterHalt` | otool/dyld_bind_info.c:264-266 | two streams that agree up to and including the first executed DONE or bad opcode give the same result, whatever operands precede it |
| `BindPrograms.NothingBeyondMapping` | otool/dyld_bind_info.c:259-294 | a run that C defines gives the same result however the memory behind the mapping looks, even if the stream is said to go on there |
| `BindPrograms.TailOnlyToNul` | otool/dyld_bind_info.c:285-289 | behind the end of the stream nothing past the first NUL affects the result |
| `BindPrograms.CanonicalForm` | otool/dyld_bind_info.c:199-387 | any stream that C defines, malformed operands included, decodes like the canonical bytes of its program |
| `BindDesugar.PlainCopies` | otool/dyld_bind_info.c:361-379 | a repeated bind, whose count is cut to 32 bits, means that cut count of DO_BIND_ADD_ADDR_ULEB(skip), section names apart, if and only if the cut count is 0, or skip plus a pointer fits 32 bits, or that sum wraps 64 bits |
| `BindDesugar.ExpandExec` | otool/dyld_bind_info.c:329-380 | each compound opcode and its expansion end in the same registers and write the same records but for section names, and those too if and only if the opcode's records all carry the section of their own address |
| `BindDesugar.ExpansionPreservesRuns` | otool/dyld_bind_info.c:259-384 | expanding any choice of instructions of any program keeps outcome, final registers and records, section names if and only if the expanded instructions name the sections of all their records |
| `BindDesugar.StreamExpansion` | otool/dyld_bind_info.c:199-387 | the same for the bytes of any stream that C defines |
| `BindDesugar.FullyExpanded` | otool/dyld_bind_info.c:329-380 | expanding every instruction twice leaves DO_BIND as the only opcode that binds, with the same outcome, registers and records but for section names |
| `BindSections.StaysExactly` | otool/dyld_bind_info.c:361-379 | a run of addresses, each modulo 2^64, stays within the bounds it starts in if and only if its last address as a plain sum does |
| `BindSections.MeetsExactly` | otool/dyld_bind_info.c:361-379 | a run of addresses, each modulo 2^64, meets an interval if and only if the first address past the lower bound, in the first or the second turn around 2^64, exists and lies below the upper one |
| `BindSections.RunNamedExactly` | otool/dyld_bind_info.c:361-379 | a repeated bind names the sections of all its records if and only if it keeps its section: one that starts in a section ends before the section does, and one that starts in none meets none |
| `BindSections.ExpansionNamesExactly` | otool/dyld_bind_info.c:361-379 | in a 32-bit image the expansion writes the very same records under that condition and no other |
| `BindSections.RunLeavesSection` | otool/dyld_bind_info.c:364-371 | five bytes whose second record lies in the second of two adjacent sections and carries the name of the first |
| `BindSections.RunEntersSection` | otool/dyld_bind_info.c:364-371 | the same bytes, where the only section starts later: the second record lies in it and carries no name |
| `BindTable.TableRoundTrip` | osx/mach-o/loader.h:1240-1252 | any table of tuples, encoded with SET opcodes for changed columns only and one DO_BIND a row, decodes to exactly that table in order, with addresses modulo 2^64 |
| `BindTable.TableRecord` | otool/dyld_bind_info.c:30-91 | each decoded row in the fields of the image: base address and name of its segment, the dylib of its ordinal, its addend in 64 bits, its type, symbol and weak flag |
| `BindTable.PointerMoved` | otool/dyld_bind_info.c:232-236 | a bind moves the offset by four bytes in a 32-bit image and by eight in a 64-bit one, and changes no other register |
| `BindTable.SteadyRows` | osx/mach-o/loader.h:1240-1252 | columns that do not change are not emitted: rows that continue each other cost one byte each |
| `BindTable.RowRegsHold` | otool/dyld_bind_info.c:313-328 | after the opcodes of a row's changed columns the bind writes that row, and the registers then hold what the encoder expects |
| `BindHistory.StickySemantics` | otool/dyld_bind_info.c:240-384 | for every stream, record by record: each column is the operand of the last opcode that set it or the default, the address is the last place set plus all advances since, and there are no other records |
| `BindHistory.OrdinalMeans` | otool/dyld_bind_info.c:267-284 | an ordinal is the immediate, the immediate less 16 for special ones but 0, or the operand's low 32 bits, signed |
| `BindOpcodes.BindRunAt` | otool/dyld_bind_info.c:366-379 | the t-th record of a repeated bind lies t strides after the first |
| `LoadCommands.MachoLibrary.NewestSeparated` | symtab_macho.c:232-240 | the loop accepts exactly when the newest range overlaps no older one |
| `LoadCommands.MachoLibrary.AddSection` | symtab_macho.c:193-240 | a section is recorded exactly when the table has room, the assertions on 32-bit sums hold and no overlap arises |
| `LoadCommands.ZeroFillAccepted` | symtab_macho.c:212-216 | a section that is zero-fill or in a segment without file contents is taken on its VM checks alone |
| `LoadCommands.FileChecksDemanded` | symtab_macho.c:212-222 | of a section of any other type the three file checks are demanded too |
| `LoadCommands.MachoLibrary.AddSegment` | symtab_macho.c:176-243 | a segment command is taken exactly when it lies in the mapping and all its sections fit, and then appends their ranges in order |
| `LoadCommands.MachoLibrary.WalkSegment` | symtab_macho.c:176-248 | a segment command joins the segments and their ranges exactly when the image stays accepted |
| `LoadCommands.MachoLibrary.WalkOther` | symtab_macho.c:250-436 | any other command sets the library fields that its kind says and needs only to lie in the mapping |
| `LoadCommands.MachoLibrary.WalkCommand` | symtab_macho.c:115-436 | one command: the range table, the segment array and the library fields become what the commands so far say |
| `LoadCommands.MachoLibrary.SymtabMachoInit` | symtab_macho.c:98-447 | the walk succeeds exactly on the slices that load, and leaves the range table, the fields and the decoded bind records that the bytes of the file determine; the records are left out exactly when the first halting byte of the stream is 0xD0 or above |
| `LoadCommands.AcceptedExactly` | symtab_macho.c:190-246 | at most 16 segments and 256 sections, every segment ends in the file, every section passes its checks, and no two ranges overlap |
| `LoadCommands.LastCommandWins` | symtab_macho.c:250-400 | each group of library fields is that of the last command of its kind |
| `LoadCommands.NoCommandNoChange` | symtab_macho.c:250-400 | without a command of a kind its fields stay as they were |
| `LoadCommands.WrappedEnd` | symtab_macho.c:442-444 | a bind range whose end wraps 2^32 decodes to nothing |
| `LoadCommands.StreamPastMapping` | symtab_macho.c:442-444 | a bind range that ends behind the mapping decodes like its part in the mapping if that halts, and is undefined otherwise |
| `CommandLayout.CommandsRoundTrip` | symtab_macho.c:114-439 | any list of load commands, written in the layout of the C structures, is read back by the walk's reader with every field, section and position |
| `CommandLayout.CommandByWord` | symtab_macho.c:175-400 | by the command word: 1, 2, 0xB and 0x22, with or without LC_REQ_DYLD, are read with the words at their offsets, and every other word is a command without effect |
| `CommandLayout.TopBitIgnored` | symtab_macho.c:175-175 | setting the top bit of a command word changes neither the command nor its successor's place |
| `CommandLayout.SegmentRead` | osx/mach-o/loader.h:335-424 | a segment command and its sections are read at the offsets of the C structures |
| `AddressMap.RangeEnumeration` | symtab_macho.c:192-246 | the range table is in order-preserving bijection with the sections of the LC_SEGMENT commands; its length is the sum of the section counts |
| `AddressMap.RangeFields` | symtab_macho.c:212-230 | a range records the bounds of its section in memory and file, cut to 32 bits, whether it is mapped, its section, its segment command and both indices |
| `AddressMap.RangeOrder` | symtab_macho.c:229-230 | the pairs of segment and section index strictly increase along the table |
| `AddressMap.OrderIrrelevant` | symtab_macho.c:617-622 | separated ranges: the first-match scan finds the same range whatever the order of the table |
| `AddressMap.SectionIsRange` | otool/dyld_bind_info.c:106-116 | the decoder's scan finds section j of a segment exactly when the address lies in the VM range recorded for that section |
| `AddressMap.TwoLookupsAgree` | otool/dyld_bind_info.c:106-130 | the decoder's section lookup in one segment and the scan of the whole range table give the same section, or both "??" |
| `AddressMap.SymtabMachoGetPtr` | symtab_macho.c:613-635 | the loop and its assertions compute the specified translation, and stop for exactly the addresses without one |
| `AddressMap.TranslationExactly` | symtab_macho.c:617-634 | an address that a section covers is answered if and only if the segment has file contents, the section is not zero-fill and the interval's end, cut to 32 bits, does not pass the section's; the answer is the section's offset plus the distance, cut to 32 bits |
| `AddressMap.UncoveredStops` | symtab_macho.c:625-625 | an address that no section covers is not answered |
| `AddressMap.TranslationSound` | symtab_macho.c:624-634 | every successful translation has exactly one owning section; its bytes lie in the section, its segment and the file if and only if the address interval does not wrap and the bytes, as a plain sum, end within the segment; they do so in a section that lies in its segment as a whole if and only if neither the interval nor the section's file range wraps |
| `AddressMap.SectionSoundExactly` | symtab_macho.c:214-224 | a mapped section answers every unwrapped read from within its segment if and only if its own file range does not wrap |
| `AddressMap.DistancesKept` | symtab_macho.c:633-634 | within one range, distances of addresses are distances in the file modulo 2^32 |
| `AddressMap.LoadedImage` | symtab_macho.c:190-240 | every slice that loads has separated ranges and 32-bit fields, so the results above hold of it |
| `Relocations.GetDyldBindInfoSymbolname` | otool/dyld_bind_info.c:421-434 | the symbol of the first record for the address, or NULL |
| `Relocations.SymtabMachoFindRelocSymForAddr` | symtab_macho.c:562-609 | both loops compute the specified lookup over the file's relocations and the decoded records |
| `Relocations.RelocDecides` | symtab_macho.c:564-589 | the first external absolute 32-bit relocation of the address decides, before any bind record, even if later entries leave the mapping |
| `Relocations.BindDecides` | symtab_macho.c:591-606 | without one, the first bind record for the address decides |
| `Relocations.NothingFound` | symtab_macho.c:562-609 | nothing is found if and only if neither table has an entry for the address |
| `Relocations.BindNameStripped` | symtab_macho.c:596-603 | in the bind case the name is the bind table's answer without its first character exactly if that is an underscore, and the address is the bound one plus the addend in 32 bits |
| `Relocations.RelocRoundTrip` | osx/mach-o/reloc.h:64-73 | a relocation entry written as its bit fields lie is read back |
| `Relocations.SymbolRoundTrip` | symtab_macho.c:4-44 | a symbol entry written 12 bytes an index behind the table's start is found with its name without underscore: at 0 for debugger and undefined kinds, at its value for absolute ones and those in a section, and not for the kinds on which the source asserts |
| `Relocations.SymbolTableRoundTrip` | symtab_macho.c:4-44 | of a whole written symbol table the lookup of an index gives the entry of that index, and stops behind the last |
| `Relocations.RelocTableAnswers` | symtab_macho.c:565-606 | of a whole written relocation table the first external absolute 32-bit entry for the address decides by its symbol number, and without one the first bind record |
| `Relocations.SymNameInFile` | symtab_macho.c:11-24 | a symbol's name is the text in the string table up to the first NUL, without its first character exactly if that is an underscore; index 0 is the empty name |
| `BoundImages.RecordSection` | otool/dyld_bind_info.c:313-380 | over a separated range table, as every slice that loads has: every record of the image stands in its slot, a stride behind the one before, with the section of the VM range that holds the first address of its instruction |
| `BoundImages.RunFromRange` | otool/dyld_bind_info.c:361-380 | a bind instruction that starts in a VM range of its segment leaves all its records in it if and only if the last address lies before its end |
| `BoundImages.RunSectionsExactly` | otool/dyld_bind_info.c:361-380 | wherever a bind instruction starts, all its records carry the sections of their own addresses if it keeps its VM range, or meets none of its segment when it starts in none; where the section names of the segment differ, or it starts in none, only then |
| `BoundImages.TableAnswers` | symtab_macho.c:591-606 | where the relocation table is readable and has no entry for the address, an image whose bind stream encodes a table answers with the table's first row for it, or with nothing |
| `WrittenImages.HeaderWords` | symtab_macho.c:98-102 | the header checks accept exactly the 32-bit magic, i386 in all subtypes, and the file types library and executable |
| `WrittenImages.ImageRead` | symtab_macho.c:98-116 | a slice written as a header and any load commands, whatever follows them, is accepted by the header checks and has just these commands |
| `WrittenImages.ImageLoads` | symtab_macho.c:98-447 | such a slice loads if and only if its segments are accepted and its bind stream, if it has one, is one that C defines |
| `WrittenImages.TableLoads` | symtab_macho.c:98-447 | a slice written with the encoding of any table loads exactly when its segments are accepted, and its bind records are then the table |
| `WrittenImages.HugeReadAnswered` | symtab_macho.c:631-634 | a slice of one page loads and answers a read of 2^32 - 1 bytes |
| `WrittenImages.SectionBeyondFile` | symtab_macho.c:220-224 | a slice of two pages loads, and a section of it with a wrapped file range answers a small read soundly and an unwrapped read of the whole section from beyond the file |
| `WrittenImages.RecordMisnamed` | otool/dyld_bind_info.c:364-371 | a slice that loads and has a bind record in one section under the name of another |
| `WrittenImages.RecordUnnamed` | otool/dyld_bind_info.c:364-371 | a slice that loads and has a bind record in a section under no name |
| `Libraries.LastComponent` | library.c:14-29 | the name of a path is its last component, whatever directory stands before it and however many slashes behind; slashes alone are called by one and the empty path by a dot |
| `Libraries.CaseEqualMeans` | library.c:111-111 | names count as equal exactly when they differ in the case of ASCII letters only |
| `Libraries.LibraryTable.LibFind` | library.c:108-116 | the first non-primary entry with the name up to case, or none |
| `Libraries.LibraryTable.TakeSlot` | library.c:18-30 | the entry goes right behind the occupied slots; it fails exactly when the table is full |
| `Libraries.LibraryTable.LibNext` | library.c:124-131 | the next slot if it is occupied |
| `Libraries.LibraryTable.ForEach` | symtab.c:15-27 | walking from the first slot along the next ones visits every library once, in loading order |
| `Libraries.LibraryTable.LibInit` | library.c:8-105 | the recursion terminates, and leaves exactly the table of the functional description, or ends the process exactly when that says so |
| `Libraries.LoadOneGrows` | library.c:100-104 | a completed load adds the library, then only dependencies of what was added, all of them loadable, until all of their dependencies are covered |
| `Libraries.DependencyClosure` | library.c:100-104 | every dependency of every library in the table has a non-primary entry with its file name up to case; only the first entry is primary |
| `Libraries.LoadedOnce` | library.c:101-103 | in a run whose libraries list bare file names no two non-primary entries have the same name up to case |
| `Libraries.NothingSuperfluous` | library.c:100-104 | every library in the table is reachable from the primary's dependencies |
| `LibraryRuns.FitsCompletes` | library.c:18-30 | loading completes, cycles or not, when what the primary needs has bare names, can be loaded and counts at most 255 names up to case |
| `LibraryRuns.CompletesExactly` | library.c:8-105 | for bare names that differ up to case: loading completes if and only if what the primary reaches fits the table next to it and all of it can be loaded |
| `LibraryPaths.LoadedAsOftenAsListed` | library.c:100-104 | in every completed run a dependency listed with a slash is loaded exactly as often as it is listed |
| `LibraryPaths.LoadsTwice` | library.c:100-104 | a primary that lists a file twice with its directory completes with that file in the table twice |
| `LibraryPaths.SafeExactlyWhenPlain` | library.c:101-111 | completed runs that list only bare names and d never load a library twice if and only if d is a bare name |
| `LibraryPaths.EndlessFills` | library.c:18-30 | from a file that leads back to itself along dependencies listed with a slash, loading never completes: the table is full or the process ended before |
| `LibraryPaths.SelfListed` | library.c:18-30 | in particular, loading a file that lists itself with its directory never completes |
| `Templates.FixupTemplates` | demangle.c:5-24 | the result string is the rewritten input, in a fresh buffer of the input's length when something is rewritten and the input itself otherwise |
| `Templates.FixupSnoc` | demangle.c:13-19 | the write cursor steps back over a space exactly when a closing bracket follows a closing bracket and a space |
| `Templates.NothingLeft` | demangle.c:4-4 | the result holds no "> >", overlapping runs included |
| `Templates.NormalForm` | demangle.c:4-24 | rewriting any single "> >" first does not change the result, and exactly the strings without one are their own result |
| `Templates.AnyOrder` | demangle.c:4-24 | single rewrites made in any order, until none is left, end in the result |
| `Templates.Idempotent` | demangle.c:5-24 | rewriting twice is rewriting once |

## Left out

- `main.cc`: run-time type information read through live C++ objects, regular expressions and printing.
- `symtab_elf.c`, opening and mapping files, path fallback, magic detection in `library.c`: they enter as the loader
  function; a directory put before a path by the fallback is not recorded.
- The search for a slice in a fat binary (`symtab_macho.c:60-96`): the model starts at the chosen slice.
- Load commands whose cases only break, and the library fields that nothing modelled reads (string table size; rebase,
  weak bind, lazy bind and export ranges).
- `symtab_macho_foreach`, `print_dyld_bind_info`, `bindTypeName` and `cplus_demangle`: output, or calls of code that
  is not part of this model.
- Allocation: an allocation yields exactly the records asked for.
- A load command structure that lies only partly in the mapping counts as not readable, even if the fields read do.
- A file with 2^31 load commands or more would overflow the walk's `int` counter; the model counts without a bound.
- BoundImages.RunSectionsExactly: of a run that starts in a section and leaves it says that names are wrong only where
  the section names of the segment differ; where two are the same a record can carry the right name by chance.
- Libraries.LoadedOnce: asks for bare names in the run, because with others the source does load a file twice.
- LibraryRuns.CompletesExactly: asks for names that differ up to case, because of two that do not the source loads the
  one it meets first, and what is reached depends on that.
