# A verified model of djstub

djstub produces and runs DOS executables that carry an ELF or COFF payload behind a small
stub. Two programs meet in one file format:

- `djstubify2.py` writes such files: a 64-byte MZ header (overlay sizes from 0x1c on, a name
  offset at 0x28, a type map of nibbles at 0x36, flags at 0x38, a version at 0x3b, the stub
  size at 0x3c), the rest of the stub, and the overlays one after the other. It generates,
  re-stubs, strips, lists and extracts.
- The loader in `src/` reads the same header by fixed slots and without the type map, measures
  the payload, places a segment base modulo 2^32 and copies the segments in pages, rounded up
  to words. The rounding writes one byte too many behind odd sizes, on purpose.

The project models both and proves that they agree: what is loaded from a generated file is
overlay 0, re-stubbing changes nothing of what is loaded, nor does stripping, and every overlay
stays findable. It also says exactly where the programs do not do what one might expect.

## How it is organised

| file | models |
|---|---|
| `Bytes.dfy`, `Files.dfy` | little-endian fields, 32-bit wrap-around, files whose reads may be cut short |
| `Header.dfy` | the header and the three lookups by type |
| `Options.dfy`, `Generator.dfy` | the option loop with the packed type map, and the `-g` run |
| `Orbit.dfy` | walks that may cycle: when they end |
| `Stubify.dfy` | `coff2exe` |
| `Containers.dfy` | re-stubbing, stripping, the script djstrip |
| `Payloads.dfy`, `Chains.dfy` | `-r`, generated files, bare payloads; payloads behind chains of headers |
| `Memory.dfy`, `Segments.dfy` | word-rounded transfers, and what loading a list of segments leaves in memory |
| `Elf.dfy`, `Coff.dfy`, `Formats.dfy` | the two payload formats, and that their layouts are read back |
| `Loader.dfy`, `Placement.dfy` | the loader, and where in linear memory it writes |
| `EndToEnd.dfy` | tool and loader together |
| `Counterexamples.dfy` | files and command lines on which the programs go wrong |
| `Environment.dfy` | splitting the environment block |

Each loop of the source is a method with a loop, proved equal to a specification function; the
theorems are about these functions. A header walk can run for ever, so the methods for it take
a ghost number of rounds after which it has ended. `Stubify.ScanEnds` and `Loader.SearchEnds`
say that a walk ends if and only if it ends within the file length plus two rounds, and that
the number makes no difference; `RunsForEverExactly` in both modules, that it runs for ever if
and only if it comes back to a position; `AdvancingEnds`, that it ends if no header in the file
leads to itself or back.

Files are byte sequences below a cursor. Linear memory is an array of 2^32 bytes. The first
contents of each page buffer are arbitrary and a parameter, as is the address of the allocated
block. Failures of both programs are result values.

## What turned out false, and when it holds

Each point names the theorem with the exact condition and, where it helps, inputs that fail.

- Loading segments in table order is right, whatever the page buffers hold at first, exactly if no
  segment is loaded after the one that starts where it ends and spills onto it, unless the byte
  spilled is the right one anyway: a zero of the fill, or the byte one page before the end
  (`Segments.LoadIsRightExactly`, `Counterexamples.DescendingClobbers`).
- The extent of an ELF payload is tight exactly if no segment is at address zero, or the last one
  is: zero stands for "unset" (`Elf.ExtentIsTight`, `Counterexamples.SegmentAtZeroForgotten`).
- The loader stays inside its block exactly if the extent is no whole number of pages from 64 KiB
  on, or nothing spills at its end (`Placement.StaysInsideExactly`,
  `Counterexamples.SpillBehindBlock`).
- Every payload that loads from a file of its own loads the same behind any stub. One that does not
  can still load behind a stub, differently for each one, if a 32-bit seek wraps around and a
  header table is read out of the stub; without such a seek it fails behind every stub
  (`EndToEnd.RestubLoadsTheSame`, `EndToEnd.LoadsLikePayload`,
  `Counterexamples.WrappedSeekReadsStub`).
- Stripping keeps what is loaded exactly if header tables and segment bytes lie in front of the
  overlay that is cut off (`EndToEnd.StripLoadsTheSame`).
- The help text says that `-s` strips the last overlay. Of two or more overlays that are not empty,
  it clears the last one exactly if that is of a debug type (`Containers.StripClearsExactly`), and
  otherwise does what re-stubbing does (`Containers.StripWithoutDebug`, `Containers.StripDecided`).
- Raw `-s` on a stripped file leaves it as it is exactly if the run fails: with two overlays, or
  with less than 64 bytes left behind the stub (`Containers.RawStripAgain`). djstrip leaves it as it
  is exactly in these cases and if no other overlay is debug info (`Containers.DjstripTwice`,
  `Counterexamples.DjstripTwiceDiffers`).
- A fourth overlay shares its size field with the name offset (`Payloads.GenerateThenRead`,
  `Containers.StripKeepsName`).
- An overlay is in the type map under the type in force when it was linked exactly if the types
  given since the link before come to that type (`Options.TypesInForce`,
  `Options.LinkTwiceLeavesHole`); each type has a nibble of its own exactly if all are below 16
  (`Options.TypeMapIsPacked`, `Options.PairsPack`).
- A file with overlays that was generated without `-V 8` is refused by the tool itself
  (`Payloads.GenerateThenRemove`).
- `-r` undoes stubbing, and a stubbed payload can be re-stubbed, exactly if the template's table
  fits the payload (`Payloads.StubThenRemove`, `Payloads.StubThenRestub`).
- The loader's place of an overlay is the tool's exactly if no overlay in front of it is empty
  (`EndToEnd.ReadersAgree`).
- The size of the environment in the stub information is right exactly if there is a variable and
  the size is below 64 KiB (`Environment.EnvSize`).
- The header loops do not always end: an MZ image of length zero, a stub size of zero, and two
  headers that point to each other make them run for ever (`Stubify.EmptyImageLoops`,
  `Stubify.BackPointerLoops`, `Loader.BackPointerLoops`; exactly when:
  `Stubify.RunsForEverExactly`, `Loader.RunsForEverExactly`).

Where code and documentation differ, the model follows the code: besides the help text on `-s`, the
comments in the sources and the repository's README announce PE payloads, but only the COFF and ELF
magic numbers are known.

## Model

| member | source | states |
|---|---|---|
| Header.FindIdx | djstubify2.py:97-108 | the slot of the first nibble of the type map that is the type, -1 exactly if there is none; slot 0 for COFF without a map |
| Header.FindSize | djstubify2.py:110-114 | the size in that slot, -1 for the same types |
| Header.FindOffs | djstubify2.py:116-130 | -1 for the same types, else the sum of all sizes in earlier slots |
| Header.WriteU16 | djstubify2.py:132-133 | in place: the field reads back as the value, all other bytes stay |
| Header.WriteU32 | djstubify2.py:135-136 | in place: the field reads back as the value, all other bytes stay |
| Options.ParseOptions | djstubify2.py:392-484 | the option loop: it ends if and only if every option is accepted; of every letter the last one counts; a switch is set exactly if it is given |
| Options.ParsesExactly | djstubify2.py:401-457 | accepted is a command line without help, without type zero, with a type before the first overlay, and with no version but the one in force or the one below |
| Options.ExitsExactly | djstubify2.py:403-470 | else the first option that is not accepted ends the program, with status 0 for help and 1 for all others |
| Options.LastCounts | djstubify2.py:407-479 | version, type, name offset, output and template are those of the last option of that letter |
| Options.DefaultsStay | djstubify2.py:383-392 | and without such an option those of the start |
| Options.SwitchesCollect | djstubify2.py:426-439 | a switch is set exactly if some option selects it |
| Options.OverlaysInOrder | djstubify2.py:441-447 | the overlays are the contents linked, in their order, and no others |
| Options.TypeMapBits | djstubify2.py:441-457 | for every command line and any types: a bit of the map is set exactly if some `-t` sets it, shifted by four for each overlay linked before |
| Options.TypeMapIsPacked | djstubify2.py:441-457 | for every command line: nibble i of the map is the union of the types given between two links and nothing is above, exactly if all types are below 16; the shift is four times the number of overlays |
| Options.TypesInForce | djstubify2.py:441-457 | the map holds the type in force at each link, exactly if the types given since the link before come to it |
| Options.PairsPack | djstubify2.py:441-457 | on type/link pairs the map holds exactly the types in order if and only if all are between 1 and 15, and looking one up finds its first overlay; a zero type is refused |
| Options.LinkTwiceLeavesHole | djstubify2.py:441-447 | after any command line, two links in a row leave the second one out of the map |
| Options.FlagsCollect | djstubify2.py:462-463 | a flag bit is set exactly if some flags option sets it |
| Options.EffectiveFlags | djstubify2.py:496-499 | without a requested version, linking takes away the ELF flag and nothing else |
| Options.EffectiveKeeps | djstubify2.py:496-499 | without a requested version, linking makes it version 7; all else stays |
| Generator.FillSizes | djstubify2.py:508-515 | every size reads back from its slot and no other byte has changed, or the first that does not fit stops it |
| Generator.FillFields | djstubify2.py:517-521 | every field reads back as its setting after all were written, and no byte outside them has changed |
| Generator.FieldsDetermine | djstubify2.py:517-521 | which leaves no choice of any byte |
| Generator.CopyFile | djstubify2.py:372-379 | the chunked copy writes the whole file |
| Generator.Generate | djstubify2.py:496-543 | the rewritten template followed by all overlays, or an overflow |
| Generator.WrittenExactly | djstubify2.py:508-521 | a file is written exactly if every size has a slot in the template and all numbers fit their fields |
| Generator.GeneratedIs | djstubify2.py:496-540 | what is in it, by offset: overlays, sizes, name offset, map, flags and version as given, stub size, and the template's own byte everywhere else |
| Stubify.Tool.Coff2Exe | djstubify2.py:138-351 | result, rewritten template and version of a whole conversion, for every input whose walk ends |
| Stubify.Tool.FollowHeaders | djstubify2.py:160-289 | the header loop ends in the state or error that the step function leads to |
| Stubify.Tool.EnterContainer | djstubify2.py:169-257 | one stubbed header: walk, extraction, stripping, with the header copy edited in place |
| Stubify.Tool.EnterHeader | djstubify2.py:190-241 | the walk moves behind the stub and takes over header, flags and listing |
| Stubify.Tool.TakeOut | djstubify2.py:243-253 | size and place of the overlay of type 0 without flag 0x80, type 1 with flags 0x80 and 0x2000, type 3 with 0x80 alone, or an error |
| Stubify.WalkOverlays | djstubify2.py:216-241 | lists slot by slot what is in front of the first empty one, or the one payload of type 0 without a map; ends with the type and size it looked at last |
| Stubify.SeenDetermined | djstubify2.py:216-241 | which fixes what it ends with |
| Stubify.Tool.Finish | djstubify2.py:291-342 | listing or output once the walk has ended |
| Stubify.Tool.Rewrite | djstubify2.py:300-306 | version and stub size are stamped; the overlay table of the header is taken over, or the payload size written in front of the template's own; no other byte changes |
| Stubify.CopyBody | djstubify2.py:328-339 | the chunked loop writes exactly the given number of bytes when trimming, else all up to the end of the file, and ends in both cases |
| Stubify.ScanEnds | djstubify2.py:160-289 | the header loop ends if and only if it ends within file length plus two rounds, always with the same result |
| Stubify.RunsForEverExactly | djstubify2.py:160-289 | it runs for ever if and only if it comes back to a position |
| Stubify.AdvancingEnds | djstubify2.py:160-289 | it ends if no header in the file leads to itself or back |
| Stubify.EmptyImageLoops | djstubify2.py:261-268 | an image of length zero is read for ever |
| Stubify.BackPointerLoops | djstubify2.py:190-191 | two headers that point to each other, or one that points to itself, are read for ever |
| Stubify.ConvertAnyRounds | djstubify2.py:160-289 | the number of rounds granted does not show in the result |
| Containers.ContainerInBytes | djstubify2.py:168-286 | which files are read as stubbed executables with one header, byte by byte |
| Containers.WalkEnds | djstubify2.py:160-289 | on a stubbed executable the walk ends at the payload |
| Containers.OverlaysAgree | djstubify2.py:97-130 | files with the same table and tail agree on slot, size, place and bytes of every type |
| Containers.NamesAgree | djstubify2.py:198-209 | and on the name |
| Containers.RestubKeeps | djstubify2.py:298-339 | re-stubbing succeeds, keeps table and tail and the template's own code |
| Containers.RestubPreservesOverlays | djstubify2.py:291-339 | for every type, presence, size, place and bytes are the same before and after; so is the name |
| Containers.RestubAgain | djstubify2.py:298-339 | the last of several re-stubbings wins; twice with one template is once |
| Containers.StripIs | djstubify2.py:254-257 | the output of stripping: the cleared table over everything in front of the last overlay |
| Containers.StripKeeps | djstubify2.py:227-257 | size, place and bytes of every other overlay stay, the last is emptied, the length is stub plus the rest |
| Containers.StripKeepsName | djstubify2.py:257 | stripping keeps the name offset exactly if there are fewer than four overlays |
| Containers.StripWithoutDebug | djstubify2.py:227-257 | unless the first empty slot, or else the last one, is of type 4 or 5, `-s` does what re-stubbing does |
| Containers.StripWithoutTypes | djstubify2.py:216-225 | so does it with every executable without a type map |
| Containers.StripDecided | djstubify2.py:227-257 | if it is, for every file: failure with fewer than two overlays in front of the first empty slot, else the size that is cleared and the bytes that are kept |
| Containers.StripClearsExactly | djstubify2.py:254-257 | of two or more overlays that are not empty, `-s` clears the last size if and only if its type is a debug type |
| Containers.RawStripAgain | djstubify2.py:227-257 | stripping again fails with two overlays or less than a header left; otherwise it clears the size of the one before while its bytes stay |
| Containers.DjstripTwice | djstrip:7-11 | the script changes nothing the second time exactly if no other overlay is debug info, or there are two, or less than a header is left |
| Counterexamples.DjstripTwiceDiffers | djstrip:7-11 | a command line whose file the script changes twice |
| Containers.ListingIs | djstubify2.py:216-241 | `-i` lists the one payload of type 0 without a map, else the overlays in front of the first empty one, each with type, place and size |
| Payloads.RemoveIs | djstubify2.py:243-253 | extraction returns exactly the overlay of type 0, 1 or 3 as flags 0x80 and 0x2000 say, or the error, for every stubbed file |
| Payloads.NewFileReads | djstubify2.py:508-521 | what the header of a generated file says |
| Payloads.GenerateThenRead | djstubify2.py:508-540 | overlay i is found under its type with its own size, place and bytes; the fourth exactly if its size equals the name offset |
| Payloads.CommandLineGenerates | djstubify2.py:441-457 | every command line with one type per overlay generates such a file |
| Payloads.VersionOf | djstubify2.py:407-424 | which version a command line leads to |
| Payloads.GenerateThenRemove | djstubify2.py:243-253 | with version 8 requested, extraction from the generated file returns the overlay of type 1 or 3 that the flags on the command line select, byte for byte, or reports that there is none; otherwise the file is too old |
| Payloads.OneProgramComesBack | djstubify2.py:243-253 | a program linked by `-V 8 -f 0x80 -t 3`, or `-f 0x2080 -t 1`, comes back by `-r` |
| Payloads.GeneratedName | djstubify2.py:198-209 | which 20 bytes the name of a generated file is read from |
| Payloads.ListingTiles | djstubify2.py:227-241 | listed ranges follow each other without gap or overlap |
| Payloads.GeneratedTiles | djstubify2.py:217-241 | on a generated file they name every overlay and end at the end of the file |
| Payloads.BareIs | djstubify2.py:270-306 | what every mode does to a bare payload: listing, the payload itself, or the stubbed file that the next row gives byte by byte |
| Payloads.BareStubs | djstubify2.py:302-339 | stubbing a bare payload by offset: its size, version and stub size are written, the payload follows, every other byte is the template's |
| Payloads.BareRefused | djstubify2.py:161-303 | files shorter than a header and payloads of 4 GiB are refused |
| Payloads.StubThenRemove | djstubify2.py:243-253 | extraction undoes stubbing exactly if version and template table fit |
| Payloads.StubUnstub | djstubify2.py:294-306 | with an empty template table they are inverse for every payload |
| Payloads.StubThenRestub | djstubify2.py:270-286 | a stubbed payload is accepted again exactly if version and flags fit |
| Chains.ChainIs | djstubify2.py:261-268 | behind old MZ images, however many, a payload is converted as if it were bare |
| Chains.HeaderChainIs | djstubify2.py:160-306 | behind any mixture of old images and stubbed executables, however many, the last stubbed header counts and must fit the payload |
| Chains.HeaderChainListed | djstubify2.py:216-241 | and `-i` lists the overlays of all of them in order |
| Chains.StripKeepsSize | djstubify2.py:254-257 | stripping one stubbed executable behind the header of another keeps as many bytes as the first header says, under the table of the second |
| Chains.LengthEncodes | djstubify2.py:262-268 | blocks and last-block size encode every length |
| Memory.FarMemCpy | src/util.c:35-65 | whole words into the segment, modulo 2^32, and nothing else |
| Memory.FarMemSet | src/util.c:67-97 | the same for a fill |
| Memory.LongRead | src/util.c:99-119 | under arbitrary short reads: memory gets the bytes read and, for an odd number, the stale byte of the page buffer behind them; exact reads stop only at the end of the file |
| Memory.LoadedBytes | src/util.c:99-119 | byte by byte: the bytes read are in place, one byte behind an odd number may change, all others stay |
| Elf.LoadSegment | src/elf.c:133-145 | one segment is one block of file bytes and zeros: the fill covers the byte that the read wrote too many |
| Segments.AscendingLoadsRight | src/elf.c:127-146 | segments in ascending order, adjacent or not, end up right, and nothing else changes but at most one byte behind a segment |
| Segments.LoadIsRightExactly | src/elf.c:127-146 | for segments in any order that share no address: all are right whatever the page buffers hold at first, exactly if each segment that spills onto the start of an earlier one is harmless |
| Segments.RightExactlyWith | src/elf.c:127-146 | the same for given page buffers |
| Counterexamples.DescendingClobbers | src/elf.c:127-146 | an ELF file with its table in descending order that is loaded wrong |
| Segments.OrderDoesNotMatter | src/elf.c:127-146 | with a byte between any two segments every order can be loaded and leaves the same contents |
| Segments.LastToucher | src/elf.c:127-146 | the last segment that touches an address decides on its byte |
| Segments.Untouched | src/elf.c:127-146 | addresses that no segment touches keep their byte |
| Elf.ReadElfHeaders | src/elf.c:45-101 | the plan that the headers describe, or a refusal |
| Elf.AcceptsExactly | src/elf.c:52-87 | which payloads are accepted, byte by byte: mark, class, header sizes, whole table, alignments |
| Elf.PlanInBytes | src/elf.c:74-100 | from which bytes entry point and segments are taken |
| Elf.Measure | src/elf.c:80-99 | the loop over the program headers, with its alignment check |
| Elf.ReadElfSections | src/elf.c:121-148 | memory after all segments, or failure exactly if one is not in the file |
| Elf.ElfLoadsRight | src/elf.c:127-146 | with ascending segments every address gets its byte from the file, or zero behind the bytes in the file |
| Elf.ExtentIsTight | src/elf.c:80-99 | the extent is the tightest interval over the loaded segments exactly if no segment is at zero or the last one is |
| Counterexamples.SegmentAtZeroForgotten | src/elf.c:88-89 | an ELF file with two pages of which the extent covers one; the other is loaded in front of the block |
| Formats.ElfReadsBack | src/elf.h:42-98 | a file laid out as the structures say is read back, extent included; other alignments are refused |
| Formats.ElfFileReads | src/elf.h:42-98 | any table of page-aligned segments can be had in a file |
| Formats.CoffReadsBack | src/coff.c:34-66 | the same for COFF files |
| Coff.Loader.ReadCoffHeaders | src/coff.c:91-132 | the plan that the headers describe, and the section table filled |
| Coff.AcceptsExactly | src/coff.c:98-119 | which payloads are accepted, byte by byte |
| Coff.PlanInBytes | src/coff.c:127-131 | from which bytes entry point, sections and extent are taken |
| Coff.Loader.ReadSection | src/coff.c:77-89 | one section in memory, or failure |
| Coff.Loader.ReadCoffSections | src/coff.c:151-160 | memory after text, data and bss |
| Coff.CoffLoadsRight | src/coff.c:77-160 | at ascending addresses every byte of text, data and bss is right, odd sizes included |
| Loader.SearchEnds | src/stub.c:153-194 | the loader's header loop ends if and only if it ends within file length plus two rounds |
| Loader.RunsForEverExactly | src/stub.c:153-194 | it runs for ever if and only if it comes back to a position |
| Loader.AdvancingEnds | src/stub.c:153-194 | it ends if no header in the file leads to itself or back |
| Loader.BackPointerLoops | src/stub.c:162-169 | two headers that point to each other, or one that points to itself, are read for ever |
| Loader.LoadAnyRounds | src/stub.c:153-194 | the number of rounds granted does not show in what is loaded |
| Loader.Stub.FindPayload | src/stub.c:153-194 | the header loop: slots and kind of the payload, or none |
| Loader.Stub.ReadSlots | src/stub.c:164-175 | the sizes of the three slots, and behind slots that are not empty the places that stub size and earlier sizes add up to, modulo 2^32 |
| Loader.Stub.LoadAt | src/stub.c:196-202 | headers and sections by the operations chosen |
| Loader.Stub.FullStub | src/stub.c:135-393 | memory, entry point, base and slots after the whole loader, or failure |
| Loader.PageAlignRounds | src/util.h:6-13 | rounding up to pages, and the wrap-around of the last page |
| Loader.MaskClears | src/util.h:9-13 | bit by bit, the rounded number is the sum without its lowest twelve bits |
| Placement.StaysInsideExactly | src/stub.c:225-274 | every write lands in the allocated block, under the exact condition |
| Counterexamples.SpillBehindBlock | src/stub.c:225-274 | an ELF file whose loading writes behind the block |
| Placement.OutsideUnchanged | src/stub.c:256-274 | linear memory outside the block, but for one byte, stays |
| Placement.ElfIsPlaced | src/elf.c:80-99 | ELF payloads without a segment at zero meet the condition of the placement theorems |
| Placement.CoffIsPlaced | src/coff.c:127-137 | COFF payloads with ascending sections do |
| EndToEnd.SearchInBytes | src/stub.c:153-194 | the loader's search byte by byte: slots, modulo 2^32, and the kind of payload by its first bytes |
| EndToEnd.ReadersAgree | src/stub.c:167-175 | slots and lookups by type agree in size always, in place exactly if no earlier overlay is empty |
| EndToEnd.GeneratedSlots | src/stub.c:387-393 | on a generated file the loader finds every overlay where the tool put it |
| EndToEnd.GeneratedLoads | src/stub.c:153-202 | from a generated file the loader loads what it loads from overlay 0 alone |
| EndToEnd.GeneratedProgramInMemory | src/stub.c:385 | every address of overlay 0's segments holds its byte of the overlay, wherever the block is |
| EndToEnd.ElfProgramInMemory | src/elf.c:127-146 | for an ELF program in its bytes: every address of an entry of its table holds its byte of the program, or zero |
| EndToEnd.CoffProgramInMemory | src/coff.c:151-160 | for a COFF program in its bytes: every address of text, data and bss, counted from the block |
| EndToEnd.LoadsLikePayload | src/stub.c:153-202 | loading behind a stub is loading the payload as a file of its own, if no seek wraps around |
| EndToEnd.RestubLoadsTheSame | djstubify2.py:298-339 | memory image, entry point, extent and segments are the same after re-stubbing with any template, for every payload that loads from a file of its own, and for all others unless a seek wraps around |
| Counterexamples.WrappedSeekReadsStub | src/elf.c:70-74 | a payload that is loaded differently behind two templates, since the seek to its table wraps around into the stub |
| EndToEnd.StripLoadsTheSame | djstubify2.py:254-257 | what is loaded of a payload that loads from a file of its own is the same after stripping exactly if its tables and the bytes of its segments lie in front of the overlay cut off |
| Environment.CountVariables | src/ministub.c:92-103 | the first pass counts the starts in front of the end of any block |
| Environment.StoreVariables | src/ministub.c:106-120 | the second pass stores them in order and fills the vector exactly |
| Environment.SplitEnvironment | src/ministub.c:92-120 | both passes together, with the closing null pointer |
| Environment.BlockSplits | src/ministub.c:92-120 | for every list of strings that is not empty: its count, and where each string starts |
| Environment.EnvSize | src/stub.c:208-216 | the size stored is that of the block, count word and program name, exactly if there is a variable and it is below 64 KiB; what it is otherwise |
| Environment.BlockEnd | src/ministub.c:92-98 | where the block ends, with and without variables |

## Left out

- Loader.Stub.FullStub: the search of the environment for ELFEXEC and the other file it names are a parameter; descriptors, the low-memory pool, the DPMI switch and the jump are not modelled; the address of the block is a parameter and a segment base reads back as set; the version, the flags word, the names and the minimum sizes in the stub information are not kept.
- Memory.LongRead: a read that returns an error code is not modelled; reads may be cut short in any way.
- Memory.FarMemCpy: the byte order of the copy within one call does not matter and is not modelled; a transfer across the end of the address space wraps around.
- Stubify.Tool.Coff2Exe: opening, moving and deleting files and printing are not modelled; listings are kept as type, place and size; the name is looked up in the theorems but not printed; a template of 4 GiB or more is excluded.
- Stubify.CopyBody: the cut of a chunk that is longer than what is left is not there, since a chunk never is.
- Options.ParseOptions: the arguments come split into options; an option or a number for `-n` or `-f` that Python rejects, and the checks of `main` behind the loop (template given, output named, program named), are not modelled.
- Generator.Generate: the contents of a file do not change between taking its size and copying it, and no file fails to open.
- EndToEnd.RestubLoadsTheSame: both files are below 4 GiB; of a payload that does not load from a file of its own, no seek of the loader for something to read wraps around. A wrapped seek reads bytes of the stub, and whether the loads differ then depends on them (`Counterexamples.WrappedSeekReadsStub`).
- EndToEnd.StripLoadsTheSame: both files are below 4 GiB.
- The branches for GNU C, the `-i` text, identification of ELF machines, the scripts djlink and djelfextract, and packaging.
- Relocation of low memory in `dpmi_init`: calls to the server with one inequality between them.
