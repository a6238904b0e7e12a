# ELF rewriting and package records

A Dafny model of the parts of this repository that transform data in ways a reader cannot check by
eye, with proofs of what they promise.

**The ELF rewriter** (`contrib/patchelf/src/patchelf.cc`).  `PatchElf.ElfFile` is the program's class:
one growable byte buffer, the two header vectors, the section-name table and the map of staged
section bodies, with the source's methods as Dafny methods.  Each method is tied to a function or
relation on values (`Elf`, the state as a value), and the theorems are about those:

- `Bytes`, `Codec`, `ElfTypes`, `Rounding`, `Staging`, `Sorting`: bytes and splices, integers of either
  byte order, headers of both classes, 32-bit rounding, the name-ordered map, `std::sort`.
- `Elf`, `Links`, `Placement`, `Tables`, `Steps`: the state and its well-formedness, and the steps of a
  rewrite: sorting section headers, writing staged bodies, storing tables, editing `.dynamic`, shifting.
- `Relayout`, `Layout`: one description of "sections moved, headers not yet rewritten" that both the
  executable and the library layout meet.
- `Memory`, `Loading`, `Agreement`, `Congruence`: what the rewritten file loads, where the new parts
  load, that all headers describe the file again, and that segments stay mappable.
- `Parsing`, `Reparse`, `Outcomes`: reading the result back.
- `RPath`, `RPathSteps`, `RPathRun`, `Shrink`: the library search path, alone and through a rewrite.
- `Program`: a whole run, from the bytes of a file to the bytes that are left.
- `Abi`, `Fields`, `Entries`, `Contents`, `Success`: the same results in the numbers of the System V ABI,
  independently of the definitions that the model computes with: where header fields are, what every
  header field, segment, dynamic entry and byte of a rewritten file is, and when a rewrite succeeds.

**The package records** (`src/database-internal.vala`, `src/dependency.vala`).  `AppDb` is the table
state machine of applications, dependencies and associations with the register directory beside it,
`FileList` the file-list text, `InstallData` the install-data text; `Splitting` is the string splitting
all of them share.

A file is well formed (`Elf.WellFormed`) when its counts agree with the ELF header, both tables are
inside the file and apart, section 0 is the only one at offset 0 and links to nothing, section names
are distinct, links are in range, and the bodies that occupy file space are in the file, disjoint, and
apart from all headers.  `Layout.LibraryReady` and `Layout.ExecReady` add what each layout relies on:
sizes that 32-bit rounding can hold, addresses that fit the class, staged sections that exist and have
file contents, a dynamic table that ends inside its section, and for executables a program header
table directly behind the ELF header and no section without file contents where the scan reaches it.
`Sample` is a small file of either type, with an interpreter, a dynamic table and a search path: it
meets all of this, parses to its own state, is rewritten successfully with a new interpreter
(executables with and without a shift), and may have its path set, with or without a new interpreter
in the same run.  Failed assertions and calls of `error` are failure results.

Where the source's comments and its code differ, the model follows the code: `add_application` is
described as associating the item's dependencies, but loops over the stored row's own list, and
sortPhdrs is described as sorting by offset, but compares physical addresses.

## Model

| member | source | states |
|---|---|---|
| Codec.Rdi | contrib/patchelf/src/patchelf.cc:157-183 | the byte-picking loop of rdi, for either file order on either host, computes the value that the bytes in memory have in the file's order |
| Codec.RdiInvolution | contrib/patchelf/src/patchelf.cc:144-183 | for every width and every pair of byte orders rdi undoes itself, so rdi after wri returns any value that fits |
| Codec.WriStoresFileOrder | contrib/patchelf/src/patchelf.cc:144-154 | what wri leaves in memory is the value in the file's byte order whatever the host, so a header struct may be copied to the file as it is |
| Abi.TwoBytes | contrib/patchelf/src/patchelf.cc:144-183 | the low byte comes first in a little-endian file and last in a big-endian one |
| ElfTypes.EhdrRoundTrip | contrib/patchelf/src/patchelf.cc:253-263 | an ELF header whose fields fit reads back from its encoding, for both classes and byte orders |
| ElfTypes.PhdrRoundTrip | contrib/patchelf/src/patchelf.cc:271-272 | likewise a program header, whose flags field sits at a different place in each class |
| ElfTypes.ShdrRoundTrip | contrib/patchelf/src/patchelf.cc:274-275 | likewise a section header |
| ElfTypes.DynRoundTrip | contrib/patchelf/src/patchelf.cc:742-746 | likewise a dynamic entry |
| Abi.EhdrAt | contrib/patchelf/src/patchelf.cc:253-263 | each field of the ELF header is the number at its offset in the ABI, for both classes |
| Abi.PhdrAt | contrib/patchelf/src/patchelf.cc:271-272 | likewise a program header, p_flags at offset 24 or 4 by class |
| Abi.ShdrAt | contrib/patchelf/src/patchelf.cc:274-275 | likewise a section header |
| Abi.DynAt | contrib/patchelf/src/patchelf.cc:742-746 | likewise a dynamic entry |
| Rounding.RoundUpIsLeastMultiple | contrib/patchelf/src/patchelf.cc:364-367 | for an m dividing 2^32 the 32-bit roundUp is the least multiple at or above n if and only if n <= 2^32 - m, n = 0 included |
| Rounding.RoundUpAtEnd | contrib/patchelf/src/patchelf.cc:364-367 | in the last m values below 2^32, and at 0, the product wraps to 0 |
| Sorting.Sort | contrib/patchelf/src/patchelf.cc:294-300 | std::sort seen from outside: some rearrangement of the input, given as a bijection both ways, whose keys ascend |
| PatchElf.ElfFile.SortShdrs | contrib/patchelf/src/patchelf.cc:304-343 | sorting through the name maps leaves the headers in order of offset, every sh_link, every relocation sh_info and e_shstrndx renumbered by the same permutation, and the rest of the file as it was |
| Links.LinksFollowSections | contrib/patchelf/src/patchelf.cc:304-343 | for every sorted rearrangement each section keeps its place and contents, and what its link and relocation target name is the section they named before |
| Links.NullStaysFirst | contrib/patchelf/src/patchelf.cc:304-343 | whatever the sort does among equal offsets the null section stays at index 0 and is the only one at offset 0 |
| Links.OrderedStays | contrib/patchelf/src/patchelf.cc:304-343 | sections already in strict order of offset are left where they are, links included, whatever the sort |
| Links.SortKeepsWellFormed | contrib/patchelf/src/patchelf.cc:304-343 | sorting keeps the whole file well formed |
| PatchElf.ElfFile.FindSection3 | contrib/patchelf/src/patchelf.cc:440-445 | the first section from index 1 on with the name, or 0 |
| Staging.PutGet | contrib/patchelf/src/patchelf.cc:60-62 | assignment into the name-ordered map: the new body is found, every other name is as before, the order is kept |
| Staging.LessIs | contrib/patchelf/src/patchelf.cc:57-60 | the order of the map is that of std::string: at the first difference the smaller byte, or the end, comes first |
| PatchElf.ElfFile.ReplaceSection | contrib/patchelf/src/patchelf.cc:449-466 | stages the section's current or already staged body at the new size, and fails only where there is neither |
| PatchElf.ElfFile.GrowFile | contrib/patchelf/src/patchelf.cc:208-215 | the file grows by zeros, or fails above maxSize |
| PatchElf.ElfFile.EraseOld | contrib/patchelf/src/patchelf.cc:473-482 | every byte of every old place of a staged section becomes X and no other byte changes |
| PatchElf.ElfFile.WriteReplacedSections | contrib/patchelf/src/patchelf.cc:470-527 | each staged body is at the running offset, its header and its PT_INTERP or PT_DYNAMIC segment describe it there, the final offset is the sum of the rounded sizes, and the map is empty |
| Placement.PlacedBytes | contrib/patchelf/src/patchelf.cc:470-527 | byte for byte: a new body holds what was staged even where it overlaps an erased place, an abandoned place holds X, every other byte is unchanged |
| Placement.PhdrPlaced | contrib/patchelf/src/patchelf.cc:500-521 | PT_INTERP and PT_DYNAMIC follow their sections exactly when those are placed; no other segment changes |
| Placement.NewBodiesApart | contrib/patchelf/src/patchelf.cc:484-525 | new bodies are pairwise disjoint and inside the space reckoned for them |
| Placement.NewBodiesAligned | contrib/patchelf/src/patchelf.cc:493-525 | new bodies start at multiples of the section alignment in the file and in memory when the area does |
| Congruence.LibraryStagedAligned | contrib/patchelf/src/patchelf.cc:548-582 | in a rewritten library every staged body starts behind the program header table and is aligned in offset and address, for both classes |
| Congruence.ExecStagedAligned | contrib/patchelf/src/patchelf.cc:654-693 | the same for executables, shifted or not |
| PatchElf.ElfFile.ShiftFile | contrib/patchelf/src/patchelf.cc:371-411 | the whole file is moved up by whole pages behind its ELF header, every offset and the header fields with it, and a segment mapping the new front is appended; fails above maxSize |
| Steps.ShiftedFile | contrib/patchelf/src/patchelf.cc:371-411 | every old byte is found at its shifted offset, the gap is zero, and the header counts one more program header |
| PatchElf.ElfFile.DecideShift | contrib/patchelf/src/patchelf.cc:661-673 | no shift when the bodies fit; otherwise whole pages for the rest and one more program header, or failure when the addresses below do not suffice |
| Layout.ShiftMakesRoom | contrib/patchelf/src/patchelf.cc:661-679 | the decided shift is a whole number of pages and leaves the room that the bodies and the larger table need |
| Layout.ShiftIsLeast | contrib/patchelf/src/patchelf.cc:661-670 | no smaller number of pages would make that room |
| PatchElf.ElfFile.RewritePhdrs | contrib/patchelf/src/patchelf.cc:718-732 | PT_PHDR is set to describe the table, the segments are sorted by CompPhdr, and the table is stored |
| PatchElf.ElfFile.StoreShdrs | contrib/patchelf/src/patchelf.cc:736-740 | section headers 1 on are stored; the null header in the file is left alone |
| Tables.WritePhdrsReads | contrib/patchelf/src/patchelf.cc:731-732 | the stored program header table reads back and nothing outside it changes |
| Tables.WriteShdrsReads | contrib/patchelf/src/patchelf.cc:739-740 | the stored section header table reads back, with the null header that was there, and nothing outside it changes |
| PatchElf.ElfFile.UpdateDynamic | contrib/patchelf/src/patchelf.cc:743-783 | the loop edits each entry before DT_NULL and fails exactly when one calls for a section that does not exist |
| Tables.EditDynsReads | contrib/patchelf/src/patchelf.cc:746-783 | each entry holds the address or size its tag calls for, other entries and every other byte are unchanged, and no tag changes |
| Tables.EditForTag | contrib/patchelf/src/patchelf.cc:748-782 | a tag gets what its branch says of the first existing one of its sections, and is kept when it has no branch |
| PatchElf.ElfFile.RewriteHeaders | contrib/patchelf/src/patchelf.cc:718-783 | all of rewriteHeaders as one step, table, sorted sections and dynamic entries; fails exactly when an entry calls for a section that does not exist |
| Steps.HeadersResolve | contrib/patchelf/src/patchelf.cc:746-782 | whether every entry finds its section does not change on the way through table, sorting and storing |
| Steps.HeadersKeep | contrib/patchelf/src/patchelf.cc:718-783 | after rewriteHeaders the file is well formed and both tables in it are the ones in memory |
| Steps.HeadersBytes | contrib/patchelf/src/patchelf.cc:718-783 | and no byte outside the headers and the entries before DT_NULL has changed |
| PatchElf.ElfFile.FindLastStaged | contrib/patchelf/src/patchelf.cc:594-602 | the last section, in order of offset, that is staged |
| PatchElf.ElfFile.Scan | contrib/patchelf/src/patchelf.cc:613-636 | stages exactly the sections in the way, up to the first one that cannot move or the one after .dynstr |
| Layout.StageUpToAdds | contrib/patchelf/src/patchelf.cc:616-636 | what the caller staged is kept, everything before the boundary is staged with the body it has, and nothing else is |
| Layout.NobitsBehindBoundary | contrib/patchelf/src/patchelf.cc:613-636 | a section without file contents that lies behind .dynstr, behind an immovable section, or behind everything staged is never reached by the scan, however the sort orders equal offsets |
| Layout.ScanFrame | contrib/patchelf/src/patchelf.cc:594-649 | after the scan every section is staged or lies at or above the boundary offset, and every byte of a kept body does |
| PatchElf.ElfFile.FillFront | contrib/patchelf/src/patchelf.cc:682-690 | clearing and refilling the front carries every kept byte, places every body, and ends at the space reckoned, which is at most the boundary |
| PatchElf.ElfFile.RewriteSectionsExecutable | contrib/patchelf/src/patchelf.cc:587-694 | sorted, scanned to the boundary, shifted or not, refilled, headers rewritten; succeeds exactly when the assertions on the boundary hold, the addresses below and maxSize allow the shift, and no dynamic entry calls for a missing section |
| Relayout.RelaidWellFormed | contrib/patchelf/src/patchelf.cc:531-694 | moving the sections, by either layout, gives a well-formed file again: bodies in the file, disjoint from each other and from all headers |
| Relayout.RelaidReady | contrib/patchelf/src/patchelf.cc:531-694 | and one whose null header and dynamic table, staged or kept, are where rewriteHeaders looks for them |
| PatchElf.ElfFile.FindLastPage | contrib/patchelf/src/patchelf.cc:537-541 | the largest of the segments' ends, each rounded up to a page in 32 bits, wherever the segments are |
| Layout.LastPageAbove | contrib/patchelf/src/patchelf.cc:533-541 | that page is a multiple of the page size, and no segment reaches it if and only if none ends above 2^32 minus a page, where the rounding wraps |
| Layout.LastPageLeast | contrib/patchelf/src/patchelf.cc:533-541 | and it is the first such page |
| PatchElf.ElfFile.FillNewArea | contrib/patchelf/src/patchelf.cc:573-580 | the new area holds table and bodies, everything else stays, and the last offset is startOffset + neededSpace |
| PatchElf.ElfFile.RewriteSectionsLibrary | contrib/patchelf/src/patchelf.cc:531-583 | extended by one area on the first page boundaries past file and segments, filled, headers rewritten; succeeds exactly when the grown file is within maxSize and no dynamic entry calls for a missing section |
| PatchElf.ElfFile.RewriteSections | contrib/patchelf/src/patchelf.cc:698-714 | nothing when nothing is staged, else the layout for the file's type with exactly its conditions for success, and failure for any other type |
| Memory.ImagePreserved | contrib/patchelf/src/patchelf.cc:531-694 | for both layouts, at every address whose bytes come from kept parts of the file and which no added segment covers, exactly the same byte is loaded before and after |
| Memory.ExecImagePreserved | contrib/patchelf/src/patchelf.cc:587-694 | executables, shifted or not: at or above the boundary address everything outside moved bodies, section headers and .dynamic loads as before |
| Loading.ExecStagedLoaded | contrib/patchelf/src/patchelf.cc:587-694 | at the address a staged section's header records exactly its final body is loaded, also across the new and the old segment; but for the edited entries of .dynamic it is the staged body |
| Loading.ExecTableLoaded | contrib/patchelf/src/patchelf.cc:654-693 | at the address given to PT_PHDR exactly the program header table is loaded |
| Memory.ExecFrontExact | contrib/patchelf/src/patchelf.cc:587-694 | the front in memory, up to the boundary, is exactly the front of the file, byte for byte and nothing else |
| Loading.NewSegmentApart | contrib/patchelf/src/patchelf.cc:533-541 | no segment of a library reaches into the new one |
| Loading.LibraryImagePreserved | contrib/patchelf/src/patchelf.cc:531-583 | libraries: outside the new segment every byte that was not rewritten loads as before |
| Loading.LibraryAreaExact | contrib/patchelf/src/patchelf.cc:548-583 | inside the new segment exactly the bytes of the new area are loaded, and no others |
| Loading.LibraryStagedLoaded | contrib/patchelf/src/patchelf.cc:573-583 | at the address a staged section's header records exactly its final body is loaded, .dynamic included; but for its edited entries it is the staged body |
| Loading.LibraryTableLoaded | contrib/patchelf/src/patchelf.cc:560-582 | at the address given to PT_PHDR exactly the relocated program header table is loaded |
| Loading.KeptSectionLoaded | contrib/patchelf/src/patchelf.cc:531-694 | a section that is not staged, .dynamic with its edited entries included, and that its segment loaded at the address its header records, is loaded there as it finally is |
| Agreement.SectionAfter | contrib/patchelf/src/patchelf.cc:470-527 | after a rewrite every section exists as before, at its new spot if it was staged and else moved with the file |
| Fields.SectionAfterRun | contrib/patchelf/src/patchelf.cc:470-527 | after a run a section of any name has the name, type, flags and entry size it had; if staged it is aligned to 4 or 8 by class and has its body's size, else it keeps alignment, address and size and moves with the file |
| Fields.SectionsInOrder | contrib/patchelf/src/patchelf.cc:304-343 | the final section headers are in order of offset, the null section first and unchanged |
| Fields.LinksAfterRun | contrib/patchelf/src/patchelf.cc:304-343 | through all sorting of a run each section stays linked to the section it was linked to, and types 4 and 9 relocate the one they did |
| Fields.SegmentsAfterRun | contrib/patchelf/src/patchelf.cc:371-411 | the final segments are the old ones and the one added: types and flags kept; alignment kept, or a page when a shift breaks it; PT_PHDR in front describes the table, PT_INTERP and PT_DYNAMIC their staged sections, every other keeps both addresses and sizes and moves with the file; the added one is readable and writable at the new area or the new front pages |
| Fields.SegmentsInOrder | contrib/patchelf/src/patchelf.cc:88-98 | PT_PHDR comes first and all other segments ascend in physical address |
| Fields.LoadsInOrder | contrib/patchelf/src/patchelf.cc:720-732 | so if loadable segments had equal virtual and physical addresses they end ascending in virtual address, the added one included |
| Fields.HeaderAfterRun | contrib/patchelf/src/patchelf.cc:371-411 | the ELF header keeps every field but e_phoff, e_shoff and e_phnum, which are given, and e_shstrndx, which names the same section |
| Agreement.FollowersAfter | contrib/patchelf/src/patchelf.cc:500-521 | PT_INTERP and PT_DYNAMIC match their sections' offset, address and size afterwards if they did before or the section was staged |
| Agreement.PhdrEntryAfter | contrib/patchelf/src/patchelf.cc:720-729 | the PT_PHDR entry describes the rewritten table and is the first and only one again |
| Agreement.DynamicAfter | contrib/patchelf/src/patchelf.cc:742-783 | every dynamic entry before DT_NULL is the one before the rewrite, staged or in the file, edited for the final sections; the DT_NULL entry is unchanged |
| Agreement.DynamicStillReady | contrib/patchelf/src/patchelf.cc:742-783 | the final dynamic table ends at the same entry inside its section, so the file can be rewritten again |
| Entries.DynamicEntryAfterRun | contrib/patchelf/src/patchelf.cc:742-783 | over a whole run the dynamic table keeps its entries and tags up to the same DT_NULL; by tag number each entry holds the final address or size of the section of that name, DT_JMPREL and DT_REL of the first that exists of theirs, and any other is unchanged |
| Contents.ByteAfterRun | contrib/patchelf/src/patchelf.cc:470-694 | every byte of the final file behind the ELF header and outside tables and new bodies: 'X' where a staged section was, the old byte from the boundary on, zero anywhere else |
| Contents.StagedInOrder | contrib/patchelf/src/patchelf.cc:485-526 | the staged sections lie behind the program header table in order of name, each where the last one ends rounded up to 4 or 8, addresses running alongside offsets |
| Contents.LibraryGrows | contrib/patchelf/src/patchelf.cc:548-580 | a library grows from the first page boundary behind its end to exactly the end of the last staged section |
| Contents.ExecGrows | contrib/patchelf/src/patchelf.cc:639-676 | an executable grows by no page if everything ends before the boundary, and else by the fewest pages after which, with one more program header, it does |
| Contents.BodyAfterRun | contrib/patchelf/src/patchelf.cc:587-694 | a section with file contents that the caller did not stage has the body it had, moved or not |
| Success.StagedByRun | contrib/patchelf/src/patchelf.cc:598-634 | the boundary is the section behind the last staged one, or an earlier one that cannot move or follows .dynstr, with none such before it; exactly the sections before it are staged besides the caller's |
| Success.FixedStays | contrib/patchelf/src/patchelf.cc:605-630 | a SHT_PROGBITS section other than .interp that the caller did not stage keeps its address |
| Success.LibrarySucceeds | contrib/patchelf/src/patchelf.cc:531-583 | a library's rewrite succeeds if and only if the grown size, in numbers, is within maxSize and every tag finds its section |
| Success.ExecSucceeds | contrib/patchelf/src/patchelf.cc:587-694 | an executable's if and only if the last section is not staged and some other is, address and offset of the boundary agree within the page, the section headers are not before it, there are addresses below for the pages needed, maxSize allows them, and every tag finds its section |
| Congruence.ShiftCongruent | contrib/patchelf/src/patchelf.cc:390-399 | shiftFile keeps p_vaddr and p_offset congruent modulo p_align, and the alignment becomes the page size exactly when the shift is no multiple of it |
| Congruence.TestIsCongruence | contrib/patchelf/src/patchelf.cc:392-393 | the program's test in wrapping Elf_Addr arithmetic is that congruence |
| Congruence.LibraryCongruent | contrib/patchelf/src/patchelf.cc:531-583 | if every segment is congruent then after rewriteSectionsLibrary every segment is, the new one included |
| Congruence.ExecCongruent | contrib/patchelf/src/patchelf.cc:587-694 | the same for rewriteSectionsExecutable, shifted or not |
| PatchElf.ElfFile.Parse | contrib/patchelf/src/patchelf.cc:246-290 | reads headers, tables and section names, or fails in the cases parse rejects |
| Parsing.ParsesExactly | contrib/patchelf/src/patchelf.cc:246-290 | exactly which files parse, in numbers: magic, class, version, type, size of the program headers, places of the tables, and the section-name table; byte 5 other than 1 means big-endian |
| Parsing.ParseYields | contrib/patchelf/src/patchelf.cc:246-290 | a file that describes itself and holds its tables parses to exactly the state it was stored from |
| Parsing.ParsedAgrees | contrib/patchelf/src/patchelf.cc:246-290 | conversely, what parse returns agrees with the file in tables, counts, class, byte order, type and names |
| Reparse.SectionBodyAfter | contrib/patchelf/src/patchelf.cc:531-694 | after a rewrite the body of every section but .dynamic is its staged string or its old bytes |
| Reparse.DynamicSectionAfter | contrib/patchelf/src/patchelf.cc:742-783 | of the body of .dynamic, staged or not, nothing but the entries before DT_NULL is changed |
| Reparse.ReparseRoundTrip | contrib/patchelf/src/patchelf.cc:246-290 | the rewritten file parses to exactly the headers, tables and names held in memory |
| Outcomes.RunParsesBack | contrib/patchelf/src/patchelf.cc:698-714 | so does the result of any successful rewriteSections, sorted and scanned or extended |
| Outcomes.StagedReadsBack | contrib/patchelf/src/patchelf.cc:698-714 | and every section the caller staged, .dynamic apart, reads back as it was staged |
| Outcomes.RunKeepsCongruence | contrib/patchelf/src/patchelf.cc:698-714 | and congruent segments stay congruent |
| PatchElf.ElfFile.GetInterpreter | contrib/patchelf/src/patchelf.cc:796-800 | the body of .interp, or an error without one |
| PatchElf.ElfFile.SetInterpreter | contrib/patchelf/src/patchelf.cc:804-809 | stages the new name with its NUL as the whole body of .interp |
| PatchElf.ElfFile.PatchInterpreter | contrib/patchelf/src/patchelf.cc:1001-1025 | set, rewrite, parse again, read: the state in memory, and the new name with its NUL; succeeds exactly when there is an .interp and the rewrite succeeds |
| Reparse.InterpreterReadsBack | contrib/patchelf/src/patchelf.cc:796-809 | a staged interpreter is what getInterpreter reads from the rewritten file |
| PatchElf.ElfFile.WalkDynamic | contrib/patchelf/src/patchelf.cc:863-880 | finds the last DT_RPATH and DT_RUNPATH, the path in force, and appends every needed library |
| RPath.PathInForce | contrib/patchelf/src/patchelf.cc:863-880 | the path in force is that of the last entry with tag 29, or else of the last with tag 15 |
| RPath.NeededInOrder | contrib/patchelf/src/patchelf.cc:878-880 | the needed libraries are the strings of the entries with tag 1, in order |
| RPath.StringTableAt | contrib/patchelf/src/patchelf.cc:830-837 | the string table's address is the value of the last entry with tag 5, or 0 |
| PatchElf.ElfFile.StorePath | contrib/patchelf/src/patchelf.cc:926-987 | blanks the old path, converts the tags, and stores the new path in place, in a grown .dynstr, or with a new entry on top of a grown .dynamic |
| PatchElf.ElfFile.ModifyRPath | contrib/patchelf/src/patchelf.cc:820-988 | fails on a missing section or a foreign DT_STRTAB; printing changes nothing, setting stores the path given and shrinking the shrunk path in force, and the file counts as changed exactly if that is another path |
| RPathSteps.PathAllowedIs | contrib/patchelf/src/patchelf.cc:820-837 | the operation goes ahead exactly if both sections exist and the last entry with tag 5 is not 0 and holds the address of .dynstr |
| RPath.SetReadsBack | contrib/patchelf/src/patchelf.cc:926-987 | for every table whose path strings end in it, the path set is the path in force afterwards if and only if not another entry comes into force to which it was not written, whose string, as far as overwriting the old path leaves it, is not the path either |
| RPath.MisdirectedIsForced | contrib/patchelf/src/patchelf.cc:943-952 | that takes force, a DT_RPATH and a DT_RUNPATH |
| RPath.ForcedMisdirects | contrib/patchelf/src/patchelf.cc:943-952 | a table on which forcing does go wrong, and on which not forcing is right |
| RPath.SetKeepsEntries | contrib/patchelf/src/patchelf.cc:937-987 | all other dynamic entries keep their order, tags and values, behind the new entry if one is added |
| RPath.SetEntries | contrib/patchelf/src/patchelf.cc:937-987 | every entry once a path is set, by tag number: a new first entry 15 or 29 if there was no path, a lone 15 becomes 29 unless forced, a 29 beside a 15 is made to be ignored if forced, a longer path is named by the last of either kind, and nothing else changes |
| RPath.SetStringsRead | contrib/patchelf/src/patchelf.cc:926-964 | what any string of the table reads afterwards, also one that shares bytes with the old path: a tail of the new path, its start and the new path, 'X's, or what it read |
| RPath.SetKeepsStrings | contrib/patchelf/src/patchelf.cc:926-964 | every string that shares no byte with the old path reads the same |
| RPath.SetBlanksOld | contrib/patchelf/src/patchelf.cc:926-964 | no byte of the old path is left where it was: each is the new path's, or an 'X' |
| RPathSteps.WithFirstHolds | contrib/patchelf/src/patchelf.cc:974-986 | the grown .dynamic holds the new entry and then the old table with its DT_NULL |
| RPathRun.RunKeepsPath | contrib/patchelf/src/patchelf.cc:698-783 | whatever path and needed libraries a state with its staged sections has, the rewritten file has too |
| RPathRun.RunKeepsDynamicBody | contrib/patchelf/src/patchelf.cc:698-783 | the same over a whole run, also where the scan stages .dynamic |
| RPathRun.SetPathSurvives | contrib/patchelf/src/patchelf.cc:820-988 | setting a path and rewriting the file reads back from the result, with the same if-and-only-if, and the result needs the same libraries if and only if each name still reads the same where the old path was overwritten |
| RPathRun.SetKeepsNeeded | contrib/patchelf/src/patchelf.cc:926-987 | setting a path keeps the list of needed libraries if and only if each of their strings, as far as overwriting the old path leaves it, is what it was |
| RPathRun.ApartIsKept | contrib/patchelf/src/patchelf.cc:926-964 | which holds when no needed library's string shares a byte with the old path |
| RPathRun.ShrinkSurvives | contrib/patchelf/src/patchelf.cc:883-988 | shrinking the path and rewriting the file: every needed library is first found where it was, if and only if that was not an empty entry of which none survives |
| RPathRun.PathParses | contrib/patchelf/src/patchelf.cc:820-988 | and a file that held its own headers before parses afterwards to the state in memory |
| PatchElf.ElfFile.PatchPath | contrib/patchelf/src/patchelf.cc:1001-1025 | print, shrink or set the path, with anything staged before, and rewrite the file if that changed anything: succeeds exactly when the sections are there and the rewrite succeeds, always for a path no longer than the old one and nothing staged; the path p that is set is read from the file that is left if and only if it was not misdirected, and the same libraries are needed if and only if no name lay in the way; so with the shrunk path, in which each library is first found where it was under the exact condition; printing leaves both; what was staged before is in the file, and it parses to the state in memory |
| PatchElf.ElfFile.PatchBoth | contrib/patchelf/src/patchelf.cc:1001-1025 | a new interpreter and a path in one run with one rewrite: fails without an .interp, and otherwise as PatchPath with the interpreter staged, which is read from the file that is left |
| Program.PatchFile | contrib/patchelf/src/patchelf.cc:1001-1058 | from the bytes of a file to the bytes that are left: nothing for a file that does not parse, and otherwise bytes that parse to the state in which path, libraries and interpreter are as PatchBoth says |
| RPathRun.PathKeepsRewritable | contrib/patchelf/src/patchelf.cc:926-987 | a state that was ready for rewriting is ready again once a path has been stored, with a grown dynamic table or the old one |
| RPathRun.GrownSpace | contrib/patchelf/src/patchelf.cc:954-987 | whatever was staged before, storing a path makes a library grow by exactly the space reckoned from the old headers, the staged bodies and the path |
| RPathRun.PathKeepsReady | contrib/patchelf/src/patchelf.cc:926-987 | writing the path in place keeps the file well formed, both header tables stored if they were, and its section names readable |
| Shrink.ShrinkPath | contrib/patchelf/src/patchelf.cc:883-922 | the colon walk with its found flags keeps exactly the relative entries and the first absolute holder of each needed library |
| Shrink.ShrinksByExample | contrib/patchelf/src/patchelf.cc:890-921 | with one library, held by "/c" alone, "/a:b:/c" shrinks to "b:/c" |
| Shrink.ShrinkKeepsLookup | contrib/patchelf/src/patchelf.cc:883-922 | for any existence oracle every needed library is first found in the same entry as before, or in none |
| Shrink.ShrunkKeepsLookup | contrib/patchelf/src/patchelf.cc:883-922 | when the shrunk path is split again a needed library is found where it was, if and only if that was not an empty entry, or an empty entry is kept with a proper entry before it, none of these holding the library, and any entry behind it |
| Shrink.EmptyEntryLost | contrib/patchelf/src/patchelf.cc:812-816 | the path ":/a" does lose the empty entry that holds a library |
| Shrink.RelativesKept | contrib/patchelf/src/patchelf.cc:898-903 | relative entries are all kept, in order |
| Shrink.NeededTwice | contrib/patchelf/src/patchelf.cc:851-881 | the result is the same when a preceding print has already filled the list of needed libraries |
| Shrink.KeptIsFirst | contrib/patchelf/src/patchelf.cc:905-921 | every kept absolute entry is the first absolute holder of some needed library |
| Shrink.ShrinkIsMinimal | contrib/patchelf/src/patchelf.cc:905-921 | no more absolute entries are kept than libraries are needed |
| Shrink.ShrinkTwice | contrib/patchelf/src/patchelf.cc:883-922 | shrinking again changes nothing if and only if no empty entry follows the last proper entry kept, which is exactly when the first result does not end in a colon |
| Shrink.ShrinksTwice | contrib/patchelf/src/patchelf.cc:883-922 | "a::" shrinks to "a:", and that to "a" |
| Shrink.ShrinkIdempotent | contrib/patchelf/src/patchelf.cc:883-922 | so for a path without empty entries it never changes anything |
| Shrink.ShrunkNoLonger | contrib/patchelf/src/patchelf.cc:883-922 | a shrunk path is never longer than the old one, so it is always stored in its place |
| Shrink.TokensInvertJoin | contrib/patchelf/src/patchelf.cc:812-816 | splitting inverts concatToRPath exactly on lists that neither start nor end with an empty entry |
| Shrink.TokensOfJoin | contrib/patchelf/src/patchelf.cc:812-816 | in general it loses the leading empty entries and one final one |
| FileList.Write | src/database-internal.vala:1049-1064 | the header and one line for each installed entry, with NOHASH for an empty hash |
| FileList.WrittenText | src/database-internal.vala:1049-1064 | the text for an entry without a hash, one with, and one not installed |
| FileList.Read | src/database-internal.vala:1081-1096 | one entry for each line that is neither a comment nor blank, split at the first space |
| FileList.LineRead | src/database-internal.vala:1081-1096 | a line is read as what is before and behind its first space; a line is skipped exactly if it starts with # or is white space |
| FileList.FileListRoundTrip | src/database-internal.vala:1033-1103 | reading back yields exactly the installed entries in order if and only if each has a hash without spaces that starts no comment, no line break, and not only white space, and every line of the application's name behind its first is a comment or blank |
| FileList.NameWithoutBreaks | src/database-internal.vala:1049 | a name without a line break has no such line |
| FileList.HeaderReads | src/database-internal.vala:1049-1096 | the header is read as no entries exactly for those names |
| FileList.NameCanAddEntries | src/database-internal.vala:1049 | the name "a\nb c" does add an entry to an empty list |
| AppDb.LocalDb.AddApplicationFilelist | src/database-internal.vala:1033-1069 | writes the list once: fails on a read-only database, without the application's directory, and where a list exists |
| AppDb.LocalDb.GetApplicationFilelist | src/database-internal.vala:1071-1103 | the entries of the stored list, or nothing |
| AppDb.LocalDb.AddApplication | src/database-internal.vala:435-500 | adds the row, then associates the first row of that name with the dependencies that row already has; the register directory is made exactly when all that succeeds |
| AppDb.LocalDb.RemoveApplication | src/database-internal.vala:729-742 | deletes every row of that name, and its register directory; associations stay |
| AppDb.LocalDb.AddDependency | src/database-internal.vala:838-882 | appends a dependency with a new id, or refuses on a read-only database or an invalid dependency |
| AppDb.LocalDb.SetApplicationDependencies | src/database-internal.vala:808-834 | associates the first application of that name with the known ones of the dependencies |
| AppDb.LocalDb.RetrieveDependencies | src/database-internal.vala:528-563 | the dependency rows of an application in order of association, or the inconsistent-state error |
| AppDb.RetrieveFails | src/database-internal.vala:528-563 | a query fails exactly if an association of the application has no dependency, and names the first such |
| AppDb.RetrieveInOrder | src/database-internal.vala:528-563 | otherwise it answers one dependency for each association of the application, in their order |
| AppDb.RunConsistent | src/database-internal.vala:435-882 | every sequence of calls keeps ids increasing and every association on an existing dependency |
| AppDb.NeverInconsistent | src/database-internal.vala:550-556 | so from an empty database no query ever ends in the inconsistent-state error |
| AppDb.NewAppHasNone | src/database-internal.vala:45-63 | a new row starts without dependencies whatever associations were left behind |
| AppDb.ReinstalledStartsFresh | src/database-internal.vala:729-742 | removing an application and adding it again under its name gives it a new id and no dependencies |
| AppDb.AddFreshApp | src/database-internal.vala:474-495 | adding an application under a fresh name records none of the dependencies it was given |
| AppDb.AddedAppReads | src/database-internal.vala:435-471 | an application under a fresh name is read back with a new id, both names, version, architecture and origin and no dependencies; other names lead where they did |
| AppDb.AddedDepReads | src/database-internal.vala:838-882 | a dependency is found under its name, unless an earlier one has it, and under its new id, with its version and items; other names and ids lead where they did |
| AppDb.AddAgainDoubles | src/database-internal.vala:474-495 | adding it again under a name in use gives the first row its own dependencies a second time |
| AppDb.AddAgainPlain | src/database-internal.vala:474-476 | adding an application without dependencies changes nothing of what any existing one has |
| AppDb.SetDepsReadsBack | src/database-internal.vala:808-834 | after set_application_dependencies the application has what it had, then the known dependencies in order |
| AppDb.SetDepsNeedsApp | src/database-internal.vala:808-812 | setting dependencies fails exactly if there is no application of that name |
| AppDb.WithoutKeeps | src/database-internal.vala:729-731 | exactly the rows of other names are left by a removal |
| InstallData.Dependency.GetInstalledItemsAsString | src/dependency.vala:341-346 | prints each item once on a line of its own, in whatever order the set yields them |
| InstallData.Dependency.AddItemLine | src/dependency.vala:365-373 | adds a line that splits into three fields as it was, and refuses any other |
| InstallData.ItemHasTwo | src/dependency.vala:365-373 | a line is an item exactly if it has two semicolons |
| InstallData.Dependency.SetInstalldataFromString | src/dependency.vala:375-390 | adds the items of a text up to the first bad line |
| InstallData.ItemsAre | src/dependency.vala:375-390 | of a text with or without line breaks exactly the non-empty lines before the first bad one are read |
| InstallData.InstallDataRoundTrip | src/dependency.vala:341-390 | for every order of iteration, reading the print restores the set if and only if every item is free of line breaks and has two semicolons |

## Left out

- `elf.h` is not part of this model's sources: constants and header layouts follow the System V ABI, chapters 4 and 5.
- readFile, writeFile, option parsing, debug and help output: input and output only; `stat` in the shrink loop is an existence function given by the caller.
- SQLite, its locking pragmas and return codes, timestamps, XML metadata and GIO streams: tables are sequences of rows in order of id, files are strings, and whether the database is busy is a parameter.
- Private-mode folding of user directories in file lists, and the "properties" file: the helpers are outside the two files modelled.
- The solvers, component-factory.vala, dep-installer.vala, application.vala, the PackageKit plugin, the downloader and the Qt tools: user interfaces and input or output, or they rest on code that is not here.
- Symbol-table contents, relocations, `.hash` and version sections: the rewriter does not look into them.
- modifyRPath across byte orders: two tags are written without conversion there, so the file has the host's order.
- PatchElf.ElfFile.ModifyRPath: strings and table are read through copies of the two section bodies, so a read past the end of `.dynstr` is excluded by precondition; the 32-bit size of replaceSection is not modelled.
- PatchElf.ElfFile.Parse: a header table that would be read past the end of the file counts as a failure, where the program reads what lies behind; the wrap-around of the table-end checks is modelled, overflow of the int product in them is not.
- PatchElf.ElfFile.DecideShift: a page count that would wrap in 32 bits counts as a failure; such a file would be far above maxSize.
- PatchElf.ElfFile.RewriteSectionsExecutable: no section without file contents is staged by the caller or lies before the boundary, because staging one would copy bytes that are not its own; no section that the scan can end at, with address and offset equal modulo the page size, has the smaller address (`Layout.AddressesAbove`), where the program's subtraction wraps below address 0; e_phnum and the offsets do not overflow their fields.
- PatchElf.ElfFile.RewriteSectionsLibrary: the new segment's addresses fit the class (`Layout.AreaAddressed`); where the search for the last page wraps the layout is as it says, but the theorems on loading do not apply.
- PatchElf.ElfFile.PatchPath: the path and library strings of the table end inside `.dynstr`, and if the file is laid out again its tags fit 32 bits.
- PatchElf.ElfFile.GetInterpreter: a body of .interp that reaches past the end of the file is reported like a missing section, where the program reads what lies behind.
- Sorting.Sort: CompPhdr is no strict order when there are two PT_PHDR entries; the model sorts by a key under which they are equal.
- Codec.Rdi: the bits that rdi ors in are clear, so the loop adds them.
- Tables.EditForTag: the chain of tag comparisons in rewriteHeaders is a table of rules.
- Loading.ExecStagedLoaded: for executables whose loadable segments share no address and leave the pages below the first one free.
- AppDb.LocalDb.AddApplication: column values other than names, version, architecture and origin are not kept.
- Overflow of database ids: ids are unbounded here, and column_int reads 32 bits of them.
