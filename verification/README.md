# A verified model of the m68k assembler

The repository is a two-pass assembler for the MC680x0 that writes AmigaDOS load files. This project
models its code store and both passes (`src/codespace.c`), its load-file writer (`src/ahf.c`), its line
tokenizer and operand parser (`src/mangle.c`, `src/operand.c`) and its string constants
(`src/mnemonics_data.c`), and proves what they compute. `dafny verify dfyconfig.toml` checks everything.

## How it is built

Code that works in place is imperative here as well: symbols, sections, entries and relocations are
objects linked through the pointers the program uses, buffers are arrays, and the loops are loops. Each
method is tied to a function over values that says what it computes; what the program is for is proved
about these functions.

| file | content |
|---|---|
| `Basics`, `Text`, `Entries` | machine integers, characters and `strtol`, the stored records |
| `CodeSpace`, `Build` | pass 1 on linked records: symbols, sections, entries, line by line |
| `Store`, `StoreRuns` | pass 1 as a state machine, and what it keeps over every run |
| `SecondPass` | pass 2 on linked records: buffers, relocation lists, symbol lookup |
| `Pass2`, `Pass2Exact`, `Agreement` | pass 2 as a function, when it succeeds, and its agreement with symbol lookup |
| `Meaning` | what a stored program means in memory, without buffers, sizes or relocations |
| `HunkWriter` | the file writer, with the in-place sort of the linked relocation list |
| `HunkFormat`, `Relocating`, `Executable` | the file format and a reader, sorting, grouping and loading, and the end-to-end theorem |
| `Registers`, `Values` | registers and numbers in operands |
| `Addressing`, `Selection` | encoding of operands, the processor's decoding, and their agreement |
| `Operands`, `OperandSyntax`, `OperandForms` | cutting operands into pieces, the two syntaxes, operands from text to processor |
| `Lines`, `LineSyntax` | the line automaton and the round trip of printed lines |
| `Constants`, `Directives` | the dc directive, and source lines as actions on the code store |
| `StringData`, `ConstantData`, `ByteData`, `DirectiveSyntax` | printed strings, numbers and names, labels and directives, and what they are read as |
| `Naming`, `SourceMeaning` | what source lines say, without records or addresses; the store tells the same, and the loaded file means it |
| `Assembler`, `Source`, `TextMeaning` | the whole program, from source lines and from source text, and what single lines of a text mean in memory |

The main results, each for all inputs:

- **From source to memory.** `Naming` defines what source lines say: sections of entries that refer to
  labels by scope and name. A file that is written, read by an independent reader and relocated to any base
  addresses, holds exactly that in memory (`Assembler.Assemble`, `Source.AssembleText`,
  `SourceMeaning.ItemMeaning`), by way of the stored program (`Naming.RunTells`, `Executable.EndToEnd`).
  `Pass2Exact.LinkExact` says exactly when a file is written.
- **Single lines of the text.** A number behind dc.b, dc.w or dc.l is in memory as this number
  (`Source.TextNumber`), a name as the address of its label or as zero (`Source.TextReference`), strings and
  numbers behind dc.b as their bytes (`TextMeaning.TextBytes`, `Source.TextString`); a label has the address
  of its place (`TextMeaning.TextLabel`), in the scope of its name (`TextMeaning.LabelStep`,
  `TextMeaning.TwoScopes`); a section line becomes a hunk of the kind and in the memory that it says
  (`TextMeaning.TextSection`); restore goes back to the section of store (`TextMeaning.TextStoreRestore`).
  Numbers, names, bytes, labels and directives may be printed with any blanks between the fields, and with
  mnemonics, types and numbers in either case.
- **Two address computations agree** (`Agreement.TwoPassAgreement`), exactly when no data record is
  repeated (`Agreement.AgreementExact`).
- **The file format** (AmigaDOS Technical Reference Manual, section 2.3) is read back exactly
  (`HunkFormat.RoundTrip`); the in-place bubble sort of the linked list is the stable sort
  (`HunkWriter.BubbleSort`); each target gets one group (`Relocating.GroupingSound`).
- **The code store** keeps its lists and its symbol map over every run (`StoreRuns.RunOk`,
  `StoreRuns.CreateRefinesMap`, `Build.Run`).
- **Operands** mean to the processor (M68000 Family Programmer's Reference Manual, sections 2.1 and 2.2)
  what the source line says, in either syntax (`OperandSyntax.SyntaxEquivalence`,
  `OperandSyntax.OperandMeaning`, `Selection.SelectExact`), for every spelling of registers and numbers
  (`Registers.RegisterRoundTrip`, `Values.LiteralRead`); what is refused is said as well
  (`OperandSyntax.ListRefused`, `OperandForms.DirectRefused`, `Registers.SuffixExact`, `Operands.FieldExact`).
- **Lines, strings and constants**: a printed line is cut into its parts exactly if there is room for them
  (`LineSyntax.LineRoundTrip`); exactly the byte strings described in `StringData.LiteralExact` can be
  written as a literal; lines of numbers and names are read exactly as such (`ConstantData.AtomsExact`).

## Where the code departs from its intent

The model does what the code does. Each departure has a lemma with an input, or the exact condition.

- Buffer growth masks with `& 4096` (`src/codespace.c:407`), so the second block is never large enough:
  a section that is not BSS fits exactly up to 4096 bytes (`SecondPass.GrowthNeverFits`,
  `Pass2Exact.WriteExact`). The write beyond the block is the error `BufferOverrun`.
- The PC-relative range test compares unsigned values (`src/codespace.c:435`) and accepts 0 to 32767 only
  (`Pass2Exact.BackwardReferenceRejected`).
- Entry sizes count repeats, but one copy is written (`src/codespace.c:364`, `src/codespace.c:499-530`;
  `Agreement.AgreementExact`). Every caller passes 1, and so do the lines of this model.
- A name that leads nowhere is lost without an error, and a plain zero is written for it: a local name
  before any global, or one of more than 255 characters (`src/codespace.c:118`, `src/codespace.c:157`,
  `src/mnemonics_data.c:150`; `StoreRuns.ReferenceExact`, `StoreRuns.NamesLost`, `Source.TextLosesName`). The
  names `.w` and `.l` alone are read as the number zero (`src/operand.c:253-265`; `ConstantData.NameRead`,
  `ConstantData.NameLines`). What a longword holds in each case: `Source.TextReference`.
- Locals belong to the latest created global, which may be only a reference (`src/codespace.c:154-168`;
  `StoreRuns.ScopeMoves`).
- Section names are cut to 255 characters when stored but compared in full (`src/codespace.c:218-247`;
  `StoreRuns.CreateSectionNames`).
- A missing base register sets bit 6, which suppresses the index, where bit 7 suppresses the base
  (`src/operand.c:364`; `Addressing.MissingBaseRead`, `Selection.SelectExact`).
- Unsigned values from 32768 to 65535 get word size, which the processor extends (`src/operand.c:277`;
  `Selection.UnsignedWordExtended`, `OperandForms.AbsoluteMeaning`). A negative number with `.w` is cut to
  its low word without a check (`src/operand.c:283`; `Values.WordSuffixExact`).
- A displacement that cannot be read is dropped, and the mark for a missing index is encoded as the last
  address register (`src/mangle.c:606-610`; `Selection.NoDisplacementExact`).
- Symbols in displacements are dropped without an error, except in (symbol,PC) without index
  (`src/operand.c:335-389`; `OperandForms.SymbolDisplacementExact`), and so are symbols in immediates of byte
  and word size (`src/operand.c:485-502`; `OperandForms.ImmediateSymbolExact`).
- Three pieces in parentheses may be read behind the arrays `regs[2]` and `disp[1]`: after two registers, as
  in the form (An,Xn,d) that README:51 of the program shows, or after a counted displacement. An operand of
  256 characters or more is copied behind `buf[256]` (`src/mangle.c:322-324`, `src/mangle.c:571-606`;
  `Operands.StraysExact`, `OperandSyntax.ThirdFormStrays`, `OperandSyntax.SyntaxEquivalence`).
- Words that start with a or d, and beginnings of other register names, are registers; the number behind a or
  d is taken modulo 65536, so d8 is a0; one more character behind a register is not read
  (`src/operand.c:113-209`; `Registers.WordIsRegister`, `Registers.NumberedRegister`, `Registers.SuffixExact`).
- Characters in front of the first letter, full stop or underscore of a line are passed over, so a line of digits
  is empty (`src/mangle.c:114-134`; `LineSyntax.NoFields`). More than one character behind the full stop of a
  mnemonic is passed over, so dc.long has no size (`src/mangle.c:300-313`; `DirectiveSyntax.MnemonicExact`).
- Numbers of dc.b and dc.w are compared unsigned, so negative ones are rejected (`src/mnemonics_data.c:125`,
  `src/mnemonics_data.c:141`; `ConstantData.NumbersExact`).
- The tokenizer counts parentheses and looks for comments inside strings too (`src/mangle.c:98-182`;
  `StringData.LiteralExact`). More than 127 operands, or 127 followed by more than one blank, end the program
  with success and without output (`src/mangle.c:170`), here the error `TooManyFields`
  (`LineSyntax.LineRoundTrip`, `ConstantData.TooManyNumbers`).

## Assumptions

- `long` has 64 bits, `int` 32; addresses of section records are distinct numbers, given as a parameter.
- Allocation succeeds, and nothing is freed.
- A NUL-terminated text is a sequence of characters, with NUL behind its end. Source lines arrive one by
  one; a line of more than 511 characters would be cut by `fgets`.
- What `opmangle` writes behind `regs[2]`, `disp[1]` and `buf[256]` hits nothing else: `Operands.OpMangle`
  reports each such write and goes on. Every other write outside an array or record is the error
  `BufferOverrun`: a sixth start of a piece, a mnemonic of more than 31 characters, a third operand of an
  instruction, a byte behind the first block.

## Model

| member | source | states |
|---|---|---|
| Assembler.Assemble | src/main.c:109-183 | From source lines to a load file: fails exactly when storing or linking the lines fails, with the same error, and gives the specified file; the file means what the lines say: at whatever addresses it is loaded, every field holds its operand, and for a name the address of the label that the name stands for in its scope, every section has a hunk of the kind and in the memory it asked for, and is filled up with no-op bytes or cleared |
| Source.AssembleText | src/main.c:109-183 | The same from source text, for lines with labels, dc, section, store and restore: the first line that cannot be cut, declared, read or stored ends the run with its error; a file that is written means what the text says |
| Source.TextReference | src/mnemonics_data.c:147-153 | A name behind dc.l in an accepted text: its loaded longword is the address of the place where the label stands that the name stands for there, and zero exactly if it stands for none or is read as a number |
| Source.TextNumber | src/mnemonics_data.c:122-153 | From a number in the text to memory: the byte, word or longword at the place of operand q of an accepted line of constants is the number, modulo 2^32 or as its low word with .w |
| Source.TextString | src/mnemonics_data.c:67-119 | The literal of an accepted text stands in memory, byte after byte, where its line stands in its section |
| Source.TextLosesName | src/codespace.c:118-157 | A text that is dc.l with a local name before any global, a name of more than 255 characters, or .w or .l, stores and writes a plain zero, without an error or a relocation |
| TextMeaning.LabelStep | src/main.c:142-145 | A line with a label alone puts the label of its name at the end of the current section; it is refused exactly if the name is too long, local before any global, or declared in its scope |
| TextMeaning.TwoScopes | src/codespace.c:154-168 | The same local name, .x or x$, can be declared once behind each of two globals, and not twice behind one |
| TextMeaning.TextLabel | src/main.c:142-145 | From a label alone on its line to memory: its address is the address of the place behind what was said before in the section that is current there |
| TextMeaning.TextBytes | src/mnemonics_data.c:53-131 | From strings and numbers behind dc.b, in any mixture, to memory: the bytes of an accepted line stand one after the other at its place |
| TextMeaning.TextSection | src/mnemonics_misc.c:49-98 | From a section line to the load file: a new name starts a section whose hunk, read back from the file, has the kind and the memory flags that the type says; a known one is switched to exactly if it was asked for in the same way |
| TextMeaning.TextStoreRestore | src/codespace.c:271-284 | After store, other lines, and restore, the section that was current at store is current again |
| TextMeaning.TextFollows | src/codespace.c:327-387 | What a line asks for stands in the section that is current in front of it |
| Source.TextTells | src/main.c:109-183 | The store that pass 1 fills from a text tells the program that the text says; filling it fails exactly when the text makes no program, with the same error |
| Source.BuildLine | src/main.c:119-148 | One line: cut, label declared, operands read, label pushed, action; the first of these that fails gives the error |
| Source.BuildText | src/main.c:109-183 | Each line is cut, its label declared, its operands read and its entries stored before the next; the store ends as the specification of the run says, or with the error of the first line that fails |
| Source.RunTextOk | src/main.c:109-183 | After any text the store has unique labels in the sections of their symbols, exact symbol lists and well-formed entries |
| Assembler.Write | src/codespace.c:533-583 | `cs_write` leaves the file that the specification of pass 2, grouping and serialisation names, and fails exactly when it does, with the same error |
| Assembler.RegisterAll | src/codespace.c:567-577 | All sections are registered, in creation order |
| Assembler.Save | src/ahf.c:93-260 | Opening, registering and closing writes exactly the specified bytes; no relocation can lead to an unregistered section |
| Assembler.Finish | src/codespace.c:533-583 | Pass 2 on a filled store gives a file that loads as the stored program at all base addresses |
| SourceMeaning.FileMeans | src/codespace.c:533-583 | The file linked for a store means, at all base addresses, the program that the store tells, with labels for symbol records |
| SourceMeaning.StoredHeld | src/codespace.c:419-607 | Memory that holds the stored program holds the program of the source: every label has one address, that of its place, and every field its operand |
| SourceMeaning.ItemMeaning | src/codespace.c:286-368 | Every item of a source line, instruction or constant, is the entry behind what was said in front of it, with the labels its names stand for there, and memory holds this entry at its place |
| SourceMeaning.ReferenceMeaning | src/codespace.c:110-172 | A name in a longword: if it stands for a label where it is written, the loaded longword is the address of the place of that label, otherwise zero |
| SourceMeaning.NumberMeaning | src/codespace.c:342-368 | A number of one, two or four bytes is in memory as its low byte, low word or longword at the place of its item |
| SourceMeaning.LabelMeaning | src/codespace.c:327-340 | The label of a line stands behind what was said before, and its address is the address of this place |
| SourceMeaning.StringMeaning | src/codespace.c:499-503 | The bytes of a string line stand in memory one after the other at the place of the line |
| SourceMeaning.LabelStandsOnce | src/codespace.c:327-340 | In the program that lines say, a label stands in one place only |
| Naming.RunTells | src/main.c:109-183 | Whatever lines are stored, the linked store and the lines tell the same program: sections, entries in order, every reference to the label its name stands for; storing fails exactly when the lines make no program, with the same error |
| Naming.LineTells | src/main.c:132-151 | One line keeps this |
| Naming.ItemTells | src/codespace.c:286-368 | The entry appended for an instruction or a constant is the one it stands for |
| Naming.CreateTells | src/codespace.c:110-172 | Creating a symbol gives the record of the label its name stands for, null exactly if it stands for none or is declared a second time; a first mention of a global starts a new scope |
| Naming.KeyUnique | src/codespace.c:184-205 | Two symbol records never stand for the same label |
| Naming.SwitchTells | src/codespace.c:227-268 | Section directives switch and create the same sections in the store and in the program |
| Naming.AllowedExact | src/codespace.c:212-214 | Section names are made of exactly the characters of the listed ones |
| Naming.ItemsPlaced | src/codespace.c:370-387 | The items of a line become entries of the current section, one behind the other, each with the labels known in front of it |
| Naming.SaidContinues | src/codespace.c:370-387 | Nothing that was said is taken back: sections keep place, name and flags, and entries are only added behind others |
| Executable.EndToEnd | src/codespace.c:419-630 | Loading the written file at any bases gives an image in which every label is the address of its place and every field, read back as the processor does, its operand, all else unchanged |
| Executable.FileRoundTrip | src/ahf.c:107-260 | Reading the file gives back kind, memory flags, size, padded contents and relocation groups of every section, in order |
| Executable.HunksRead | src/ahf.c:137-152 | Every hunk read back from the file has the kind and the memory flags of its section |
| Executable.FillerLoaded | src/ahf.c:161-166 | Behind its bytes a section is filled up to a longword with the end of 71 4e 71, also in memory |
| Executable.BssCleared | src/ahf.c:152-157 | A section without contents takes its bytes rounded up to longwords, in 32-bit arithmetic |
| Executable.LoadedSection | src/ahf.c:157-253 | Sorting and grouping do not show: loading adds the base of its target once to every longword recorded by pass 2 and changes nothing else |
| Executable.WrittenHunkOk | src/ahf.c:157-253 | Every section that pass 2 wrote makes a well-formed hunk: contents padded to the announced longwords, no empty group |
| Executable.SectionsAreHunks | src/ahf.c:127-257 | The bytes written section by section are the hunks of the file format, and the header table holds each hunk's own size |
| Executable.WriteEntriesContained | src/codespace.c:389-461 | Whatever is written, relocation targets are sections and a buffer never holds more than its block |
| HunkFormat.RoundTrip | src/ahf.c:113-257 | For any hunks the reader recovers from the file exactly the hunks; non-zero counts make the zero terminator unambiguous |
| HunkFormat.FileLayout | src/ahf.c:113-131 | The bytes of a file: 00 00 03 f3, no names, number, first and last hunk, sizes, hunks |
| HunkFormat.HunkLayout | src/ahf.c:135-259 | The bytes of a hunk: 40 or 80 for its memory and 3e9, 3ea or 3eb for its kind, size, contents, 00 00 03 ec with the relocations if there are any, 00 00 03 f2 |
| HunkFormat.TakeGroupsBytes | src/ahf.c:210-250 | Relocation groups are read back one by one up to the terminator |
| HunkFormat.TakeHunkBytes | src/ahf.c:135-257 | One hunk is read back, and reading stops where the next begins |
| HunkFormat.TakeHeaderFields | src/ahf.c:115-131 | The header announces the number of hunks, first and last hunk, and the size table |
| Agreement.TwoPassAgreement | src/codespace.c:585-607 | When pass 2 reaches a label, `get_symbol_offset` names that place: the program counter and the number of bytes in the section, for forward and cross-section references alike |
| Agreement.AgreementExact | src/codespace.c:364-364 | Entry sizes and the program counter agree at every entry exactly when each data record was pushed with the size of one copy |
| Agreement.RepeatCountBreaksAgreement | src/codespace.c:499-530 | A record pushed with repeat 2 puts the label after it one byte too far |
| Agreement.SearchHit | src/codespace.c:585-607 | The walk sums the sizes of the entries before the first label of the symbol, modulo 2^32 |
| Agreement.SearchExact | src/codespace.c:590-606 | The walk succeeds exactly for labels in the list, and fails as undeclared otherwise |
| Agreement.LabelsSound | src/codespace.c:585-607 | Every label of every section, BSS or not, has the address of the place where it stands |
| Meaning.EntriesSound | src/codespace.c:419-530 | The loaded image of a section holds its entries in order, every symbolic field resolved |
| Meaning.AddressField | src/codespace.c:448-456 | An address field ends up as base of the symbol's section plus offset of the symbol, modulo 2^32 |
| Meaning.RelativeField | src/codespace.c:424-439 | A one-word symbolic field, sign-extended and added to the address of that word, is the address of the symbol |
| Meaning.LiteralSurvives | src/codespace.c:438-460 | Bytes written without relocation reach the loaded image unchanged |
| Pass2.WriteEntriesGrows | src/codespace.c:419-530 | Writing changes nothing already written, keeps counter and size in step, and records relocations only inside the new bytes, even, ascending and four apart |
| Pass2Exact.LinkExact | src/codespace.c:533-583 | The second pass succeeds exactly when every section can be written |
| Pass2Exact.WriteExact | src/codespace.c:419-530 | A section is written without error exactly when it fits the first block or is BSS, its symbols were pushed, instructions and address fields are even, no operand has more than two extension words, and one-word references are short, forward and local |
| Pass2Exact.BackwardReferenceRejected | src/codespace.c:435-436 | A branch two bytes back is rejected: the range test is unsigned |
| Pass2Exact.RelativeError | src/codespace.c:426-440 | Why a distance is refused, the first reason first: other section, no label, too far, no room |
| Pass2Exact.AddressError | src/codespace.c:450-456 | Why an address is refused: no label, odd place, no room |
| Pass2Exact.EntryError | src/codespace.c:472-530 | Why a constant or an opcode is refused |
| Pass2Exact.RelocsExact | src/codespace.c:448-461 | Every symbolic longword is recorded once, in order, and nothing else is |
| Pass2Exact.RelocationSoundness | src/codespace.c:609-630 | Recorded offsets are even, strictly ascending, at least four apart and inside the section; each marks the big-endian offset of a symbol of its target |
| Pass2Exact.AddressIndependence | src/ahf.c:188-188 | Where section records lie in memory orders the groups in the file but changes nothing in the loaded program |
| Relocating.StableUnique | src/ahf.c:178-204 | An ordered list is determined by its members per section in order, so a sort that swaps only on strict inequality has one possible result |
| Relocating.SortOrdered | src/ahf.c:170-204 | The result is ordered by target section |
| Relocating.SortMembers | src/ahf.c:170-204 | The result has exactly the members of the list |
| Relocating.SortAgainst | src/ahf.c:188-188 | The sort is stable: relocations against one section keep their order |
| Relocating.FlatRuns | src/ahf.c:208-248 | Grouping loses and reorders nothing |
| Relocating.GroupingSound | src/ahf.c:208-250 | Each target section gets one group, counts add up to the number of relocations, offsets in a group ascend |
| Relocating.RunsOfOrdered | src/ahf.c:208-248 | In a sorted list the runs are the sections: one group for every section referred to, with exactly its offsets |
| Relocating.RelocateSound | src/ahf.c:168-252 | Applying relocations that do not overlap adds one base to each marked longword, in whatever order |
| Relocating.RelocatedPermuted | src/ahf.c:168-252 | The loaded image does not depend on the order of the relocation list |
| HunkWriter.BubbleSort | src/ahf.c:170-204 | The in-place sort ends, keeps an acyclic list of exactly the original records, and leaves them in stable order by target |
| HunkWriter.Sweep | src/ahf.c:180-203 | One sweep keeps the records and their order per section; it reports the list sorted only if it is, and otherwise has removed inversions |
| HunkWriter.Exchange | src/ahf.c:190-197 | Relinking two neighbours exchanges them and nothing else |
| HunkWriter.SwapInversions | src/ahf.c:188-199 | Each exchange removes exactly one inversion |
| HunkWriter.SwapAgainst | src/ahf.c:188-199 | No exchange changes the order against any one section |
| HunkWriter.Handle.constructor | src/ahf.c:93-104 | A new handle has no sections and an empty file |
| HunkWriter.Handle.Register | src/ahf.c:263-267 | The section is added at the end |
| HunkWriter.Handle.Close | src/ahf.c:107-260 | The file is the header, the size table and every section as specified; it fails exactly as specified, or for a relocation to a section that was not registered |
| HunkWriter.Handle.PutHeader | src/ahf.c:113-131 | Magic number, hunk count, first and last hunk, and the longword size of every section |
| HunkWriter.Handle.PutSection | src/ahf.c:135-257 | Type word with memory flags, size, contents with filler, relocation block, end mark |
| HunkWriter.Handle.PutContents | src/ahf.c:157-166 | The fed bytes, then filler up to the next longword |
| HunkWriter.Handle.PutPadding | src/ahf.c:164-166 | The filler is a no-op instruction or its tail, ending on a longword |
| HunkWriter.Handle.PutRelocs | src/ahf.c:168-252 | Nothing for an empty list; otherwise the groups of the sorted list and a zero |
| HunkWriter.Handle.PutGroups | src/ahf.c:206-248 | The groups written are the runs of the list, in order |
| HunkWriter.Handle.PutGroup | src/ahf.c:210-247 | Count, section index and offsets of one run; an unregistered target fails |
| HunkWriter.Handle.CountSpan | src/ahf.c:215-221 | The count is the length of the run |
| HunkWriter.Handle.IndexOf | src/ahf.c:223-232 | A registered section is found at its registration index, another one at -1 |
| HunkWriter.Handle.PutOffsets | src/ahf.c:242-247 | The offsets of the run, and the record after it |
| HunkWriter.SpanIsRun | src/ahf.c:215-221 | Records with one target up to a different one make one run of the list |
| SecondPass.Feed | src/codespace.c:389-417 | The buffer holds the concatenation of all that was fed; a BSS section only grows; growth beyond one block fails, also where the 32-bit sum of size and length wraps |
| SecondPass.FeedTimesExact | src/codespace.c:389-417 | Over any number of copies: concatenation, and success exactly while the total stays within one block or the section is BSS |
| SecondPass.GrowthNeverFits | src/codespace.c:405-409 | The masked growth is never large enough once 4096 bytes are full |
| SecondPass.RoundingWouldFit | src/codespace.c:405-409 | With the rounding that was meant, over any sequence of chunks: the buffer holds what it held and all that was fed, the block never shrinks, and its capacity stays a multiple of 4096 that is at least the size |
| SecondPass.PushReloc | src/codespace.c:609-630 | An even offset goes to the end of the singly linked list, with first and last in place; an odd one fails |
| SecondPass.SymbolOffset | src/codespace.c:585-607 | The walk over the linked entries gives what the search over the stored entries gives |
| SecondPass.Walk | src/codespace.c:593-606 | Following `next` from the first entry sums the sizes up to the label |
| SecondPass.WriteEa | src/codespace.c:419-470 | One operand: bytes, relocation and counter as specified, in the section that owns the entry |
| SecondPass.WriteEas | src/codespace.c:492-496 | The operands one after the other |
| SecondPass.PutAddress | src/codespace.c:448-456 | A longword with the offset of a symbol, recorded as relocation against the symbol's section |
| SecondPass.PutRelative | src/codespace.c:424-439 | A word with the distance to a symbol of the same section, or an error |
| SecondPass.WriteInstr | src/codespace.c:472-497 | Opcode and operands, on an even place only |
| SecondPass.WriteData | src/codespace.c:499-531 | One copy of the value in its size |
| SecondPass.WriteEntry | src/codespace.c:547-557 | An entry is written by its kind; labels write nothing |
| SecondPass.WriteSection | src/codespace.c:537-561 | The entries of a section, into its own buffer and list |
| SecondPass.WriteSections | src/codespace.c:533-563 | Every section in turn; bytes and relocations of a section stay in that section, relocations lead to sections of the store |
| SecondPass.ReachedExact | src/codespace.c:533-563 | Writing sections one by one up to the first failure is the specified second pass |
| CodeSpace.CodeSpace.constructor | src/codespace.c:94-104 | An empty store |
| CodeSpace.CodeSpace.GetSymbol | src/codespace.c:184-205 | Following the list of the scope finds the symbol the specification finds |
| CodeSpace.CodeSpace.CreateSymbol | src/codespace.c:110-172 | The records change as the specification of symbol creation says, and keep all pointers in place |
| CodeSpace.CodeSpace.AddGlobal | src/codespace.c:143-168 | A new global becomes the head of the list |
| CodeSpace.CodeSpace.AddLocal | src/codespace.c:154-162 | A new local becomes the head of the list of the latest global |
| CodeSpace.CodeSpace.Redefine | src/codespace.c:128-140 | A known symbol gets the flags; a second declaration changes nothing |
| CodeSpace.CodeSpace.GetSection | src/codespace.c:207-225 | Following the list finds the first section of that name, ignoring case; illegal names fail |
| CodeSpace.CodeSpace.CreateSection | src/codespace.c:227-268 | A known section becomes current if its flags match; a new one goes to the end of the list |
| CodeSpace.CodeSpace.EnsureSection | src/codespace.c:273-273 | Without a current section "code" is created |
| CodeSpace.CodeSpace.PushSection | src/codespace.c:271-276 | The current section is remembered |
| CodeSpace.CodeSpace.PopSection | src/codespace.c:278-284 | The remembered section becomes current once |
| CodeSpace.CodeSpace.PushEntry | src/codespace.c:370-387 | The entry goes to the end of the current section and nowhere else |
| CodeSpace.CodeSpace.PushInstr | src/codespace.c:286-325 | An instruction of two bytes and at most two operands, sized with its extension words; a third operand is a write outside the record |
| CodeSpace.CodeSpace.PushData | src/codespace.c:342-368 | A constant of one, two or four bytes, of which its size is kept, sized with its repeat count; symbols only in longwords |
| CodeSpace.CodeSpace.PushSymbol | src/codespace.c:327-340 | The label goes to the current section, which the symbol then points to |
| CodeSpace.Section.Append | src/codespace.c:370-387 | Appending keeps a doubly linked list whose `prev` and `next` mirror each other and whose entries know their owner, in push order |
| CodeSpace.AppendNode | src/codespace.c:370-387 | Appending to one section leaves the lists of the others as they are |
| CodeSpace.Attach | src/codespace.c:159-161 | The newest local stands at the head of its owner's list, all other records unchanged |
| Build.Run | src/main.c:109-183 | Line by line the linked store ends in the state the specification of pass 1 gives, or fails with its error |
| Build.Process | src/main.c:132-145 | One line: label declared, label pushed unless the directive manages it, then the action |
| Build.Declared | src/mangle.c:216-223 | The label of a line is declared, or null is returned for a second declaration in its scope |
| Build.Finish | src/main.c:130-145 | The rest of a line: its label is pushed unless the directive manages it, then the action |
| Build.Act | src/main.c:139-151 | The action of a line |
| Build.ReferEas | src/operand.c:236-246 | References in operands are created left to right |
| Build.PushItems | src/mnemonics_data.c:57-156 | The constants or the instruction of a line, in order |
| StoreRuns.RunOk | src/main.c:109-183 | Over any source lines: exact symbol lists, labels once and in the section of their symbol, sections kept in creation order, entries only appended |
| StoreRuns.ProcessOk | src/main.c:132-151 | One line keeps all of this |
| StoreRuns.StoredProgram | src/codespace.c:327-340 | After any source lines every label stands once, in the section its symbol points to; `get_symbol_offset` succeeds exactly for pushed labels |
| StoreRuns.LookupExact | src/codespace.c:184-205 | The linked lists are a map from scope and name to symbols: a lookup finds the one symbol of that name in the scope, if any |
| StoreRuns.CreateRefinesMap | src/codespace.c:110-172 | Creation adds to that map or merges flags; it returns NULL exactly for long names, locals without owner and second declarations, and then changes nothing |
| StoreRuns.ReferenceExact | src/codespace.c:110-172 | A reference leads to a symbol exactly when its name has at most 255 characters and, if it is local, some global exists; otherwise it is lost without an error and nothing changes |
| StoreRuns.NamesLost | src/codespace.c:118-157 | A longword with .x before any global, or with a global of 256 characters, is stored as a plain zero |
| StoreRuns.ScopeMoves | src/codespace.c:154-168 | The scope of locals moves exactly when a new global is created, be it only by a reference |
| StoreRuns.ReferenceCapturesLocal | src/codespace.c:154-168 | A forward reference between a global and its local captures the local |
| StoreRuns.CreateSectionNames | src/codespace.c:207-268 | Section names stay distinct ignoring case exactly unless a new name agrees with a known one in its first 255 characters |
| StoreRuns.LongNamesRepeat | src/codespace.c:246-247 | A name of more than 255 characters makes a new section each time |
| StoreRuns.RunNames | src/codespace.c:207-268 | With names that fit, sections are distinct ignoring case after any source lines |
| StoreRuns.CreateSectionOk | src/codespace.c:227-268 | Section creation keeps symbols, entries and earlier sections |
| StoreRuns.PushSymbolOk | src/codespace.c:327-340 | Pushing the label of a declared symbol keeps labels unique and places the symbol |
| StoreRuns.PushEntryOk | src/codespace.c:370-387 | Pushing other entries keeps everything stored |
| Store.EnsureIsCreate | src/codespace.c:273-273 | The default section is the section that `cs_create_section("code", ST_CODE)` makes |
| Registers.GetReg | src/operand.c:83-219 | The scanning loop reads the register the specification names, or none |
| Registers.RegisterRoundTrip | src/operand.c:83-219 | Every register is read back in every spelling: all names in either case, sp for a7, sr and ccr, with any size and scale, whatever stands around it, unless a letter or digit follows |
| Registers.WordIsRegister | src/operand.c:113-165 | A word is taken for a register exactly when it starts with a or d and its number is not the error mark, or begins one of the other names |
| Registers.SuffixExact | src/operand.c:169-209 | Exactly these suffixes are accepted behind a name: size letters, a scale of one digit, or one more character that is not read |
| Registers.NumberedRegister | src/operand.c:113-135 | The number behind d or a is taken modulo 65536 and only -1 is no register, so d8 is a0 |
| Registers.DataIsD0 | src/operand.c:113-131 | The symbol data is read as d0 |
| Registers.RegisterSame | src/operand.c:83-219 | A token is the same register wherever it stands |
| Values.GetVal | src/operand.c:226-290 | The scanning loop and the conversion give the value the specification names |
| Text.StrToLExact | src/operand.c:273 | The conversion as the C standard describes it: whitespace, sign, prefix 0x for base 16, digits in either case, cut to 64 bits |
| Values.CutNumber | src/operand.c:275-289 | A number that is cut off among its digits is not read |
| Values.LiteralRead | src/operand.c:247-290 | For every printed number, in either case, the digit scan and the conversion stop at the same place, and the value is the number modulo 2^32 under its size |
| Values.NumberRoundTrip | src/operand.c:247-290 | Decimal and hexadecimal numbers with or without minus are read back; word size exactly below 65536 without suffix |
| Values.WordSuffixExact | src/operand.c:253-285 | A number with .w is rejected exactly from 65536 up to 2^31, and among the accepted ones stands for itself exactly when it is a signed 16-bit number |
| Values.NegativeWordTruncated | src/operand.c:282-286 | -70000.w passes though 70000.w does not |
| Values.ValueSame | src/operand.c:226-290 | A token is the same number or symbol wherever it stands |
| Addressing.BriefRead | src/operand.c:344-351 | The 8-bit form is decoded to its index with size and scale and its displacement |
| Addressing.FullRead | src/operand.c:353-389 | The base displacement form with a base, or with the program counter suppressed, is decoded to base, index and displacement |
| Addressing.MissingBaseRead | src/operand.c:357-365 | Without base register the bit that is set suppresses the index: a0 is used and the index is lost |
| Addressing.AbsoluteExact | src/operand.c:391-477 | An absolute address is what was written exactly when it is not an unsigned word with the top bit set |
| Addressing.ImmediateExact | src/operand.c:479-515 | An immediate is encoded exactly when the operation size holds it as signed number, and then read back |
| Addressing.AbsoluteRefused | src/operand.c:391-477 | An absolute address is refused exactly when it is marked as a word and is none, or is short and names a symbol |
| Operands.OpMangle | src/mangle.c:318-670 | Cutting, bit field and classifying give the operand and the field that the specification names, or its error; and whether something was written outside an array on the way, exactly |
| Operands.BitFieldExact | src/mangle.c:407-469 | What stands in braces behind an operand is its bit field, and the operand is what it is without it |
| Operands.FieldExact | src/mangle.c:407-469 | A bit field is two words with a colon between them and a closing brace; everything else in braces is refused |
| Operands.FieldPartRefused | src/mangle.c:432-460 | A word that starts with a digit and is no number is refused |
| Operands.NoOperand | src/mangle.c:342-342 | Nothing at all, and a bit field without an operand, are refused |
| Operands.FieldPartRead | src/mangle.c:432-460 | A data register stands for its number plus 32, a plain number for itself |
| Operands.ReadField | src/mangle.c:407-469 | The bit field loop gives the field the specification names, or its error |
| Operands.Split | src/mangle.c:360-405 | The splitter loop, up to a brace, cuts the pieces the specification names; a sixth start is a write outside the array |
| Operands.PiecesInside | src/mangle.c:360-405 | Pieces lie inside the operand |
| Operands.One | src/mangle.c:487-566 | One piece: the first of the listed forms that fits |
| Operands.Gather | src/mangle.c:587-612 | Registers and displacement in the order of the pieces, with the errors for too many, and whether a piece was read into the place behind the arrays |
| Operands.StraysExact | src/mangle.c:587-612 | A piece is read into the place behind the arrays exactly when it comes after two registers, or is no register and comes after a counted displacement |
| Operands.Choose | src/mangle.c:614-633 | The first plain address register or program counter is the base, the other register the index |
| Selection.SelectExact | src/mangle.c:635-659 | Encoding then decoding gives the same displacement, base, index, size and scale, whichever form is picked, exactly when there is a base and the displacement is not an unsigned word with the top bit set |
| Selection.FormPicked | src/mangle.c:635-659 | One extension word for a signed 16-bit displacement without index and a signed 8-bit one with index, otherwise the displacement takes one or two words of its own |
| Selection.BasedSelected | src/mangle.c:635-659 | With a base the processor gets base and index as written and the displacement as it extends it |
| Selection.BaselessSelected | src/operand.c:357-365 | Without base the operand is never encoded as written |
| Selection.UnsignedWordExtended | src/operand.c:277-280 | 40000(a0) addresses 25536 bytes below a0 |
| Selection.NoDisplacementExact | src/mangle.c:649-658 | Without a readable displacement the operand is right exactly with base and index, or with the suppressed program counter |
| OperandSyntax.SyntaxEquivalence | src/mangle.c:358-405 | d(An,Xn), (d,An,Xn) and (An,Xn,d) are the same operand for every displacement not read as a register and one or two registers, whatever stands around; the last form writes behind the register array exactly if it has two registers, the others never do unless they are too long |
| OperandSyntax.ThirdFormStrays | src/mangle.c:574-589 | (a0,d0,4) writes behind the register array |
| OperandSyntax.OutsideOperand | src/mangle.c:568-612 | A displacement in front of the parentheses counts as one inside; a register there is refused |
| OperandSyntax.ListRefused | src/mangle.c:587-612 | Two displacements, three registers, and status registers are refused, wherever they stand in the list |
| OperandSyntax.NoBaseRefused | src/mangle.c:614-633 | Two registers neither of which can be the base are refused |
| OperandSyntax.LongList | src/mangle.c:344-397 | A list of four is no addressing mode; the fifth piece has no room |
| OperandSyntax.InsideOperand | src/mangle.c:568-612 | A list in parentheses is read token by token |
| OperandSyntax.DisplacementAnywhere | src/mangle.c:587-612 | The place of the displacement among the registers does not matter |
| OperandSyntax.OperandMeaning | src/mangle.c:568-667 | From text to processor, every spelling of registers and numbers, base and index in either order: the operand means what was written exactly unless the displacement is an unsigned word with the top bit set without .l; and exactly which of the forms write outside an array |
| OperandForms.DirectMeaning | src/mangle.c:501-514 | Dn and An in every spelling are what the processor gets |
| OperandForms.StatusMeaning | src/mangle.c:501-514 | sr and ccr are operands of their own, which no effective address encodes |
| OperandForms.DirectRefused | src/mangle.c:501-514 | A register alone with a scale or a word size, and the program counter alone, are refused |
| OperandForms.IndirectRefused | src/mangle.c:545-565 | A register in parentheses, in every spelling, with one more character behind them other than a plus sign, a parenthesis, a comma and a brace is accepted by no size |
| OperandForms.IndirectMeaning | src/mangle.c:529-551 | (An), (An)+ and -(An) in every spelling are what the processor gets |
| OperandForms.SteppingRefused | src/mangle.c:529-544 | (Rn)+ and -(Rn) are refused for every other register |
| OperandForms.StackPointer | src/operand.c:143-145 | -(sp) is the predecremented a7 |
| OperandForms.NestedList | src/mangle.c:385-395 | A list in two pairs of parentheses is refused |
| OperandForms.LoneIndirectMeaning | src/mangle.c:552-559 | The program counter in parentheses is read back, suppressed or not; an index alone in parentheses is lost and a0 is addressed |
| OperandForms.AbsoluteMeaning | src/mangle.c:561-565 | An absolute address, as written, is what the processor gets exactly unless it is an unsigned word with the top bit set without .l |
| OperandForms.LoneComma | src/mangle.c:385-405 | A comma alone is read as the absolute address zero |
| OperandForms.ImmediateMeaning | src/mangle.c:524-528 | An immediate, as written, is accepted exactly when it fits the operation size, and is what the processor gets |
| OperandForms.SymbolMeaning | src/operand.c:236-246 | A symbol alone becomes an absolute longword tagged for pass 2 |
| OperandForms.ImmediateSymbolExact | src/operand.c:485-510 | A symbol as immediate reaches pass 2 exactly when the operation size is long; with the others it is dropped without an error and a zero is encoded |
| OperandForms.SymbolDisplacementExact | src/operand.c:335-389 | A symbol as displacement reaches pass 2 exactly when its base is the program counter and there is no index; elsewhere it is dropped without an error |
| Lines.Tokenize | src/mangle.c:76-214 | The line loop puts exactly the specified fields into its arrays, never outside them, or gives the specified error |
| Lines.Character | src/mangle.c:106-201 | One character: the next state of the automaton and the new array entries |
| Lines.TurnCounted | src/mangle.c:106-201 | Every step keeps the number of closed fields that belongs to its state |
| LineSyntax.FieldCap | src/mangle.c:92-214 | On every accepted line the fields are non-empty, ordered and disjoint, only the label may be missing, and there are at most 127 operands |
| LineSyntax.LineRoundTrip | src/mangle.c:92-214 | A printed line, its fields separated by any spaces, tabs, vertical tabs and form feeds, is cut into exactly its label, mnemonic and operands, whatever stands in parentheses and strings and whatever comment follows; it is rejected exactly when there are more than 127 operands, or 127 followed by more than one blank |
| LineSyntax.NoFields | src/mangle.c:112-134 | A line in which no letter, full stop or underscore stands before its end or comment has no fields |
| LineSyntax.CommentLine | src/mangle.c:103-107 | A semicolon or an asterisk at the beginning of a line, or behind its first blanks, makes the line empty |
| Directives.BlanksAlike | src/mangle.c:136-178 | Which blanks separate the parts of a line, tabs or others, makes no difference to the texts of its fields |
| LineSyntax.ScanOperands | src/mangle.c:167-199 | The operands of a line are the fields that are found from the first on, unless there are too many |
| LineSyntax.ScanArgument | src/mangle.c:167-199 | An operand with separators only inside parentheses and strings is passed over as a whole |
| Constants.AsmDc | src/mnemonics_data.c:53-159 | The operand loop pushes what the specification lists, in order, or gives its error |
| Constants.PushString | src/mnemonics_data.c:67-119 | The string automaton pushes the bytes the specification decodes |
| Constants.MneMangle | src/mangle.c:295-316 | Name and size of a mnemonic |
| Constants.ReadArgs | src/mangle.c:234-279 | The operands of a directive: numbers where they can be read as such, text otherwise |
| Directives.ReadAction | src/mangle.c:224-280 | Mnemonic and operands of a cut line give the action that the lemmas about printed lines name: a label alone, dc, section, store or restore, or the error |
| Directives.LineNamed | src/mangle.c:234-279 | The names a line hands to the store are not empty, and the flags of a section are those of a section type |
| Directives.SectionDirective | src/mnemonics_misc.c:49-98 | A section directive is accepted exactly with a name, or with a name and a printed type in either case, and asks for the kind and memory of the type; without one for code in any memory |
| Directives.TypeRead | src/mnemonics_misc.c:68-88 | Each printed type, in either case, gives flags for exactly its kind and its memory |
| Directives.TypeKnown | src/mnemonics_misc.c:68-88 | Nothing else is a type |
| DirectiveSyntax.LabelAlone | src/mangle.c:216-223 | A label alone on its line, with or without colon, is read as this label and nothing else to do |
| DirectiveSyntax.MnemonicExact | src/mangle.c:295-317 | One letter behind the first full stop must be a size, anything else there is passed over, and the name has fewer than 32 characters |
| DirectiveSyntax.SectionLine | src/mnemonics_misc.c:49-98 | A printed section line, in either case, asks for a section of this name, kind and memory, or is refused for its type |
| DirectiveSyntax.StoreLine | src/mnemonics_data.c:176-192 | store, in either case, is read as such, without operands and without size |
| DirectiveSyntax.RestoreLine | src/mnemonics_data.c:176-192 | restore likewise |
| DirectiveSyntax.OtherLine | src/mangle.c:228-232 | Every other mnemonic is refused |
| StringData.StringRoundTrip | src/mnemonics_data.c:67-119 | Every byte string, written with escapes and with white space in front and behind, is decoded to itself |
| StringData.LiteralRefused | src/mnemonics_data.c:76-115 | Whatever the bytes in front, a literal that ends in a backslash fails with misplaced escaping, and one with a character that is not white space behind its closing quote fails as an invalid string |
| StringData.LiteralOpen | src/mnemonics_data.c:72-118 | A literal without its closing quote is decoded to the same bytes |
| StringData.LiteralExact | src/mangle.c:98-214 | A literal reaches dc.b as one operand exactly when no comment starts inside it and its parentheses are as many opening as closing; otherwise the line is rejected |
| StringData.StringLine | src/mnemonics_data.c:67-119 | Such a line asks for exactly the bytes of the literal, one by one |
| StringData.StringStored | src/codespace.c:342-368 | Pass 1 declares and pushes the label, if there is one, then appends exactly the bytes of the literal to the current section, or to a new "code" section, and changes nothing else |
| StringData.PushBytes | src/codespace.c:342-368 | Pushing bytes appends their entries, in order, to the current section, which is created if there is none |
| StringData.BytesWritten | src/codespace.c:499-503 | Pass 2 writes them contiguously while the buffer has room |
| StringData.BytesInSection | src/codespace.c:499-503 | In the written section they stand behind everything pushed before them, whatever is pushed later |
| StringData.CommentInExact | src/mangle.c:100-104 | A comment starts in a literal exactly at a semicolon or asterisk after whitespace |
| ConstantData.AtomsExact | src/mnemonics_data.c:53-156 | A line with dc, numbers and names in any mixture is read exactly as these: too many operands, then a number that cannot be read, then the first operand that the size does not admit reject it; otherwise it asks for their constants in order |
| ConstantData.NumbersExact | src/mnemonics_data.c:122-153 | With numbers alone, decimal or hexadecimal, with or without minus and size, it is accepted exactly when all can be read and are then unsigned numbers of the size |
| ConstantData.NumberLine | src/mnemonics_data.c:122-153 | An accepted line of constants asks at each number for exactly this number in as many bytes as its size says |
| ByteData.BytesExact | src/mnemonics_data.c:53-131 | A line with dc.b, strings without parentheses and numbers in any mixture is accepted exactly if every number can be read and is at most 255, and asks for their bytes in order |
| ConstantData.TabbedLine | src/mangle.c:136-178 | A line with tabs, capitals and a capital hexadecimal digit asks for its byte |
| ConstantData.LongwordsExact | src/mnemonics_data.c:147-153 | With dc.l it asks for one longword each: the number as it is read, or the address of the name |
| ConstantData.NameRead | src/operand.c:247-290 | A token that starts like a symbol is read as a number exactly if it is a full stop and w or l |
| ConstantData.AtomsRead | src/mangle.c:234-279 | Printed numbers and names in the fields of a line are read as these |
| ConstantData.AtomsStored | src/mnemonics_data.c:57-156 | The constants of the operands in order, or the error of the first that the size does not admit |
| ConstantData.NameLines | src/operand.c:253-265 | dc.l .x asks for the address of .x, dc.l .l and dc.l .w for a zero |
| ConstantData.TooManyNumbers | src/mangle.c:169-170 | A line with 128 numbers is rejected |
| ConstantData.FieldsEnded | src/mangle.c:92-214 | What follows a field of an accepted line is no letter, digit or full stop |

## Left out

- Command line, file reading and writing, error texts (`src/arguments.c`, `src/main.c`, `src/error.c`): plumbing. The output is a byte sequence, the input a list of lines.
- The instruction assemblers (`src/mnemonics.c`): stubs that push nothing. Instructions enter as arbitrary records with opcode, operands and symbols.
- Lines with other mnemonics than dc, section, store and restore, from text: the error `MissingFeature` here. `equ` and instructions enter as actions of a line; what a stub leaves behind of its operands is the names they mention.
- Directives.ReadAction: of operands behind store and restore, where the program reads them and then reports their number, says only `MissingFeature`.
- The check that an instruction without bit fields has none (`src/main.c:127-128`).
- Memory-indirect modes, expressions, `ds`, `blk`: not implemented by the program.
- The files left half written when an error ends the program.
