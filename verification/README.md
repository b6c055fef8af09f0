# dabugger: line tables and breakpoints

A Dafny model of the parts of dabugger that decide where a breakpoint goes and what it does to the
traced process, and proofs about it:

- the bounds-checked byte cursor and the LEB128 readers (`src/reader.c`);
- the `.debug_line` parser and the line-number state machine (`src/dwarf.c`; sections 6.2.2, 6.2.4,
  6.2.5, 7.2.2, 7.4 and 7.6 of the DWARF 5 standard);
- the two breakpoint registries, and the protocol of spawning, injecting INT3, continuing, trapping
  and exiting (`src/debug.c`);
- the key buffer and the cursor motions (`src/tui.c`), for counts typed before `j` and `k`.

Code that changes things in place is modelled by classes and methods with loops; each is proved to
compute a function of its inputs or of its old state, and the theorems are lemmas about those
functions. The parser has no preconditions: for every sequence of bytes it gives what the C code
gives, including the values left behind by failed reads, which the code ignores, and ends in
`Crash` where the C code fails an assert, divides by zero, writes past a variable or uses one it
never set.

| file | contents |
|---|---|
| `Words.dfy`, `Wrappers.dfy` | integer widths, bit operations, little-endian bytes; options and outcomes |
| `Leb128.dfy`, `Reader.dfy` | LEB128 encodings and their meaning; the byte cursor |
| `LineMachine.dfy`, `LineProgram.dfy` | one pure step per instruction; programs as bytes |
| `LineDecoder.dfy` | the decoding loop that mutates registers, table and cursor |
| `LineOpcodes.dfy` | every opcode by its number: its bytes, its effect, and what unknown ones do |
| `LineTables.dfy`, `LineRewrites.dfy`, `LineCompiler.dfy` | shape and order of tables; rewrites of programs; rows to programs |
| `LineHeader.dfy`, `LineSection.dfy`, `SectionReader.dfy` | headers, units and sections as functions; the parser that moves one cursor through them |
| `HeaderNumbers.dfy`, `SectionExample.dfy` | content types, forms and offsets of the header by number, for any bytes; one section byte for byte |
| `LineLookup.dfy`, `Registry.dfy`, `DebugSession.dfy` | line lookup; registries as values; the session that updates them in place |
| `Inferior.dfy`, `DebugModel.dfy` | the traced process; the step protocol and its runs |
| `KeyMotion.dfy`, `Scrolling.dfy` | keys; cursor, scrolling and counts |
| `EndToEnd.dfy` | from rows to an INT3 in the process |

Where the code and what is said about it differ, the model follows the code:

- Merging two `advance_pc` is not always harmless: with more than one operation per instruction the
  64-bit sum of `op_index` and operand can wrap. `MergeIffMergeable` says exactly when it is
  harmless, `MergeCanFail` gives two programs whose bytes decode to different tables.
- Toggling a bare address twice does not bring back a source breakpoint that stood there
  (`ToggleAddressTwice`; `SourceIsLost` in every session that can set one); toggling a source
  breakpoint twice does (`ToggleTwiceRestores`).
- A count of nine digits moves by one line, because the tenth key empties the buffer
  (`CountCanFail`); `CountExactness` and `CountOnDigits` say exactly when a count does what it says.
- `src/dwarf.c:351-352` calls the rows of a sequence increasing in the operation pointer, which is
  the address where instructions hold one operation (`ScalarOrdersAgree`). Nothing enforces it,
  neither by address (`AscentCanFail`) nor by address and op_index (`OperationAscentCanFail`). In
  either order it holds exactly if the emitted rows ascend (`TableAscendsExactly`), so if no
  instruction goes back (`SequencesAscend`), and any instruction that does can be made to show
  (`SteppingBackShows`).
- `src/debug.h:72` calls the rows of a line increasing in address, over all sequences. Two ascending
  sequences can break it (`LineOrderCanFail`): it holds exactly if the rows of the line ascend within
  each sequence and no sequence holds one above one of a later sequence (`LineAscendsExactly`).
- The program of a unit is taken to start where the parsed header ends; `header_length` only enters
  its length. `UnitTakesItsLength` says for any bytes when a unit nevertheless takes as many bytes as
  its `unit_length` says, `HeaderLengthShifts` what is decoded if `header_length` is larger than the
  parsed header, and `FramingCanFail` gives such a unit, whose program is not decoded.
- Opcodes the code does not know are skipped without their operands, which are then decoded as
  instructions (`UnknownOpcodes`); the standard's `standard_opcode_lengths` are read but not used.
- Removing a breakpoint leaves its INT3 in the process, and a trap on it is then not rewound
  (`RemovedBreakpointStaysPlanted`).

## Model

| member | source | states |
|---|---|---|
| Reader.BinaryReader.ReadULeb128 | src/reader.c:41-63 | the or-and-shift loop stores the sum of the 7-bit groups modulo 2^64, takes the bytes up to the first without continuation bit but at most ten, and reports ok, out of bounds or overflow accordingly |
| Reader.BinaryReader.ReadSLeb128 | src/reader.c:65-92 | the same with sign extension: on success the two's-complement value of the groups wrapped to 64 bits, on failure the unextended bits |
| Reader.BinaryReader.ReadBytes | src/reader.c:7-28 | a read that fits takes exactly the next bytes, one that does not takes nothing |
| Reader.BinaryReader.ReadCString | src/reader.c:95-115 | the string before the first zero byte, which is skipped; nothing if there is none |
| Leb128.ULebRoundTrip | src/reader.c:41-63 | for every uint64 and any following bytes, reading its canonical encoding gives it back and leaves exactly those bytes |
| Leb128.SLebRoundTrip | src/reader.c:65-92 | the same for every int64 |
| Leb128.LebGeneral | src/reader.c:41-92 | every encoding of up to ten bytes, padded ones included, reads as its unsigned or signed group sum in 64 bits; ten continuation bytes overflow, fewer with nothing after them run out of bounds |
| Leb128.ThreeGroups | src/reader.c:57-87 | groups weigh 1, 128 and 16384, and bit 6 of the last is the sign |
| Leb128.StandardExamples | src/reader.c:41-92 | the examples of tables 7.7 and 7.8 of the standard, byte for byte |
| LineDecoder.Decoder.StepExtended | src/dwarf.c:466-497 | the branch for extended opcodes takes the bytes of one instruction and executes it |
| LineDecoder.Decoder.StepStandard | src/dwarf.c:498-568 | the same for standard opcodes, those without a case included |
| LineDecoder.Decoder.StepSpecial | src/dwarf.c:569-586 | the same for special opcodes |
| LineOpcodes.CopyByte | src/dwarf.c:507-513 | the byte 1 emits the registers as a row, field by field, and clears discriminator, basic_block, prologue_end and epilogue_begin |
| LineOpcodes.SpecialByte | src/dwarf.c:569-586 | a special opcode line_range * a + d above opcode_base moves the line by line_base + d and the operation pointer by a, and emits a row |
| LineOpcodes.ConstAddByte | src/dwarf.c:547-550 | the byte 8 advances by the a of opcode 255 |
| LineOpcodes.AdvanceByte | src/dwarf.c:514-524 | the byte 2 and a LEB128 n, with op_index + n being q whole instructions and k operations: the address moves by q instruction widths, op_index becomes k |
| LineOpcodes.StandardBytes | src/dwarf.c:525-567 | the bytes 3 to 7 and 9 to 12 with their operands, each with the one register it sets and its width |
| LineOpcodes.EndSequenceBytes | src/dwarf.c:480-485 | the bytes 0 1 1 emit an end_sequence row and put every register to the value of table 6.4 of the standard |
| LineOpcodes.ExtendedBytes | src/dwarf.c:486-496 | set_address of any width up to eight and set_discriminator, by their bytes |
| LineOpcodes.UnknownOpcodes | src/dwarf.c:479-568 | opcodes without a case change nothing and their operands are not skipped |
| LineOpcodes.SetAddressOperands | src/dwarf.c:486-488 | a set_address of more than eight operand bytes writes past its variable; with fewer bytes left than it asks for the address becomes 0 |
| LineOpcodes.ZeroDivides | src/dwarf.c:518-549 | without operations per instruction or line range the instructions that divide by them crash |
| LineOpcodes.FirstCopy | src/dwarf.c:413-427 | the program [1] decodes to exactly the row of address 0, file 1, line 1, column 0 |
| LineOpcodes.CopyAfterEndSequence | src/dwarf.c:480-485 | the same row comes first after any complete program that ends in end_sequence |
| LineOpcodes.RowsAfterARowAreClear | src/dwarf.c:507-586 | after a row no row has a discriminator or one of the three marks until an instruction sets it, for any program |
| LineDecoder.LineInfoTable.AppendEntry | src/dwarf.c:353-410 | a row joins the last sequence; an end_sequence row opens a new one |
| LineDecoder.LineNumStateMachine.Advance | src/dwarf.c:429-437 | address and op_index move by the operation advance, in 64-bit arithmetic |
| LineDecoder.Decoder.Loop | src/dwarf.c:459-587 | for any bytes and from any state the mutating loop leaves the registers and the table of running the pure step function over the instructions cut from the bytes, or its crash, and stops where cutting stops |
| LineDecoder.DecodeLineNumProg | src/dwarf.c:439-590 | the same from the initial registers and an empty table |
| LineProgram.ProgramRoundTrip | src/dwarf.c:459-587 | cutting the serialised form of any encodable instruction list gives that list |
| LineProgram.ParseWhole | src/dwarf.c:456-464 | a complete program, in any of its encodings, is cut the same whatever follows it, and cutting stops exactly after its last byte |
| LineProgram.DecodeWhole | src/dwarf.c:439-590 | a complete program, in any of its encodings, decodes to the same table or crash whatever bytes follow, and decoding stops exactly after its last byte |
| LineProgram.DecodeEncoded | src/dwarf.c:439-590 | decoding the bytes of any serialised program is running its instructions, and stops exactly after its last byte whatever follows |
| LineProgram.SetAddressOfAnyWidth | src/dwarf.c:486-492 | a set_address operand of any width up to eight bytes that holds the address reads as that address |
| LineTables.TableIsGroupedRows | src/dwarf.c:353-410 | for every program: the table flattens to the emitted rows in order, all sequences but the last end in their only end_sequence row, the last has none, and the sequences number zero or one more than the end rows |
| LineTables.SequencesAreIndependent | src/dwarf.c:480-485 | after a program that ends with end_sequence, the rows of what follows are those decoded from scratch |
| LineTables.SequenceBytesAreIndependent | src/dwarf.c:413-427 | the same for bytes: a complete program and any bytes after it |
| LineTables.TableAscendsExactly | src/dwarf.c:351-352 | for every program that runs through, the rows of every sequence ascend, by address or by address and op_index, if and only if no emitted row lies below the row before it in its sequence |
| LineTables.GroupAscends | src/dwarf.c:353-410 | the same for any list of rows that is cut into sequences |
| LineTables.SequencesAscend | src/dwarf.c:351-352 | in either order: if no instruction goes back within a sequence, every sequence ascends, so its first and last rows bound all its rows |
| LineTables.FittingSequencesAscend | src/dwarf.c:486-556 | in particular if nothing wraps around and neither set_address nor fixed_advance_pc goes back; by op_index too if advances past an instruction have an instruction width |
| LineTables.SteppingBackShows | src/dwarf.c:486-556 | in either order the condition is needed: after any program, an instruction that goes back between two rows gives a table that does not ascend |
| LineTables.AscentCanFail | src/dwarf.c:486-492 | the bytes of a program that decode to a table not ascending by address |
| LineTables.OperationAscentCanFail | src/dwarf.c:486-524 | with two or more operations per instruction, the bytes of a program that decode to a table ascending by address but not by address and op_index |
| LineTables.ScalarOrdersAgree | src/dwarf.c:351-352 | with at most one operation per instruction, the table of any program ascends in one order exactly if it does in the other |
| LineRewrites.OpIndexStaysInRange | src/dwarf.c:435-436 | op_index stays below the maximum operations per instruction in every reachable state |
| LineRewrites.AdvanceRaisesOpPointer | src/dwarf.c:429-437 | with op_index in range, an advance by n raises maxOps * address + minInst * op_index by exactly minInst * n, less whole wrap-arounds of the address; where op_index + n wraps around 2^64 it changes by minInst * (n - 2^64) |
| LineRewrites.MergeIffMergeable | src/dwarf.c:514-524 | advancing by a and then b is advancing by a + b exactly if op_index and operands do not wrap, wrap in the same place, or the instruction width survives a full circle |
| LineRewrites.MergeCanFail | src/dwarf.c:514-524 | two programs, one with two of the other's advances merged, whose bytes decode to different tables |
| LineRewrites.MergeSafeIsNeeded | src/dwarf.c:514-524 | the guard for merging is not stricter than needed: where it fails, some program and its merged form have different tables, and so have their bytes |
| LineRewrites.ExpandSpecialsRuns | src/dwarf.c:569-586 | spelling every special opcode out as advance_line, advance_pc and copy changes neither registers nor table |
| LineRewrites.ExpandConstAddsRuns | src/dwarf.c:547-550 | const_add_pc is advance_pc by the advance of special opcode 255 |
| LineRewrites.MergeAdvancesRuns | src/dwarf.c:514-524 | merging adjacent advances under the guard changes neither registers nor table |
| LineRewrites.ResolveFixedRuns | src/dwarf.c:551-556 | every fixed_advance_pc may be replaced by the set_address it amounts to |
| LineRewrites.DropUnseenRuns | src/dwarf.c:563-567 | set_isa and ignored opcodes leave no trace in the table |
| LineRewrites.NormalisedBytesDecodeAlike | src/dwarf.c:439-590 | the bytes of a program rewritten in all three ways decode to the same table and stop at the same byte |
| LineCompiler.RowTableRoundTrip | src/dwarf.c:459-587 | for every list of rows and opcode_base at least 12, compiling, serialising and decoding gives back exactly those rows in order |
| LineHeader.FieldRoundTrip | src/dwarf.c:181-211 | each supported field form reads back into its field and leaves the others |
| LineHeader.EntryRoundTrip | src/dwarf.c:178-213 | an entry reads back under any list of supported formats, repeated ones included, fields without a format staying zero |
| LineHeader.TableRoundTrip | src/dwarf.c:269-303 | a format list and its entries read back |
| HeaderNumbers.PathForms | src/dwarf.c:22-72 | for any bytes: what content type 1 makes of forms 0x08, 0x1f, 0x0e and 0x1d in both DWARF formats and of every other form, short reads included |
| HeaderNumbers.DirectoryIndexForms | src/dwarf.c:74-96 | the same of content type 2 and forms 0x0b, 0x05 and 0x0f |
| HeaderNumbers.TimestampForms | src/dwarf.c:98-126 | of content type 3 and forms 0x0f, 0x06, 0x07 and 0x09 |
| HeaderNumbers.SizeForms | src/dwarf.c:127-153 | of content type 4 and forms 0x0f, 0x0b, 0x05, 0x06 and 0x07 |
| HeaderNumbers.OtherContentTypes | src/dwarf.c:154-211 | of content type 5 and form 0x1e, of 0x2000 to 0x3fff and of all other content types |
| HeaderNumbers.LengthAt | src/dwarf.c:219-236 | the four or twelve bytes of the initial length, and the reserved ones |
| HeaderNumbers.FixedFieldsAt | src/dwarf.c:237-260 | for any bytes: each fixed field of the header lies at its offset, in both DWARF formats, and line_base is signed |
| HeaderNumbers.OpcodeLengthsAt | src/dwarf.c:259-267 | one length for each standard opcode below opcode_base, zeros if they are not all there |
| SectionExample.ExampleSection | src/dwarf.c:592-627 | a section written out byte for byte parses to exactly the header, directories, files and rows written out beside it |
| LineSection.HeaderRoundTrip | src/dwarf.c:216-342 | the whole header reads back, whatever its header_length says, and reading stops where its last field ends |
| LineSection.UnitRoundTrip | src/dwarf.c:439-454 | a unit with any complete program that runs through, in any of its encodings, reads back and takes exactly unit_length plus 4 or 12 bytes |
| LineSection.UnitTakesItsLength | src/dwarf.c:446-459 | for any bytes: a unit that reads through takes exactly unit_length plus 4 or 12 bytes if and only if unit_length has room for the header and the bytes of the parsed header, plus those the last instruction reads past the program, number what header_length says |
| LineSection.HeaderLengthShifts | src/dwarf.c:446-459 | where header_length counts d bytes more than the parsed header has, what is decoded is the bytes right after the parsed header, d bytes fewer than there are |
| LineSection.MisframedUnit | src/dwarf.c:446-464 | so a complete program followed by as many bytes as header_length counts too many is decoded, and those bytes are left for the next unit |
| LineSection.FramingCanFail | src/dwarf.c:602-604 | a unit with one more header byte, counted by header_length, before a program with a row: its table stays empty and the section ends in a failed assert |
| LineSection.SectionRoundTrip | src/dwarf.c:592-627 | any list of units, 32-bit and 64-bit mixed and with programs in any complete encoding, reads back as exactly its headers, directories, files and tables |
| LineSection.FormatIndependence | src/dwarf.c:30-43 | the same units in 32-bit and in 64-bit DWARF read as the same parameters, directories, files and tables |
| LineSection.UnitShrinks | src/dwarf.c:602-604 | every unit takes at least one byte, so the section loop ends on any bytes |
| SectionReader.ReadLnctEntries | src/dwarf.c:173-214 | the nested entry loops compute the entries, or the crash, of the bytes under the given formats |
| SectionReader.ParseLineHeader | src/dwarf.c:216-342 | for any bytes the header parser computes the header and leaves the rest, ignoring read errors as the code does |
| SectionReader.ParseDebugLineSection | src/dwarf.c:592-627 | for any bytes the section parser returns what ReadSection says of them |
| LineLookup.GetInstructionsForLine | src/debug.c:441-472 | all non-end rows of the line over all sequences, in emission order; they ascend exactly if they do within each sequence and no sequence holds one above one of a later sequence |
| LineLookup.RowsOfLinePicked | src/debug.c:451-469 | these are the rows, at increasing positions, whose line is the given one and that end no sequence, and no others |
| LineLookup.LineAscendsExactly | src/debug.h:72 | for every table, line and either order: the rows of the line over all sequences ascend if and only if they do within each sequence and no sequence holds one above one of a later sequence |
| LineLookup.LineOfAscendingTable | src/debug.h:72 | where every sequence ascends, if and only if no sequence holds a row of the line above one of a later sequence |
| LineLookup.LineOrderCanFail | src/debug.c:441-472 | the bytes of a program that decode to a table whose sequences all ascend but whose rows of line 1 do not, in either order |
| LineLookup.TargetIsFirstCandidate | src/debug.c:564-577 | the chosen address is that of the first non-end is_stmt row of the line, and there is none exactly if there is no such row |
| LineLookup.TargetOnRows | src/debug.c:564-577 | the same written out on the rows: the address of the row of the line that ends no sequence, has is_stmt and has no such row before it |
| LineLookup.DecodedTargetIsLowest | src/debug.c:441-472 | on tables of programs that never go back it is the lowest is_stmt address of the line within its sequence |
| LineLookup.AscendingLineTargetIsLowest | src/debug.c:564-577 | where the rows of the line ascend over all sequences, it is the lowest is_stmt address of the line in the whole table |
| Registry.TogglesKeepInv | src/debug.c:480-653 | addresses, pairs and source addresses stay unique, every source address registered and equal to a fresh lookup, every stored byte the text byte |
| Registry.PresentLineOk | src/debug.c:641-648 | for a source breakpoint that is set, the asserts on the way of setting it again hold |
| Registry.WithoutMembers | src/debug.c:514-526 | removal by address leaves exactly the breakpoints at other addresses, and registers no address anew |
| Registry.ToggleSourceTwice | src/debug.c:637-653 | toggling a source breakpoint twice restores both registries up to order, exactly if it was absent |
| Registry.ToggleAddressTwice | src/debug.c:540-549 | toggling an address twice restores both registries if and only if no source breakpoint stood there |
| DebugSession.Session.RemoveBreakpoint | src/debug.c:511-538 | in every state with unique addresses and pairs, the in-place, mutually recursive removal takes out exactly the entries at the address from both registries, keeps the order of the rest and terminates |
| DebugSession.Session.RemoveSourceBreakpoint | src/debug.c:609-635 | a source breakpoint goes with the breakpoint at its address; without one nothing changes |
| DebugSession.Session.SetSourceBreakpoint | src/debug.c:551-607 | succeeds exactly when the pair is new and the first is_stmt row of the line has an unregistered address, which is then registered with its text byte |
| DebugSession.Session.AddBreakpoint | src/debug.c:480-509 | fails exactly on a registered address, else appends it with its text byte |
| DebugSession.Session.ToggleBreakpoint | src/debug.c:540-549 | takes the session to the next state of the protocol |
| DebugSession.Session.ToggleSourceBreakpoint | src/debug.c:637-653 | takes the session to the next state of the protocol |
| DebugSession.Session.InjectBreakpoints | src/debug.c:145-162 | stores 0xcc at every registered address except the instruction pointer, through word accesses, and leaves every other byte as it was |
| DebugSession.Session.SpawnInferior | src/debug.c:164-200 | a spawn takes the session to the next state of the protocol |
| DebugSession.Session.ContinueInferior | src/debug.c:202-210 | so does a continue |
| DebugSession.Session.HandleSigtrap | src/debug.c:266-289 | so does handling a SIGTRAP |
| DebugSession.Session.HandleStatus | src/debug.c:252-296 | one reported status: exit ends the process, a SIGTRAP stop is handled, anything else changes nothing |
| DebugSession.Session.HandleInferiorSignal | src/debug.c:240-298 | the loop handles all reported statuses in order until the process is gone, and keeps the protocol invariant |
| DebugSession.Session.WaitForStop | src/debug.c:251-291 | a process that runs on until a signal stops it, and the handling of that, is the next state of the protocol |
| Inferior.InjectByte | src/debug.c:133-138 | reading, patching and writing a word stores exactly one byte |
| Inferior.PatchStoresByte | src/debug.c:133-138 | the same of memory as a value, with addresses that wrap around |
| DebugModel.RelocationRoundTrip | src/debug.c:66-70 | relocating to run-time addresses and back is the identity for every pair of load addresses |
| DebugModel.RealKeepsDistances | src/debug.c:66-70 | relocation takes the load address of the file to that of the process and keeps distances |
| DebugModel.RealInjective | src/debug.c:66-70 | distinct breakpoints have distinct run-time addresses |
| DebugModel.RunKeepsInv | src/debug.c:133-298 | over every run of spawns, continues, stops, exits and toggles, the text of the process is the file's with INT3 exactly at the planted addresses |
| DebugModel.TextIsSafe | src/debug.c:145-162 | in every reachable state every text byte is the file's or 0xcc, and differs only at addresses registered at some injection since the spawn |
| DebugModel.InjectionArmsAll | src/debug.c:140-162 | right after every injection every registered address except the instruction pointer holds 0xcc |
| DebugModel.InjectedTrapsOnly | src/debug.c:145-162 | for any memory: the bytes at the breakpoints but the instruction pointer become 0xcc, no other byte changes |
| DebugModel.InjectionIsExact | src/debug.c:164-210 | a spawn leaves the process stopped at its entry, a continue running from where it stands, with the memory changed by exactly that injection |
| DebugModel.OtherStatuses | src/debug.c:252-296 | of the statuses only an exit and a stop by signal 5 do anything |
| DebugModel.StatusesInTurn | src/debug.c:251-297 | all statuses of a call count, one after another |
| DebugModel.ExitForgets | src/debug.c:252-264 | an exit leaves no process and no saved instruction pointer, and every breakpoint |
| DebugModel.TrapRestores | src/debug.c:265-289 | after a trap behind a registered address its byte is the file's again, the instruction pointer is back on it and is reported as that breakpoint's address; behind any other address the process is left alone |
| DebugModel.TrappedBreakpointRearms | src/debug.c:140-162 | a breakpoint the process is stopped on is out while it leaves and in again at the next continue from elsewhere |
| DebugModel.RemovedBreakpointStaysPlanted | src/debug.c:511-538 | in every reachable state, toggling off a planted breakpoint unregisters its address, its INT3 stays in the process, and a trap on it is neither restored nor rewound |
| DebugModel.ToggleTwiceRestores | src/debug.c:637-653 | in every reachable state toggling a source breakpoint twice restores both registries up to order, exactly if it was absent, and leaves the process alone |
| DebugModel.SourceIsLost | src/debug.c:511-549 | in every reachable state where a source breakpoint can be set: once it is set, toggling its address twice leaves the address registered and the source breakpoint gone |
| DebugModel.SmallImageLosesSource | src/debug.c:511-549 | an image of one byte and one row where a session loses a source breakpoint so |
| DebugSession.Session.GetInstructionPointerVma | src/debug.c:434-437 | the reported address is the one and only file address that is loaded where the saved instruction pointer points to |
| KeyMotion.InputBuffer.GetInputKey | src/tui.c:665-681 | a key joins the buffer, and the tenth starts it over |
| KeyMotion.InputBuffer.OnMotionInput | src/tui.c:683-745 | the message a motion key makes of the typed keys, by scanning back over the digits; any message clears the buffer |
| KeyMotion.CountedKeys | src/tui.c:684-735 | the digits before j, k, h and l are the count of the motion down, up, left and right, one without digits |
| KeyMotion.LineKey | src/tui.c:715-735 | the digits before G are the line asked for, 0 (the end) without digits |
| KeyMotion.SectionKeys | src/tui.c:694-698 | Ctrl-w and j, k, h or l ask for the section below, above, left or right |
| KeyMotion.ChordKeys | src/tui.c:700-714 | Ctrl-u and Ctrl-d move half a window up and down, gg goes to the start, a single g waits |
| KeyMotion.KeyNumbers | src/tui.h:13-23 | the characters of the motion keys, and digit strings as decimal numbers |
| Scrolling.MotionReaches | src/tui.c:119-152 | a motion goes as far as asked or to the edge, half and whole windows included, keeps the cursor visible and scrolls no further than any position that would show it; 0, left and right move nothing |
| Scrolling.NothingToMove | src/tui.c:107-109 | without a focused buffer or in an empty one nothing changes |
| Scrolling.MotionCaches | src/tui.c:154-162 | in the source window a new line's rows are cached: exactly those of the table with that 1-based line that end no sequence, in order |
| Scrolling.TuiModel.OnBufferMotion | src/tui.c:106-164 | a motion moves the cursor within the buffer, scrolls just enough and reloads the cached rows if a source line changed |
| Scrolling.OnCountKey | src/tui.c:683-745 | one key of a count changes buffer, view and cached rows as the pure key step does |
| Scrolling.MovedTwice | src/tui.c:128-152 | from a visible cursor, moving m and then n lines is moving m + n lines |
| Scrolling.CountedMotion | src/tui.c:719-739 | typing any digits and then j or k reaches the same cursor line, scroll position and cached rows as that many single presses, cursor visible and buffer cleared |
| Scrolling.CountOfUpTo8 | src/tui.c:725-733 | up to eight digits count as their decimal value |
| Scrolling.CountExactness | src/tui.c:665-675 | for any digits, j or k and any visible cursor: the typed count is as good as that many presses if and only if both counts, cut off at the lines there are to move, agree, or no buffer has the focus |
| Scrolling.CountOnDigits | src/tui.c:665-675 | the code's count is the decimal value of all typed digits if and only if the digits it dropped are zeros or, where it dropped all, their value is one |
| Scrolling.CountCanFail | src/tui.c:665-675 | 123456789 and j in a buffer of a hundred lines moves by one line where that many presses move to the end |
| EndToEnd.CompiledSection | src/dwarf.c:592-627 | a section written from lists of rows parses to tables of exactly those rows |
| EndToEnd.BreakpointFromRows | src/debug.c:145-162 | setting a breakpoint on a line of such a section and spawning registers its first is_stmt row and puts exactly one 0xcc there, or none if the process starts right there |

## Left out

- ptrace, fork, waitpid, signalfd, `/proc/<pid>/maps` and the pty are replaced by an abstract process that is read and written by words and registers while stopped, and by steps of the environment; ptrace on a running process is not modelled.
- HandleInferiorSignal: between the statuses of one call the process stays as the debugger left it, as a ptrace-stopped process does until it is continued; a SIGKILL from elsewhere in between is not modelled. After a death by signal the C session still counts the process as alive; continuing it then is not modelled.
- SpawnInferior: that the loaded text equals the file's text and that the words at text addresses are mapped is assumed of the system.
- OnBufferMotion: line counts are below 2^63, so line arithmetic does not wrap around.
- Reading from ELF files, source files and path joining, ncurses drawing, the disassembly view, the picker and the message queue: input, output and plumbing.
- Memory allocation: arrays grown by reallocarray are sequences; failing allocations (other than the one for opcode_base 0), leaks and frees are not modelled.
- Field forms the code reads into variables it did not set, vendor content types and reserved lengths end in `Crash` and have no serialised form.
- Go-to-line, window switching and half-page keys are decided by OnMotionInput; of their effects only the half-page motion is modelled.
