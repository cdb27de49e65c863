# A verified model of the jcp toolchain

The jcp toolchain targets the 8-bit computer from J. Clark Scott's "But How Do It
Know?". This project models its core in Dafny:

- the CPU emulator (`jcpu`);
- the instruction-set table shared by every tool (`mach_code`);
- the assembler and its tokenizer (`jcpasm`);
- the disassembler (`disasm`);
- the compiler for the small structured language (`lang`) and its tokenizer;
- the `%define` preprocessor;
- the generic singly linked list and chained hash table.

Every operation is a pure function over immutable data:

- The machine state holds 256 bytes of RAM and eleven one-byte registers, in the
  source's slot order (MAR, IAR, IR, CF, AF, EF, ZF, R0..R3).
- A byte is `bv8`, so every register and address computation wraps modulo 256
  as `unsigned char` arithmetic does.
- A text is a `string`, and a file is the sequence of its lines, each lexed whole
  (lines longer than one 256-byte `fgets` buffer are under "Left out").
- The list is the sequence of its data. The hash table is a sequence of buckets,
  each a sequence of elements.
- Every fatal error (`quit()` or `exit()` in the source) is a `Failure` of a
  `Result`.
- A lexer that the parser pulls one token at a time is modelled as the whole token
  stream it would deliver. The stream ends at the end of input or at the error that
  stops the lexer.

Modules, one per source component:

| module | file | models |
|---|---|---|
| `Wrappers` | wrappers.dfy | `Option` and `Result` |
| `Text` | text.dfy | `<ctype.h>`, C strings, `sscanf("%d")`/`("%x")`, `sprintf("%d")`, line preparation |
| `MachCode` | mach_code.dfy | jcp/mach_code.h, jcp/mach_code.c |
| `Cpu` | cpu.dfy | jcp/jcpu.h, jcp/jcpu.c |
| `LinkedList` | list.dfy | jcp/adt/list.c |
| `Chtbl` | chtbl.dfy | jcp/adt/chtbl.c |
| `AsmLexer` | asm_lexer.dfy | jcp/jcpasm/lexjcpa.c |
| `Assembler` | assembler.dfy | jcp/jcpasm/jcpasm.c |
| `Disasm` | disasm.dfy | jcp/disasm.c |
| `Encoding` | encoding.dfy | assembler and disassembler against each other |
| `LangLexer` | lang_lexer.dfy | jcp/lang/lexlang.c |
| `Lang` | lang.dfy | jcp/lang/lang.c |
| `LoopExits` | loop_exits.dfy | the loop-exit label protocol of jcp/lang/lang.c |
| `LangSemantics` | lang_semantics.dfy | compiled assignments and IF conditions, run on `Cpu` |
| `CompiledLines` | compiled_lines.dfy | compiler output lines read back by the assembler |
| `Preproc` | preproc.dfy | jcp/preproc/preproc.c |

## Model

| member | source | states |
|---|---|---|
| Cpu.GReg | jcp/jcpu.h:12-13 | general register k lives in slot 7 + k, after the four flag slots 3..6 |
| Cpu.RaSlot | jcp/jcpu.c:16 | RA is the general register named by bits 3-2 of IR |
| Cpu.RbSlot | jcp/jcpu.c:17 | RB is the general register named by bits 1-0 of IR |
| Cpu.Reset | jcp/jcpu.c:21-22 | the power-on state has all of RAM and every register at zero |
| Cpu.LoadProgram | jcp/jcpu.c:42-64 | RAM cell i receives code[i] for every i below both csize and 256; every other cell and every register is unchanged |
| Cpu.Fetch | jcp/jcpu.c:66-78 | MAR takes IAR, IR takes the byte at IAR, and IAR moves on by one modulo 256; no other register or memory changes |
| Cpu.Decode | jcp/jcpu.c:76 | every IR value dispatches to the opcode whose code is the high nibble of IR, so a step is defined for all 256 bytes |
| Cpu.Load | jcp/jcpu.c:80-88 | RB receives the byte at address RA, and MAR holds RA; nothing else changes |
| Cpu.Store | jcp/jcpu.c:90-98 | the byte at address RA becomes RB, and MAR holds RA; that is the only memory write and only MAR changes among the registers |
| Cpu.DataOp | jcp/jcpu.c:100-110 | RB receives the operand byte at IAR, and IAR moves past it; only MAR, IAR and RB change |
| Cpu.JmpR | jcp/jcpu.c:112-118 | IAR becomes RB; nothing else changes |
| Cpu.JmpOp | jcp/jcpu.c:120-128 | IAR becomes the operand byte, without a separate advance; only MAR and IAR change |
| Cpu.JCond | jcp/jcpu.c:130-148 | IAR becomes the operand byte when IR & the packed flags (C,A,E,Z in bits 3..0) is nonzero; otherwise IAR moves past the operand; only MAR and IAR change |
| Cpu.ClearFlags | jcp/jcpu.c:150-155 | CLF zeroes exactly CF, AF, EF and ZF |
| Cpu.Add | jcp/jcpu.c:163-182 | RB becomes RA + RB + CF modulo 256; CF records whether RA + RB, without the carry-in, exceeds 255; ZF records a zero result; AF and EF are unchanged |
| Cpu.AddCarryExample | jcp/jcpu.c:173-181 | 0xFF + 0x01 with CF clear gives 0 in RB with CF and ZF set, and leaves RA alone |
| Cpu.AddChainsBytes | jcp/jcpu.c:163-182 | two ADDs chained through CF compute a 16-bit sum; the second carry-in takes effect even though CF itself ignores the carry-in |
| Cpu.Shr | jcp/jcpu.c:184-200 | RB becomes RA shifted right with the old CF entering bit 7; CF takes old bit 0 of RA; ZF records a zero result |
| Cpu.Shl | jcp/jcpu.c:202-218 | with CF a truth value, RB becomes RA shifted left with CF entering bit 0; CF takes old bit 7 of RA; ZF records a zero result |
| Cpu.Not | jcp/jcpu.c:220-233 | RB becomes 255 - RA, the bitwise complement; only RB and ZF change |
| Cpu.And | jcp/jcpu.c:235-248 | each bit of RB becomes the AND of that bit of RA and RB; only RB and ZF change |
| Cpu.Or | jcp/jcpu.c:250-263 | each bit of RB becomes the OR of that bit of RA and RB; only RB and ZF change |
| Cpu.Xor | jcp/jcpu.c:265-278 | each bit of RB becomes the XOR of that bit of RA and RB; only RB and ZF change |
| Cpu.Cmp | jcp/jcpu.c:280-293 | AF records RA > RB unsigned and EF records RA == RB; nothing else changes |
| Cpu.Execute | jcp/jcpu.c:76-293 | the dispatched handler never changes IR, and no handler except STORE writes memory |
| Cpu.ExecuteWritesOnlyRb | jcp/jcpu.c:80-293 | RB is the only general register any handler may change |
| Cpu.ExecuteKeepsIar | jcp/jcpu.c:80-293 | only DATA, JMPR, JMP and JCOND move IAR |
| Cpu.ExecuteKeepsFlagsWellFormed | jcp/jcpu.c:150-293 | when the four flags each hold 0 or 1, every handler keeps them so |
| Cpu.Step | jcp/jcpu.c:66-78 | the instruction a cycle executes is the byte at IAR, and the cycle writes memory only when that byte is a STORE |
| Cpu.StepFootprint | jcp/jcpu.c:66-78 | one step loads IR from the byte at IAR, writes memory only when that byte is STORE, and changes no general register except its RB |
| Cpu.StepAdvancesBySize | jcp/jcpu.c:66-78 | apart from the jumps, a step moves IAR on by the table size of the instruction, modulo 256 |
| Cpu.StepKeepsFlagsWellFormed | jcp/jcpu.c:66-78 | a step keeps every flag at 0 or 1 |
| Cpu.Run | jcp/jcpu.c:66-78 | any number of cycles keep every flag at 0 or 1 |
| Cpu.RunSplits | jcp/jcpu.c:66-78 | running m cycles and then n more is running m + n cycles, so the machine has no state outside registers and RAM |
| Cpu.JCondTakenIff | jcp/jcpu.c:142-145 | with flags at 0 or 1, the bit test of JCOND succeeds iff some flag named in the low nibble of IR is set |
| Cpu.StepJCond | jcp/jcpu.c:130-148 | a step on a JCOND byte lands on its operand when a requested flag is set and on the byte after the operand otherwise |
| Cpu.ClearFlagsDisablesJumps | jcp/jcpu.c:150-155 | after CLF no flag is set and no conditional jump is taken; CLF is idempotent |
| MachCode.Code | jcp/mach_code.h:10-16 | every opcode has a code below INSTR_COUNT = 16 |
| MachCode.OpcodeOf | jcp/mach_code.h:10-16 | every code below 16 names exactly one opcode |
| MachCode.OpcodeOfCode | jcp/mach_code.h:10-16 | the code of an opcode names that opcode again |
| MachCode.Size | jcp/mach_code.c:13-30 | the size is 2 exactly for DATA, JMP and JCOND, and 1 otherwise |
| MachCode.SizeFromTable | jcp/mach_code.c:13-30 | the size agrees with the `mcode` table row |
| MachCode.Name | jcp/mach_code.c:13-30 | the name is "J" exactly for JCOND, and starts with 'J' exactly for JMPR, JMP and JCOND |
| MachCode.NameFromTable | jcp/mach_code.c:13-30 | the name agrees with the `mcode` table row |
| MachCode.TableOrdered | jcp/mach_code.c:12-30 | the table has 16 rows, and row i holds code i |
| MachCode.NamesDistinct | jcp/mach_code.c:14-29 | no two rows share a mnemonic |
| MachCode.GregName | jcp/mach_code.c:33 | general register k is named 'R' followed by the digit k |
| MachCode.FlagName | jcp/mach_code.c:34 | the flag masks 8, 4, 2, 1 are named C, A, E, Z; every other index up to 8 names "" |
| MachCode.RegFieldOfBits | jcp/disasm.c:105-106 | a register field read back gives the register written |
| MachCode.OpcodeOfBits | jcp/disasm.c:71 | every high nibble names the opcode whose code it is |
| MachCode.MaskFieldOfBits | jcp/disasm.c:128 | a condition mask read back from a low nibble gives the mask written |
| MachCode.MaskOf | jcp/jcpasm/jcpasm.c:159-164 | the mask built from four flag letters has exactly those four bits |
| MachCode.MaskOfBits | jcp/jcpasm/jcpasm.c:159-164 | a mask is rebuilt from its own four bits |
| Text.ToUpper | jcp/jcpasm/lexjcpa.c:146 | a lower-case letter becomes its upper-case partner; other characters are unchanged |
| Text.PrepareLine | jcp/jcpasm/lexjcpa.c:144-149 | the prepared line has the same length, no lower-case letter and no comma |
| Text.PrepareLineKeeps | jcp/jcpasm/lexjcpa.c:144-149 | a line with no lower-case letter and no comma is already prepared |
| Text.CString | jcp/preproc/preproc.c:285 | the string a buffer holds is the prefix up to its first NUL |
| Text.ScanDecimal | jcp/jcpasm/jcpasm.c:235 | `sscanf("%d")` succeeds iff a decimal digit follows the leading white space and an optional sign |
| Text.ScanDecimalReads | jcp/jcpasm/jcpasm.c:257 | white space, an optional sign and a run of digits that ends at a non-digit read as the run's value, negated after '-' |
| Text.ScanHex | jcp/jcpasm/jcpasm.c:233 | `sscanf("%x")` succeeds iff a hexadecimal digit follows the leading white space and an optional 0x or 0X |
| Text.ScanHexReads | jcp/jcpasm/jcpasm.c:233 | white space, an optional 0x or 0X and a run of hexadecimal digits that ends at a non-digit read as the run's value |
| Text.ScanPrintedDecimal | jcp/lang/lang.c:218 | `sscanf("%d")` reads back the number `sprintf("%d")` printed |
| Text.ScanHexByteText | jcp/jcpasm/jcpasm.c:232-233 | `sscanf("%x")` reads back a byte printed as "0X" and two hex digits |
| AsmLexer.TakeLexeme | jcp/jcpasm/lexjcpa.c:166-183 | the lexeme and the rest concatenate to the input; it fits the 64-byte buffer; a label keeps its '.', and any other lexeme is alphanumeric and maximal unless the buffer is full |
| AsmLexer.Classify | jcp/jcpasm/lexjcpa.c:206-210 | the kind is decided by the first character: 'R' is a register ahead of the other letters, '.' a label, another letter an instruction, a digit a literal, anything else no token |
| AsmLexer.LexLine | jcp/jcpasm/lexjcpa.c:130-212 | every token of a line is a nonempty classified lexeme that fits the buffer and carries the line's number |
| AsmLexer.Lex | jcp/jcpasm/lexjcpa.c:130-212 | each line is read up to its first NUL; every token is classified and fits the buffer, and carries the number of the input line it was read from, counting from the first |
| AsmLexer.LexStopsAtNul | jcp/jcpasm/lexjcpa.c:137-161 | a NUL ends its line: the text after it changes nothing, and the line gives exactly the tokens of the text before it |
| AsmLexer.CurrentAt | jcp/jcpasm/lexjcpa.c:105-109 | the parser sees a token inside the stream, a stop only after the last token of a stopped stream, and end of input otherwise |
| AsmLexer.Match | jcp/jcpasm/lexjcpa.c:90-103 | the position advances by one exactly when the current token has the expected kind |
| AsmLexer.BlankOrCommentLine | jcp/jcpasm/lexjcpa.c:156-162 | a line of white space, or of a comment after white space, gives no token and no error |
| AsmLexer.TakeAtComment | jcp/jcpasm/lexjcpa.c:180-191 | at a '#' the lexeme is empty and the comment is left to be discarded |
| AsmLexer.LexWordThenSpace | jcp/jcpasm/lexjcpa.c:180-204 | a word followed by a space becomes one token ahead of the tokens of the rest |
| AsmLexer.LexSpacedWords | jcp/jcpasm/lexjcpa.c:130-212 | words separated by spaces come back as exactly those words, in order, each classified by its first character |
| AsmLexer.LexemeAsWritten | jcp/jcpasm/lexjcpa.c:166-183 | the loops as written copy up to 64 characters, or 65 for a label with ':', so the NUL goes up to two cells past the buffer |
| AsmLexer.LexemeAsWrittenAgreesIff | jcp/jcpasm/lexjcpa.c:166-183 | the loops as written agree with the buffer-bounded lexeme exactly when their NUL lands inside the 64-byte buffer |
| AsmLexer.LongWordOverrunsBuffer | jcp/jcpasm/lexjcpa.c:180-183 | 64 letters in a row put the NUL at index 64, past the end of the buffer |
| AsmLexer.LongLabelOverrunsBuffer | jcp/jcpasm/lexjcpa.c:169-183 | a '.', 63 letters and a ':' put the NUL at index 65 |
| Assembler.HashName | jcp/jcpasm/jcpasm.c:272-276 | a name starting with a letter hashes to one of the 26 buckets |
| Assembler.MnemonicRow | jcp/jcpasm/jcpasm.c:178-185 | a name finds a row iff some row of the opcode table has that exact name, and then it finds that row |
| Assembler.InsertNextRow | jcp/jcpasm/jcpasm.c:101-103 | inserting the next table row always succeeds and keeps the table holding exactly the rows inserted so far |
| Assembler.BuildInstrTable | jcp/jcpasm/jcpasm.c:92-103 | the built table is valid, holds all 16 rows, and looking up any name gives that name's table row |
| Assembler.Accept | jcp/jcpasm/jcpasm.c:298-312 | the current token is taken iff it has the expected kind and the lexer has not stopped right after it; a stopped lexer's error is reported |
| Assembler.ParseAddress | jcp/jcpasm/jcpasm.c:225-246 | a literal whose hex or decimal value is 0..255 becomes that byte, and only such a literal succeeds |
| Assembler.ParseRegister | jcp/jcpasm/jcpasm.c:248-270 | a register token is accepted only as 'R' followed by a decimal number 0..3, and gives that register |
| Assembler.ScanFlags | jcp/jcpasm/jcpasm.c:157-170 | the letters are accepted iff each is one of C, A, E, Z, and the result tells which of the four occur |
| Assembler.ParseMask | jcp/jcpasm/jcpasm.c:152-170 | a condition suffix is accepted iff it uses only C, A, E and Z; the mask has exactly the bits of the letters present, in any order and with repeats |
| Assembler.ParseDataOperands | jcp/jcpasm/jcpasm.c:200-205 | DATA takes a register, then an address byte |
| Assembler.ParseRegPair | jcp/jcpasm/jcpasm.c:206-211 | a two-register instruction takes RA, then RB |
| Assembler.ParseOperands | jcp/jcpasm/jcpasm.c:186-213 | CLF takes no operand, JMP an address, JMPR a register, DATA a register and an address, every other opcode a register pair |
| Assembler.ParseInstr | jcp/jcpasm/jcpasm.c:146-223 | a parsed instruction consumes its tokens, is named by its instruction token (a 'J' without 'M' next is a conditional jump), and is well formed |
| Assembler.MnemonicRowOf | jcp/jcpasm/jcpasm.c:178-185 | every opcode but the conditional jump is found in the table under its own name, which is not a condition name |
| Assembler.TableNameOperands | jcp/jcpasm/jcpasm.c:178-185 | an instruction token spelling a table name other than 'J' is followed by that opcode's operand parser, whatever comes next |
| Assembler.ParseOperandsComplete | jcp/jcpasm/jcpasm.c:186-213 | the operand tokens of any instruction other than a conditional jump are read back as that instruction |
| Assembler.CondJumpComplete | jcp/jcpasm/jcpasm.c:152-170 | 'J' with letters naming a mask, followed by its address, is read back as that conditional jump |
| Assembler.ParseInstrComplete | jcp/jcpasm/jcpasm.c:146-223 | every assemblable instruction, written with its table name or its condition letters and followed by its operand tokens, is read back as itself, using exactly those tokens |
| Assembler.Encode | jcp/jcpasm/jcpasm.c:146-223 | an instruction takes exactly its table size in bytes |
| Assembler.EncodeFields | jcp/jcpasm/jcpasm.c:152-213 | the opcode goes in the high nibble, RB in bits 1-0, RA in bits 3-2, a mask in the low nibble, and an address or value in the second byte |
| Assembler.EncodeAll | jcp/jcpasm/jcpasm.c:111-125 | a program takes between one and two bytes per instruction |
| Assembler.Program | jcp/jcpasm/jcpasm.c:111-125 | every instruction the main loop reads is assemblable |
| Assembler.ProgramCons | jcp/jcpasm/jcpasm.c:111-125 | once the first instruction is read, the program is that instruction followed by the rest, and a failure in the rest is the program's failure |
| Assembler.Cut | jcp/jcpasm/jcpasm.c:128-137 | the saved bytes are the first 256 of the code, with the warning exactly when the code is longer |
| Assembler.ParseFrom | jcp/jcpasm/jcpasm.c:111-125 | what the main loop appends is the encoding of the instructions read, and it fails exactly when reading them fails, with the same error; it stops once more than 256 bytes exist, so at most 258 are produced |
| Assembler.Assemble | jcp/jcpasm/jcpasm.c:111-137 | the saved code is the encoding of the instructions read, cut to its first 256 bytes, with the truncation warning exactly when bytes were cut; a lexical error before the first token, or else the parser's first error, is the result |
| Disasm.Decode | jcp/disasm.c:65-143 | the opcode is the high nibble of the byte; RA and RB, the mask or the operand byte are read from the fields the encoder writes |
| Disasm.FlagSuffix | jcp/disasm.c:126-132 | the suffix of a conditional jump names exactly the set mask bits, in the order C, A, E, Z |
| Disasm.LettersIn | jcp/disasm.c:129-132 | the four looked-up flag names together name exactly the set bits |
| Disasm.Mnemonic | jcp/disasm.c:90 | the shown mnemonic is the table name, with the condition letters after "J" for a conditional jump |
| Disasm.OperandAt | jcp/disasm.c:83 | the operand is the next byte of the buffer; a zeroed buffer gives 0 after its end |
| Disasm.DisasmFrom | jcp/disasm.c:54-60 | the walk from an offset is empty iff the offset is at or past the size, and otherwise starts at that offset |
| Disasm.DisasmFromDecodes | jcp/disasm.c:54-60 | every row lies below the size and holds the decoding of the bytes at its offset |
| Disasm.DisasmFromChained | jcp/disasm.c:54-60 | each row starts where the previous instruction ends, by its table size |
| Disasm.DisasmFromFirst | jcp/disasm.c:54-60 | the walk is the row at the offset, then the walk from the next instruction |
| Disasm.Disassemble | jcp/disasm.c:30-63 | a nonempty buffer lists its first instruction at offset 0 |
| Encoding.OpcodeOfCodeBits | jcp/disasm.c:71 | the high nibble written by the encoder reads back as its opcode |
| Encoding.AsDisassembled | jcp/disasm.c:92-138 | the shown instruction has the same opcode, and differs from the original only for PAD, whose operands are not decoded |
| Encoding.DecodeEncode | jcp/disasm.c:92-138 | decoding the bytes of any instruction gives it back, except that PAD loses its ignored operands |
| Encoding.EncodeDecode | jcp/jcpasm/jcpasm.c:152-213 | encoding what a byte decodes to restores the byte, except for the bits the opcode ignores |
| Encoding.ParseMaskOfSuffix | jcp/jcpasm/jcpasm.c:152-170 | the condition letters the disassembler prints are read back by the assembler as the same mask |
| Encoding.SuffixOfParsedMask | jcp/disasm.c:126-132 | any accepted spelling of a condition is printed back in the one order C, A, E, Z |
| Encoding.Listing | jcp/disasm.c:54-60 | a program's listing has one row per instruction |
| Encoding.DisasmEncoded | jcp/disasm.c:54-60 | walking the bytes of an encoded program lists exactly that program, at the offsets its sizes give |
| Encoding.DisassembleAssembled | jcp/jcpdis/jcpdis.c:63-86 | disassembling an assembled program from a zeroed 256-byte buffer lists the program |
| Encoding.CpuDecodeAgrees | jcp/jcpu.c:76 | the emulator and the disassembler read the same opcode from every byte |
| LinkedList.Head | jcp/adt/list.c:17 | the head exists iff the list is nonempty, and it is the first node |
| LinkedList.Tail | jcp/adt/list.c:18 | the tail exists iff the list is nonempty, and it is the last node |
| LinkedList.Init | jcp/adt/list.c:10-21 | a new list is empty, with neither head nor tail, and keeps its callbacks |
| LinkedList.InsNext | jcp/adt/list.c:40-74 | the data go in at the head for NULL and after the node otherwise; size grows by one; the tail moves to the new node when inserting into an empty list or after the tail |
| LinkedList.RemNext | jcp/adt/list.c:76-115 | removal fails on an empty list and after the tail; otherwise it returns the data after the node (or the head), shrinks the size by one, and a removed tail makes the node the new tail |
| LinkedList.InsertThenRemove | jcp/adt/list.c:40-115 | removing after the same position gives back the inserted data and the original list |
| LinkedList.ApplyElmt | jcp/adt/list.c:117-140 | it fails iff there is no function; otherwise it applies the function to every node for NULL, or to the one node |
| LinkedList.MapAll | jcp/adt/list.c:129-134 | each datum is replaced by the function's value on it |
| LinkedList.FindFrom | jcp/adt/list.c:175-196 | the result is the first node from the start (or the head) that compares equal to the key; none when no node does, when the list is empty or without a comparison |
| LinkedList.FindAt | jcp/adt/list.c:186-195 | linear search finds the first matching position at or after k, or reports that none matches |
| LinkedList.Destroy | jcp/adt/list.c:23-38 | the list ends empty, and every datum is handed to the destroy callback, head first, exactly when there is one |
| LinkedList.SwapNext | jcp/adt/list.c:164-166 | swapping two neighbours keeps the multiset of data |
| LinkedList.SwapRemovesInversion | jcp/adt/list.c:161-167 | swapping a pair that compares as the direction removes exactly one out-of-order pair |
| LinkedList.BubblePass | jcp/adt/list.c:159-169 | a pass keeps the multiset; it swaps iff some neighbours were out of order, and then fewer pairs are out of order |
| LinkedList.Sort | jcp/adt/list.c:142-173 | it fails iff the size is below 2, there is no comparison or the direction is not ±1; otherwise it keeps the multiset and ends with no neighbours comparing as the direction |
| Chtbl.BucketOf | jcp/adt/chtbl.c:59 | a key hashes to a bucket in range |
| Chtbl.Init | jcp/adt/chtbl.c:8-32 | a new table has the requested number of empty buckets, size 0, and satisfies the invariant |
| Chtbl.FindKey | jcp/adt/chtbl.c:104 | bucket search finds the first element with the key, or reports that none has it |
| Chtbl.Lookup | jcp/adt/chtbl.c:97-114 | a found element has the key and sits in the key's bucket; not found means no element of that bucket has the key |
| Chtbl.LookupComplete | jcp/adt/chtbl.c:97-114 | in a valid table, searching one bucket finds a key iff any stored element has it |
| Chtbl.LookupUnique | jcp/adt/chtbl.c:97-114 | in a valid table, lookup returns the one stored element with the key |
| Chtbl.Insert | jcp/adt/chtbl.c:49-66 | an element whose key is present is refused with CHTBL_ELMT_EXISTS and the table unchanged; otherwise it goes at the head of its bucket and the size grows by one |
| Chtbl.InsertKeepsValid | jcp/adt/chtbl.c:49-66 | insertion keeps the invariant: size counts the elements, each sits in its hash bucket, and no two share a key |
| Chtbl.InsertThenLookup | jcp/adt/chtbl.c:49-66 | an inserted element is found by its key; a refused one leaves the earlier element found |
| Chtbl.InsertKeepsOthers | jcp/adt/chtbl.c:49-66 | insertion does not change the lookup of any other key |
| Chtbl.LookupAfterInsert | jcp/adt/chtbl.c:49-66 | after an insertion, an earlier element with the key still wins; otherwise the new element is found under its own key |
| Chtbl.Remove | jcp/adt/chtbl.c:68-95 | a missing key changes nothing; otherwise the element with the key is returned, deleted from its bucket, and the size shrinks by one |
| Chtbl.RemoveKeepsValid | jcp/adt/chtbl.c:68-95 | removal keeps the invariant |
| Chtbl.RemoveThenLookup | jcp/adt/chtbl.c:68-95 | after removal no element with the key remains anywhere |
| Chtbl.Destroy | jcp/adt/chtbl.c:34-47 | the table ends with no buckets, size 0 and no destroy callback; the callback, when there is one, receives every stored element, bucket by bucket and each bucket head first |
| LangLexer.Keyword | jcp/lang/lexlang.c:322-328 | exactly the six spellings IF, ENDIF, LOOP, ENDLOOP, BREAK, CONTINUE are keywords |
| LangLexer.WordKind | jcp/lang/lexlang.c:304-332 | a word starting with 'J' is a jump whatever follows; otherwise a keyword is its keyword; anything else is an instruction |
| LangLexer.TakeWord | jcp/lang/lexlang.c:310-317 | the word runs up to the next white space, and word and rest concatenate to the input |
| LangLexer.LiteralPrefix | jcp/lang/lexlang.c:272-276 | the prefix is an optional '0' then an optional 'X' |
| LangLexer.ScanLiteralFrom | jcp/lang/lexlang.c:278-298 | the digits run to white space and are all hex, within 4 characters in total; failure means a non-hex character or a fifth character |
| LangLexer.ScanLiteral | jcp/lang/lexlang.c:265-302 | an accepted literal is at most 4 characters and ends at white space or the end of the line |
| LangLexer.ScanLiteralAccepts | jcp/lang/lexlang.c:265-302 | every literal of the accepted shape, followed by white space, is read whole |
| LangLexer.ScanLiteralShape | jcp/lang/lexlang.c:265-302 | whatever is read as a literal has the accepted shape |
| LangLexer.LongLiteralRejected | jcp/lang/lexlang.c:288-295 | five hex digits in a row stop the lexer |
| LangLexer.Operator | jcp/lang/lexlang.c:195-240 | '=', '<' and '>' start operators, '!' only before '='; the operator is two characters long iff '=' follows |
| LangLexer.LexLine | jcp/lang/lexlang.c:143-263 | every token of a line carries that line's text and number |
| LangLexer.LexAt | jcp/lang/lexlang.c:189-260 | a token started at a non-space character carries its line's text and number |
| LangLexer.NextLexeme | jcp/lang/lexlang.c:189-260 | the first character selects the lexeme: an operator; a '!' without '=' stops the lexer; 'R' a register word; '.' and '#' the rest of the line; another letter a word classified as keyword, jump or instruction, where an instruction takes the rest of the line; a digit a literal of the accepted shape or a stop; anything else a one-character ERR |
| LangLexer.LexAtFirstToken | jcp/lang/lexlang.c:189-260 | the tokens lexed from a non-space character start with the token that character selects, and a lexeme that takes the rest of the line is the line's last token |
| LangLexer.LexStandaloneThenSpace | jcp/lang/lexlang.c:181-189 | a token that stands alone, followed by a space, lexes as that token ahead of the tokens of the rest |
| LangLexer.LexSpelled | jcp/lang/lexlang.c:143-263 | standalone tokens written with a space after each lex back as exactly those tokens, in order |
| LangLexer.Lex | jcp/lang/lexlang.c:148-177 | every token carries the number of the input line it was read from; a token is NEW_LINE exactly when its line is blank, and then it is the bare newline |
| LangLexer.SrcLine | jcp/lang/lexlang.c:124-128 | the source line an instruction echoes is the upper-cased line with its newline, or, when the line holds a NUL, the upper-cased text before the first NUL, shorter than the line and without the newline |
| LangLexer.LexStopsAtNul | jcp/lang/lexlang.c:148-187 | a NUL ends its line: the text after it changes nothing, and the line gives exactly the tokens of the upper-cased text before it, echoing that text |
| LangLexer.NulEndsLiteral | jcp/lang/lexlang.c:278-300 | a literal stops at a NUL, and nothing after the NUL on that line is lexed |
| LangLexer.NulEndsKeyword | jcp/lang/lexlang.c:310-317 | a keyword stops at a NUL, and nothing after the NUL on that line is lexed |
| LangLexer.SignedChar | jcp/lang/lexlang.c:192 | a byte read as a signed `char` lies in -128..127 and equals `EOF` exactly for the byte 0xFF |
| LangLexer.DispatchAsWritten | jcp/lang/lexlang.c:192-244 | as written, the switch ends the input exactly at a 0xFF byte and otherwise lexes as `NextLexeme` does |
| LangLexer.HighByteEndsInputAsWritten | jcp/lang/lexlang.c:192-244 | a 0xFF byte where a lexeme starts ends the input as written, while the model's lexer makes it a one-character ERR |
| LangLexer.HighByteIsErrToken | jcp/lang/lexlang.c:245-259 | as intended, a 0xFF byte is one ERR token followed by the tokens of the rest of its line |
| LangLexer.CurrentAt | jcp/lang/lexlang.c:113-117 | the parser sees the token at its position, a stop only after the last token of a stopped stream, and end of input otherwise |
| Lang.Accept | jcp/lang/lang.c:484-498 | the current token is taken iff it has the expected kind and the lexer has not stopped right after it |
| Lang.MakeLabel | jcp/lang/lang.c:519-531 | label n is ".L" followed by n in decimal |
| Lang.RegNumber | jcp/lang/lang.c:218-222 | a register token is accepted iff the decimal after its 'R' is 0..3, and names that register |
| Lang.RegPairLine | jcp/lang/lang.c:252-253 | an instruction line ends with a newline |
| Lang.ParseRegister | jcp/lang/lang.c:212-298 | a register statement consumes tokens and only appends; an assignment is refused inside an IF condition, a comparison outside one, and a comparison is recorded for the IF |
| Lang.ParseRegisterNamesRegister | jcp/lang/lang.c:218-222 | a statement accepted as starting with a register starts with R0..R3 |
| Lang.AfterRegister | jcp/lang/lang.c:224-290 | what follows the first register only appends; an assignment needs to be outside an IF; a comparison is recorded |
| Lang.ParseAssign | jcp/lang/lang.c:228-262 | `Rx = literal` writes the one DATA line; `Rx = Ry` writes XOR Rx, Rx then OR Ry, Rx; nothing but the position and output changes |
| Lang.ParseCompare | jcp/lang/lang.c:264-287 | the comparison writes CMP Ra, Rb and records its operator |
| Lang.IfJump | jcp/lang/lang.c:312-367 | exactly the six comparisons have a jump pattern, and its mnemonic is a jump |
| Lang.Statement | jcp/lang/lang.c:139-189 | a statement consumes at least its first token and only appends output and labels; the break flag is set only inside a loop |
| Lang.StatementEchoes | jcp/lang/lang.c:144-159 | a blank line writes a newline, and an instruction, label or comment writes its whole prepared source line, taking one token |
| Lang.StatementOfControl | jcp/lang/lang.c:166-178 | a jump token is skipped; BREAK writes a jump to the loop's exit and CONTINUE to its start; outside a loop either is a stray-statement error |
| Lang.StatementRejects | jcp/lang/lang.c:182-187 | ENDIF, ENDLOOP, a literal, '=', a comparison or an unknown character cannot start a statement |
| Lang.Echo | jcp/lang/lang.c:148-159 | the whole prepared source line is copied to the output |
| Lang.Block | jcp/lang/lang.c:416-482 | a block only appends, never sets the break flag outside a loop, and stops at ENDIF, ENDLOOP or the end of input |
| Lang.ParseIf | jcp/lang/lang.c:300-374 | an IF consumes its tokens, only appends, and takes fresh labels |
| Lang.IfBody | jcp/lang/lang.c:312-367 | the comparison's pattern decides whether the jump skips the body or enters it; with no comparison nothing is written |
| Lang.SkipBody | jcp/lang/lang.c:314-327 | a skipping jump goes to the end label, written after the block |
| Lang.BranchBody | jcp/lang/lang.c:328-357 | an entering jump goes to the code label, then JMP end, the code label, the block and the end label |
| Lang.ParseLoop | jcp/lang/lang.c:376-414 | a LOOP takes two fresh labels, writes the start label first, leaves the enclosing loop's break flag as it was, and once its body is read ends as `CloseLoop` says |
| Lang.CloseLoop | jcp/lang/lang.c:404-409 | the loop closes iff ENDLOOP follows the body; it writes the jump back to the start, then the exit label exactly when the body broke out |
| Lang.ParseLoopOf | jcp/lang/lang.c:376-414 | a LOOP whose body compiles and is closed by ENDLOOP gives the body's output, the jump back to the start, and the exit label if the body broke out |
| Lang.Top | jcp/lang/lang.c:139-189 | the top-level loop only appends; at the end of the tokens it returns the output, or the lexer's error if the lexer stopped; a failing statement's error is the result |
| Lang.TopStopsAtLexError | jcp/lang/lang.c:139-189 | once the lexer has stopped on an error, the program fails whatever statements come first |
| Lang.Compile | jcp/lang/lang.c:133-189 | a program compiles only if its lexing never stopped; an empty file compiles to nothing |
| LangSemantics.MakeLabelInjective | jcp/lang/lang.c:519-531 | generated labels are equal exactly when their counters are, so each label is distinct |
| LangSemantics.MoveOnCpu | jcp/lang/lang.c:252-253 | on the emulator, `Rd = Rs` with d ≠ s leaves the old Rs in Rd, keeps the other registers and memory, and moves IAR by 2 |
| LangSemantics.SelfMoveClears | jcp/lang/lang.c:252-253 | `Rd = Rd` as compiled leaves zero in Rd |
| LangSemantics.IfMask | jcp/lang/lang.c:312-367 | the IF jump tests A for <, <=, >, >= and E for <, !=, ==, >=, and never C or Z |
| LangSemantics.IfMaskAssembles | jcp/lang/lang.c:317 | the assembler reads each IF jump mnemonic as the mask intended for it |
| LangSemantics.TakenDecides | jcp/lang/lang.c:312-367 | with A and E set by CMP, a skipping jump is taken iff the condition fails, and an entering jump iff it holds |
| LangSemantics.IfConditionOnCpu | jcp/lang/lang.c:286 | running CMP and the IF jump on the emulator reaches the block iff `Ra op Rb` holds |
| LangSemantics.IfConditionKeeps | jcp/lang/lang.c:286 | the IF condition code changes no memory and no general register |
| CompiledLines.NameIsInstrWord | jcp/mach_code.c:13-30 | every table mnemonic is a word the assembler's lexer classifies as an instruction and its line preparation leaves unchanged |
| CompiledLines.RegNameIsRegisterWord | jcp/mach_code.c:33 | every register name is a word the assembler's lexer classifies as a register, and `%d` after its 'R' reads its number |
| CompiledLines.RegPairLineLexes | jcp/lang/lang.c:252-253 | an instruction line "OP RA, RB" the compiler writes is lexed by the assembler as the mnemonic and the two register names |
| CompiledLines.RegPairLineAssembles | jcp/lang/lang.c:252-253 | the assembler reads such a line back as the register-pair instruction it names, using all three tokens |
| CompiledLines.MoveLinesAssemble | jcp/lang/lang.c:252-253 | `Rd = Rs` is written as two lines, which the assembler reads as XOR Rd, Rd and OR Rs, Rd |
| CompiledLines.LiteralTokenParses | jcp/jcpasm/jcpasm.c:225-246 | a literal token is read as an address exactly when its value fits a byte, and then as that byte |
| CompiledLines.DataLineAssembles | jcp/lang/lang.c:238-241 | `Rd = literal` is written as a DATA line that lexes as DATA, the register and the upper-cased literal, and assembles to DATA with the literal's value exactly when that value fits a byte |
| LoopExits.MakeLabelIsLabelText | jcp/lang/lang.c:519-531 | every generated label starts with '.' and holds no NUL |
| LoopExits.BreakTargetIs | jcp/lang/lang.c:461-462 | BREAK's jump target is the out-label when its first byte is not NUL, and the empty string once a BREAK has set it to NUL |
| LoopExits.Breaks | jcp/lang/lang.c:456-464 | the count of BREAKs is positive iff a BREAK occurs |
| LoopExits.IntendedTargetsDefined | jcp/lang/lang.c:384-407 | every intended jump goes to the out-label, and the label is defined iff a jump to it is written |
| LoopExits.LastControl | jcp/lang/lang.c:450-464 | the last BREAK or jump of a body |
| LoopExits.SentinelTracksLastControl | jcp/lang/lang.c:450-464 | the sentinel byte records whether the last BREAK or jump was a BREAK, a jump, or neither |
| LoopExits.BodyLengths | jcp/lang/lang.c:456-464 | the as-written and intended bodies write one line per BREAK |
| LoopExits.BodyAgreesIff | jcp/lang/lang.c:456-464 | the body as written equals the intended one iff no BREAK follows a BREAK with no jump between them |
| LoopExits.LoopAgreesIff | jcp/lang/lang.c:384-471 | the loop as written equals the intended one iff no BREAK repeats and a body with a BREAK ends its BREAKs and jumps with a BREAK |
| LoopExits.TwoBreaksAsWritten | jcp/lang/lang.c:461 | two BREAKs as written give "JMP out", "JMP " with an empty target, "JMP start", "out:" |
| LoopExits.BreakThenJumpAsWritten | jcp/lang/lang.c:450-455 | a BREAK then a jump as written leaves the out-label undefined although "JMP out" was written |
| LoopExits.LoopIntendedText | jcp/lang/lang.c:384-407 | the intended loop is the body's jumps, the jump back to the start, and the exit label when some BREAK occurs |
| LoopExits.BlockOfControls | jcp/lang/lang.c:416-482 | a loop body of BREAK and jump statements compiles, token by token, to one jump to the exit label per BREAK |
| LoopExits.LoopOfControls | jcp/lang/lang.c:376-414 | `parse_loop` on a body of BREAK and jump statements writes the start label and then exactly the intended loop |
| Preproc.ConcatAppend | jcp/preproc/preproc.c:285 | the text of two runs of lines is the text of each, one after the other |
| Preproc.ChunkLength | jcp/preproc/preproc.c:285 | one `fgets` takes at least one character and at most the room, stopping after a newline or when the room is full |
| Preproc.Lines | jcp/preproc/preproc.c:281-298 | every line read is at most 255 characters, holds no NUL, and holds a newline only at its end |
| Preproc.LinesConcat | jcp/preproc/preproc.c:281-298 | the lines read from a NUL-free text are the text again, in order |
| Preproc.SkipSeps | jcp/preproc/preproc.c:324-334 | separators (white space and ',') are skipped up to the first character that is not one |
| Preproc.EatComment | jcp/preproc/preproc.c:336-354 | after the separators, a '#' comment runs to the end of the line; otherwise the position stops on the next word |
| Preproc.WordEnd | jcp/preproc/preproc.c:300-322 | a word is the maximal run of characters other than white space, ',', '#' and NUL |
| Preproc.NextContent | jcp/preproc/preproc.c:281-298 | reading skips exactly the lines of separators and comments, and stops on the next line with content |
| Preproc.ScanToken | jcp/preproc/preproc.c:248 | `%s` reads a nonempty run of non-space characters out of the line |
| Preproc.ParseDefine | jcp/preproc/preproc.c:236-263 | a definition has a nonempty name and value, both taken from the line, and the value has no white space |
| Preproc.HashDrv | jcp/preproc/preproc.c:224-228 | a name hashes to the lower-cased code of its first character |
| Preproc.Table | jcp/preproc/preproc.c:105-108 | the table of definitions is valid, has 128 buckets and is keyed by name |
| Preproc.Defined | jcp/preproc/preproc.c:155-162 | a name is defined iff some directive defines it, and then by one of those directives |
| Preproc.DefinedSnoc | jcp/preproc/preproc.c:155-162 | a later definition only counts for a name not defined before |
| Preproc.FirstDefinitionWins | jcp/preproc/preproc.c:155-162 | the hash table finds a name iff it was defined, and then with its first definition's value |
| Preproc.MeaningIsFirstDefinition | jcp/preproc/preproc.c:203-213 | a word is replaced by its first definition's value, and a word never defined is kept |
| Preproc.SubstUnchanged | jcp/preproc/preproc.c:195-217 | a line that holds no defined name is copied unchanged |
| Preproc.BodyLineUnchanged | jcp/preproc/preproc.c:195-217 | a body line holding no defined name is copied unchanged, with its separators and comment |
| Preproc.ReadDefine | jcp/preproc/preproc.c:150-172 | a directive line without "%define " is an unknown directive; one with fewer than two words after it is incomplete |
| Preproc.ReadDirectives | jcp/preproc/preproc.c:144-187 | once the first content line is a directive, the outcome is never the no-directives exit |
| Preproc.EmptyLineIffNulChunk | jcp/preproc/preproc.c:281-298 | the buffer `fgets` fills holds the empty C string exactly when the chunk read begins with a NUL |
| Preproc.LastBufferDecidesEnd | jcp/preproc/preproc.c:176-184 | after the last directive the preprocessor stops with "nothing after directives" exactly when no line followed or the buffer left by the last read begins with a NUL; otherwise it is done |
| Preproc.Preprocess | jcp/preproc/preproc.c:120-130 | the file is refused as having no directives iff its first content line does not start with '%' |
| Preproc.EmptyHasNoDirectives | jcp/preproc/preproc.c:120-122 | an empty file is refused as having no directives |
| Preproc.StartCheckAsWrittenFailsOnEmpty | jcp/preproc/preproc.c:120-122 | the check as written agrees with the corrected one on every nonempty file, and fails exactly on the empty file |
| Preproc.TableKeepsLines | jcp/preproc/preproc.c:248 | values read with `%s` hold no newline, so a replacement never adds a line |
| Preproc.SubstKeepsNewlines | jcp/preproc/preproc.c:195-217 | substitution keeps the number of newlines of a line |
| Preproc.BodyKeepsNewlines | jcp/preproc/preproc.c:195-217 | substitution keeps the number of newlines of the body |
| Preproc.DirectiveLineNewlines | jcp/preproc/preproc.c:164 | a directive line echoed as a comment keeps its one newline |
| Preproc.LastDirectiveKeepsNewlines | jcp/preproc/preproc.c:163-187 | when only blank lines follow the last directive, the output so far is the whole output and holds as many lines as the input |
| Preproc.PreprocessKeepsLineCount | jcp/preproc/preproc.c:163-164 | a successful run writes exactly as many lines as the input has |

## Left out

- Every `main` is left out: command-line handling, opening and closing files, help and
  version output, `emalloc`/`efopen`, and the `system()` calls that chain the preprocessor,
  compiler and assembler. Files are given as their lines; the result is returned rather
  than written, and a fatal error is a `Failure`.
- jcp/jcpvm/jcpvm.c and jcp/display.c are not part of this model. They are an interactive
  terminal driver that only calls the emulator's step.
- jcp/jcpdis/jcpdis.c is modelled only as its 256-byte zeroed buffer
  (`Encoding.DisassembleAssembled`).
- The disassembler's `sprintf` layout is left out. The model keeps the decoded
  instruction of each row, not the text columns or the hex or decimal prefix choice.
- There is no label resolution in the assembler: the source has none. Label tokens are
  produced by the lexer and refused by the parser.
- Memory-safety defects are not reproduced, and the model keeps what the code evidently
  intends:
  - the writes to `disasm_code[ROWS]` through `disasm_code[ROWS+3]` (jcp/disasm.c:48-51);
  - leaked label buffers;
  - label numbers from 100000 on, whose ".L" text overflows the 8-byte label buffer
    (jcp/lang/lang.c:519-530); `Lang.MakeLabel`, `LangSemantics.MakeLabelInjective` and
    `LoopExits.MakeLabelIsLabelText` are stated for the intended unbounded label;
  - an operand read one byte past a full 256-byte buffer;
  - words of 64 or more characters copied into the 64-byte buffer by the structured
    language's tokenizer (jcp/lang/lexlang.c:310-317).
- Assembler.ParseFrom: the code is an unbounded sequence. The source's main loop lets
  an instruction start when exactly 256 bytes exist, so `binary[256]` and `binary[257]`
  can be written past the 256-byte buffer (jcp/jcpasm/jcpasm.c:28, 113). The model
  keeps those bytes and cuts them off with the truncation, as the source's warning
  intends.
- Cpu.ClearFlags: the source zeroes the four flag bytes through one `int` store. This is
  modelled as zeroing the four flag slots, which is what the store does on the layout of
  jcp/jcpu.h.
- Lang.Block: in the source, a token that cannot start a statement inside a block (a
  literal, '=', a comparison or the ERR token of an unknown character) is never consumed, and the block loops forever
  (jcp/lang/lang.c:476-477). The model stops with `NotAStatement`.
- Lang.Statement: in the source, a CONTINUE inside an IF outside every loop
  dereferences a NULL label pair (jcp/lang/lang.c:472-475). The model reports a stray
  continue, as it does at top level.
- Lang.ParseLoop: the "loop ends without a break or a jump" warning is left out, because
  it goes to stderr only. The model of the break flag follows the intended protocol; the
  as-written protocol is in `LoopExits`.
- Warnings and error messages are left out, apart from which error stops the program:
  duplicate definitions, the truncation message and line-error printing.
- Preproc: when the preprocessor stops on an error, the output it wrote so far is
  discarded in the model. A run that succeeds returns its whole output.
- Preproc: input is a C text without NUL bytes, because each line is a C string. A NUL
  inside a line cuts it short in the source, and the model does the same through
  `Text.CString`. A chunk that begins with a NUL reads as an empty line, and when it is
  the last chunk after the directives the source stops with "nothing after
  directives"; the model follows both.
- Preproc.HashDrv: for characters above 127 the source passes a possibly negative
  `char` to `tolower` and hashes it. The model hashes the character code, which sends
  every name to a valid bucket.
- LangLexer.Lex: a file is a sequence of lines, each ended by a newline. A last blank
  line without a newline gives no NEW_LINE token in the source; the model gives one.
- AsmLexer.Lex: each line of the file is lexed whole. The source reads with `fgets`
  into a 256-byte buffer (jcp/jcpasm/lexjcpa.c:16-19), so a line longer than 255
  characters arrives in pieces. Each piece is counted as a new line, and a word that
  crosses a cut becomes two tokens.
- LangLexer.Lex: the same holds for the structured language's tokenizer
  (jcp/lang/lexlang.c:18-21). Its lines are lexed whole.
- Assembler.ParseAddress: numbers are read unbounded. `sscanf` stores into a 32-bit
  `unsigned int` (jcp/jcpasm/jcpasm.c:231-235), and an overflowing value wraps modulo
  2^32, so "4294967296" is accepted as address 0 by the source and refused here.
- Assembler.ParseRegister: likewise, "R4294967296" wraps to R0 in the source
  (jcp/jcpasm/jcpasm.c:257) and is refused here.
- Lang.RegNumber: likewise for registers in the structured language
  (jcp/lang/lang.c:218, 246, 280).
- Text.ScanDecimal, Text.ScanHex: the values are unbounded integers. The wrap-around
  of the C `int` they are stored into is not modelled.
- LinkedList.Sort: requires the comparison to be asymmetric in the sort direction.
  When `compar(x, y)` and `compar(y, x)` both return the direction (say for two equal
  data), every pass swaps the pair again, and `list_sort` never returns
  (jcp/adt/list.c:156-170). A terminating model cannot follow that loop.
- Chtbl.Destroy: the `memset` also clears the hash and match callbacks. The model
  keeps `h` and `key`, which a table with no buckets never uses.
- LangLexer.NextLexeme: a 0xFF byte where a lexeme starts is a one-character ERR token.
  The source reads it as `EOF` and ends the input there (see "Findings").
- Text.ScanHex, Assembler.ParseAddress: `%x` follows ISO C, where a `0x` or `0X` prefix
  with no digit after it is a matching failure, so the literal "0X" is refused with
  `InvalidAddress`. The GNU C library reads that prefix as the number 0, and with it the
  source assembles "0X" as address 0 (jcp/jcpasm/jcpasm.c:231-233).
- Lang.MoveLines, Lang.DataLine: their text is stated through what the assembler makes
  of it (`CompiledLines.MoveLinesAssemble`, `CompiledLines.DataLineAssembles`) and,
  for moves, what the emulator does with it (`LangSemantics.MoveOnCpu`).
- Lang.ParseIf: only structural facts are stated about the whole IF. The meaning of its
  condition code is proved on the emulator in `LangSemantics`, one lemma per step,
  rather than over a parsed token stream.

## Findings

| source | as written | input that shows it | evidently intended | confidence | as-written member | corrected member |
|---|---|---|---|---|---|---|
| jcp/lang/lang.c:456-464, 391-407 | BREAK marks the loop's out-label by overwriting its first byte with NUL; a second BREAK then prints the label as an empty string, and a jump after a BREAK overwrites the mark, so `out:` is never written | a loop body of two BREAKs gives "JMP .L1", "JMP " (empty target); a BREAK then a jump gives "JMP .L1" with `.L1:` never defined | every BREAK jumps to the out-label, and the label is written whenever the body has a BREAK | high; not executed | LoopExits.LoopAsWritten, LoopExits.TwoBreaksAsWritten, LoopExits.BreakThenJumpAsWritten | LoopExits.LoopIntended, LoopExits.IntendedTargetsDefined, LoopExits.LoopAgreesIff |
| jcp/preproc/preproc.c:48, 120-122 | the first-line check reads `*inbuff_ptr` after `read_line`, but an empty file never sets the pointer, which is still NULL | an empty input file | an empty file is refused as having no directives | high; not executed | Preproc.StartCheckAsWritten, Preproc.StartCheckAsWrittenFailsOnEmpty | Preproc.Preprocess, Preproc.EmptyHasNoDirectives |
| jcp/lang/lexlang.c:192, 244 | `ch_int = *curr_ch` reads a plain `char`, which is signed, so a 0xFF byte becomes -1 and matches `case EOF`; the lexer then reports the end of the input, and the program compiles only what came before | a line "R1 = 1 " followed by a 0xFF byte and then any text | a 0xFF byte is a character outside the language, an ERR token like any other | medium; not executed | LangLexer.DispatchAsWritten, LangLexer.HighByteEndsInputAsWritten | LangLexer.NextLexeme, LangLexer.HighByteIsErrToken |
| jcp/jcpasm/lexjcpa.c:171-183 | the copy loops run while `i < SUB_STR_SZ`, then store the NUL at `sub_str[i]`, so a 64-character run puts the NUL at index 64 and a 63-character label with ':' at index 65, past the 64-byte buffer | 64 letters in a row; ".", 63 letters and ":" | a lexeme of at most 63 characters, so that the NUL fits | high; not executed | AsmLexer.LexemeAsWritten, AsmLexer.LongWordOverrunsBuffer, AsmLexer.LongLabelOverrunsBuffer | AsmLexer.TakeLexeme, AsmLexer.LexemeAsWrittenAgreesIff |
