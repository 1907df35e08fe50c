# A verified model of a small MIPS-style assembler and disassembler

The repository holds two command-line tools for a reduced MIPS-like instruction set.

- `assembler.py` turns each line of assembly text into one or two lines of 32 `0`/`1` characters (or into nothing for blank, comment and label lines). Unknown forms get a row of 32 `X`.
- `disassembler.py` turns each line holding such a word back into assembly text. It writes a `Label:` line before every word whose address is in its label table.

Both tools use fixed tables: register names, opcodes, functs, and the labels of one program.

This project models the core of both tools in Dafny:

- **Assembler** (module `Assembler`, `assembler.dfy`): `to_bits`, `parse_register`, `strip_comments`, `parse_mem_operand`, `compute_branch_offset`, `compute_jump`, `translate_line`, and the per-line address rule of `main`.
- **Disassembler** (module `Disassembler`, `disassembler.dfy`): `sign_extend_16bit`, `disassemble_instruction`, and the loop of `main` that tracks the address and writes labels.
- The Python behaviour the tools rely on is modelled in four small modules:
  - `Results`: exceptions as `Raise(ValueError | KeyError | IndexError)`, with statements evaluated in the source's order so the first failing step decides the exception;
  - `PyText`: `strip` and `split` with Python's full `isspace()` set of blanks, and `replace`, `split("#", 1)`, and `lower` and `isdigit` on ASCII letters and digits;
  - `Numerals`: `int(text, base)`, with the smaller set of blanks it skips, and `str(n)`;
  - `Bits`: fixed-width binary text.
- `Formats` gives the three word layouts (I, R, J).
- `Codec` ties the two tools together:
  - the register tables and the label tables agree;
  - every word the assembler writes decodes back to the instruction it came from, or to the decoder's fixed "unknown" text for opcodes the decoder has no case for.

Every translation function returns `Result<string>`. `Ok` holds the text written, and `Raise(e)` the exception the Python code would raise. Each driver writes the 32-`X` sentinel in place of an exception: `Assembler.AssembleLine` for the assembler, `Disassembler.Written` for the disassembler.

The source's loop in the disassembler's `main` is the method `Disassembler.Walk`. It is proved equal to the functional description `Disassembler.Output`, and the properties of the output are lemmas on that function. The assembler's `main` recomputes the address from the line number rather than accumulating it. It is therefore modelled as the pure functions `LineAddress` and `Assemble`.

The model keeps these behaviours of the code:

- The assembler gives line `n` the address `4194304 + 4·(n − 1)`. No running program counter advances per emitted word, so blank, comment and label lines take an address, and `la` takes only one.
- Offsets, immediates and jump targets are masked to their field width with no range error.
- The branch offset is a floor division with no divisibility check.
- Labels come from the fixed tables, not from a pass over the program.
- The decoder prints a branch as `offset <imm>` and never uses the label it computes.
- The decoder decodes neither lw, sw, jal, lui nor ori.

## Model

| member | source | states |
|---|---|---|
| Bits.ToBits | assembler.py:52-54 | the result has exactly `width` characters, each `0` or `1`, and spells `value mod 2^width` |
| Bits.TwosComplement | assembler.py:52-54 | a negative value `-v` (with `0 < v <= 2^w`) is written as the two's-complement pattern `2^w - v` |
| Bits.FieldValue | assembler.py:52-54 | a value that fits in `width` bits is written and read back unchanged |
| Bits.ToBitsParse | disassembler.py:58-60 | `int(to_bits(v, w), 2)` is `v mod 2^w` |
| Bits.BinaryParse | disassembler.py:58-60 | `int(s, 2)` of a non-empty string of `0`/`1` is the number it spells |
| Numerals.NatToDecimal | disassembler.py:66 | `str(n)` is ASCII digits, starting with `0` only for zero |
| Numerals.DecimalRoundTrip | assembler.py:60-61 | `int(str(n))` is `n` for every natural `n` |
| Numerals.IntToDecimalRoundTrip | assembler.py:91 | `int(str(i), 0)` is `i` for every integer, sign included |
| Numerals.IntStrip | assembler.py:91 | the text `int()` reads is the input with `int()` blanks before and after it, and has none at either end |
| Numerals.IntBlanks | assembler.py:91 | `int()` rejects a leading `\x1c`, which `strip()` removes, and skips a leading no-break space |
| PyText.Strip | assembler.py:70 | the input is the result with all-blank text before and after it, and the result has no blank at either end |
| PyText.StripUnique | assembler.py:70 | a blank-padded infix of the input with no blank at either end is the result of `strip()`, so the two properties above determine it |
| PyText.Split | assembler.py:83 | every token is a non-empty run of non-blank characters, and there are none exactly when the text is all blanks |
| PyText.SplitJoined | assembler.py:83 | blank-free tokens separated by non-empty runs of blanks, with blanks before and after, split back into exactly those tokens |
| PyText.ReplaceCommas | assembler.py:83 | same length; each comma becomes a space and every other character is kept |
| PyText.Lower | assembler.py:59 | same length; each character is lower-cased |
| PyText.LowerTwice | assembler.py:59 | lower-casing is idempotent |
| Formats.IWord | assembler.py:88-92 | 32 characters: the opcode, then rs, rt and the immediate at their bit positions, each masked to its width |
| Formats.RWord | assembler.py:157-165 | 32 characters: opcode `000000`, rs, rt, rd, shamt `00000`, then the funct |
| Formats.JWord | assembler.py:129-133 | 32 characters: the opcode, then the target masked to 26 bits |
| Assembler.TableFacts | assembler.py:13-33 | every opcode and funct in the tables is six binary digits |
| Assembler.ComputeBranchOffset | assembler.py:45-46 | the encoded target `cur + 4 + 4·offset` is the largest `cur + 4 + 4k` at or below the label; it is the label itself when `label - cur` is a multiple of 4 |
| Assembler.ComputeJump | assembler.py:49-50 | `4·target` is the word-aligned address at or below the label; it equals the label for an aligned label |
| Assembler.ParseRegister | assembler.py:56-67 | a parsed register is in 0..31; a token without a leading `$` fails; every failure is a ValueError |
| Assembler.NamedRegister | assembler.py:59-66 | `$name`, in any letter case, for a name in the table is that table's register |
| Assembler.UnknownRegister | assembler.py:59-67 | `$name` for a name that is neither all digits nor in the table, in any letter case, raises ValueError |
| Assembler.NumberedRegister | assembler.py:60-64 | `$<n>` is register `n` exactly when `n <= 31`, and a ValueError above |
| Assembler.RegisterCaseInsensitive | assembler.py:59 | `$NAME` parses like `$name` |
| Assembler.ZeroRegister | assembler.py:5-6 | `$zero` is register 0 |
| Assembler.TemporaryZero | assembler.py:8 | `$t0` is register 8 |
| Assembler.StripComments | assembler.py:69-70 | the text before the first `#` is the result with all-blank text before and after it; the result holds no `#` and has no blank at either end |
| Assembler.MatchMemOperand | assembler.py:73 | a match splits the token into an offset literal without `(`, then `(`, text whose stripped form is the `$word` register, and `)` |
| Assembler.ParseMemOperand | assembler.py:72-77 | a parsed base register is in 0..31; a token that does not match `offset($reg)` fails; every failure is a ValueError |
| Assembler.MemOperandText | assembler.py:72-77 | `str(offset) + "(" + reg + ")"`, with any blanks around `reg` inside the parentheses, parses back as that offset and that register |
| Assembler.MatchText | assembler.py:73 | an offset literal without `(`, then `(`, a `$word` register with blanks on either side, and `)` match with the offset and the bare register |
| Assembler.LookupLabel | assembler.py:116 | succeeds exactly for a name in the label table, with its address; otherwise a KeyError |
| Assembler.TranslateTokens | assembler.py:84-217 | a successful dispatch is the sentinel or one or two word lines, never empty text |
| Assembler.TranslateRType | assembler.py:157-215 | every R-type line is one 32-bit word line |
| Assembler.RLine | assembler.py:157-165 | an R-type word starts `000000`, has shamt `00000` and ends with the funct |
| Assembler.TranslateLa | assembler.py:141-154 | `la` yields exactly two word lines |
| Assembler.LaLines | assembler.py:141-154 | the two `la` lines are 66 characters: two word lines |
| Assembler.TranslateLine | assembler.py:79-217 | a successful translation is empty, the sentinel, or one or two word lines |
| Assembler.KnownForms | assembler.py:86-207 | the pairs of mnemonic and token count that the dispatch handles are exactly those of `TokenCounts` |
| Assembler.SentinelForUnknownForm | assembler.py:86-217 | the sentinel comes back exactly when the mnemonic is unknown or its token count is wrong |
| Assembler.CommentLine | assembler.py:80-82 | a blank line, or a line holding only a comment, translates to `""` |
| Assembler.LabelLine | assembler.py:80-82 | a line made of blanks, any text without `#`, a colon, blanks and an optional comment translates to `""` |
| Assembler.InstructionLine | assembler.py:79-84 | a line of tokens without blanks, commas or `#`, separated by runs of blanks and commas, with blanks around it and an optional comment, and not ending in a colon, is dispatched on exactly those tokens |
| Assembler.EncodeAddi | assembler.py:86-92 | `addi $rt, $rs, imm` is opcode 001000, then rs, rt and the immediate masked to 16 bits |
| Assembler.EncodeLi | assembler.py:94-100 | `li $rt, imm` is opcode 001000, a zero rs field, rt and the masked immediate |
| Assembler.LiIsAddiWithZero | assembler.py:86-100 | `li $rt, imm` and `addi $rt, $zero, imm` give the same result, including the same exception |
| Assembler.AddiExample | assembler.py:86-92 | the tokens of `addi $t0, $zero, 5` translate to `00100000000010000000000000000101` |
| Assembler.AddiLine | assembler.py:79-92 | the source line `addi $t0, $zero, 5` with its newline translates to `00100000000010000000000000000101` |
| Assembler.EncodeMemory | assembler.py:102-109 | `lw`/`sw $rt, offset($base)` puts the base in rs, rt in rt and the offset masked to 16 bits in the immediate |
| Assembler.MemoryOperandError | assembler.py:102-104 | a memory operand that does not parse makes lw/sw raise ValueError |
| Assembler.EncodeBranch | assembler.py:111-127 | `beq`/`bne $rs, $rt, L` is the opcode, rs, rt, then the branch offset from the current address to L in 16 bits |
| Assembler.BranchUnknownLabel | assembler.py:111-127 | a branch to a label outside the table raises KeyError once both registers parse |
| Assembler.EncodeJump | assembler.py:129-139 | `j`/`jal L` is the opcode followed by L's word address in 26 bits |
| Assembler.JumpUnknownLabel | assembler.py:129-139 | a jump to a label outside the table raises KeyError |
| Assembler.EncodeLa | assembler.py:141-154 | `la $rt, L` gives the two `la` lines for L's address |
| Assembler.LaUnknownLabel | assembler.py:143-145 | `la` to a label outside the table raises KeyError once the register parses |
| Assembler.LaSplitsAddress | assembler.py:141-154 | for an address below 2^32: lui with rs 0, rt and the upper half, then ori with rs = rt and the lower half; `upper·65536 + lower` is the address |
| Assembler.EncodeThreeRegister | assembler.py:157-185 | `add`/`slt $rd, $rs, $rt` is an R-type word with rs, rt and rd in that field order and the mnemonic's funct |
| Assembler.EncodeDiv | assembler.py:167-175 | `div $rt, $rs` puts the first operand in rt and the second in rs, with rd zero |
| Assembler.EncodeMfhi | assembler.py:187-195 | `mfhi $rd` sets only rd |
| Assembler.EncodeJr | assembler.py:197-205 | `jr $rs` sets only rs |
| Assembler.EncodeSyscall | assembler.py:207-215 | `syscall` has every register field zero |
| Assembler.LineAddress | assembler.py:228 | every line address is word-aligned and at least 4194304 |
| Assembler.AssembleLine | assembler.py:227-232 | what is written for a line is empty, the sentinel, or word lines |
| Assembler.Assemble | assembler.py:226-232 | one output entry per input line, each of them empty, the sentinel, or word lines |
| Disassembler.SignExtend16 | disassembler.py:43-47 | for 0 <= v < 2^16 the result is in [-32768, 32767], congruent to v modulo 2^16, and negative exactly when bit 15 is set |
| Disassembler.SignExtendSamples | disassembler.py:43-47 | 0xFFFF gives -1, 0x7FFF gives 32767, and 0x8000 gives -32768 |
| Disassembler.SignExtendMasked | disassembler.py:43-47 | sign extension undoes the assembler's 16-bit masking for every value in the signed 16-bit range |
| Disassembler.RegisterName | disassembler.py:66-100 | `register_map[i]` succeeds exactly for 0..31; otherwise a KeyError |
| Disassembler.OpcodeTable | disassembler.py:13-23 | the nine opcode entries; `000000` is not one of them |
| Disassembler.DisassembleInstruction | disassembler.py:50-53 | a line whose stripped length is not 32 gives `INVALID, NOT 32 BITS` |
| Disassembler.FieldsParse | disassembler.py:58-83 | `int(field, 2)` reads every field of a binary word as its value; register fields are below 32 |
| Disassembler.DecodeAddi | disassembler.py:64-68 | opcode 001000 is `li $rt,imm` exactly when rs is 0, and `addi $rt, $rs, imm` otherwise, with the sign-extended immediate |
| Disassembler.DecodeBranch | disassembler.py:69-72 | beq/bne render `$rs, $rt, offset <signed imm>` |
| Disassembler.DecodeJump | disassembler.py:73-76 | j renders the label at four times its 26-bit field, and raises KeyError when that address has no label |
| Disassembler.DecodeUnhandled | disassembler.py:57-78 | the table opcodes with no case (lw, sw, jal, lui, ori) give `UNKNOWN INSTRUCTION` |
| Disassembler.DecodeUnknownOpcode | disassembler.py:101 | an opcode neither in the table nor `000000` gives `UNKNOWN INSTRUCTION ` with a trailing space |
| Disassembler.RDispatch | disassembler.py:80-90 | opcode 000000 reads rs, rt and rd, then dispatches on the funct |
| Disassembler.DecodeSyscall | disassembler.py:91-92 | funct 001100 is `syscall` |
| Disassembler.DecodeMfhi | disassembler.py:93-94 | funct 010000 is `mfhi $rd` |
| Disassembler.DecodeDiv | disassembler.py:95-96 | funct 011010 is `div $rt, $rs` |
| Disassembler.DecodeJr | disassembler.py:97-98 | funct 001000 is `jr $rs` |
| Disassembler.DecodeThreeRegister | disassembler.py:99-100 | add and slt render `$rd, $rs, $rt` |
| Disassembler.DecodeUnknownFunct | disassembler.py:87-88 | a funct outside the table gives `UNKNOWN INSTRUCTION` |
| Disassembler.DecodeRaises | disassembler.py:49-101 | a binary word raises exactly when it is a j whose target address has no label |
| Disassembler.RTypeNeverRaises | disassembler.py:80-100 | no word with opcode 000000 raises |
| Disassembler.LabelLines | disassembler.py:114-115 | at most one line is written before a word, and one exactly when its address has a label |
| Disassembler.AddressAt | disassembler.py:109-117 | the address for word `i` is word-aligned, between 4194304 and 4194304 + 4·i |
| Disassembler.AddressesWithoutRaise | disassembler.py:109-118 | the address for word `i` is 4194304 + 4·i exactly when none of the earlier words raised |
| Disassembler.OutputExtends | disassembler.py:112-120 | the output only grows: what is written for the first words stays a prefix |
| Disassembler.LabelBeforeWord | disassembler.py:114-120 | after everything before word `i` come the `Label:` line of its address, if there is one, and then its text or the sentinel |
| Disassembler.Walk | disassembler.py:109-120 | the loop writes exactly the label-annotated output, advancing the address only after a decoding that did not raise |
| Disassembler.Disassemble | disassembler.py:109-120 | the loop with `disassemble_instruction` as its decoder |
| Codec.RegisterTablesAgree | disassembler.py:5-11 | every index 0..31 has a lower-case name in the decoder's table, which the assembler's table maps back to the same index |
| Codec.FramePointerAlias | disassembler.py:10 | register 30 is written `s8`; `parse_register` reads `$fp` and `$s8`, in any letter case, as 30 |
| Codec.RegisterNameRoundTrip | assembler.py:56-67 | `parse_register("$" + register_map[i])` is `i` for every i in 0..31 |
| Codec.LabelTablesInverse | disassembler.py:34-41 | the two label tables are exact inverses |
| Codec.LabelsAligned | assembler.py:35-43 | every label address is word-aligned and below 2^28 |
| Codec.IFields | disassembler.py:58-60 | the decoder reads back an I-type word's rs, rt and the immediate masked to 16 bits |
| Codec.RFields | disassembler.py:81-83 | the decoder reads back an R-type word's rs, rt and rd |
| Codec.JFields | disassembler.py:74 | the decoder reads back a J-type word's 26-bit target |
| Codec.AddiWordDecodes | disassembler.py:64-68 | an addi word decodes as `li` when rs is zero and as `addi` otherwise, with the immediate, for every immediate in signed 16 bits |
| Codec.AddiRoundTrip | assembler.py:86-92 | `addi` encoded anywhere decodes as itself, or as `li` when rs is `$zero`, for every immediate in signed 16 bits |
| Codec.LiRoundTrip | assembler.py:94-100 | `li $rt, imm` comes back as `li $rt,imm` for every immediate in signed 16 bits |
| Codec.AddiReassembles | disassembler.py:68 | the operands the decoder writes for addi assemble back to the same word |
| Codec.BranchWordDecodes | disassembler.py:69-72 | a beq/bne word decodes to its registers and its signed offset |
| Codec.BranchRoundTrip | assembler.py:111-127 | a branch encoded and decoded at one address renders the offset the assembler computed, whenever it fits in signed 16 bits |
| Codec.BranchTargetIsLabel | disassembler.py:70 | from an aligned address, the decoder's recomputed branch target `cur + 4 + 4·offset` is the label itself |
| Codec.JumpWordDecodes | disassembler.py:73-76 | the j word for a label decodes to `j <label>` |
| Codec.JumpWordTarget | assembler.py:129-133 | the j word for an aligned address below 2^28 carries that address divided by four |
| Codec.JumpRoundTrip | assembler.py:129-133 | `j L` comes back as `j L` for every label in the table |
| Codec.JalDecodesUnknown | assembler.py:135-139 | `jal L` assembles, and its word decodes as `UNKNOWN INSTRUCTION` |
| Codec.MemoryDecodesUnknown | assembler.py:102-109 | `lw`/`sw` assemble, and the word decodes as `UNKNOWN INSTRUCTION` |
| Codec.LaDecodesUnknown | assembler.py:141-154 | both `la` words decode as `UNKNOWN INSTRUCTION` |
| Codec.LaLineWords | assembler.py:152-154 | the first `la` line is the lui word and the second the ori word |
| Codec.ThreeRegisterRoundTrip | assembler.py:157-185 | `add`/`slt $rd, $rs, $rt` comes back as itself, with the decoder's register names |
| Codec.DivRoundTrip | assembler.py:167-175 | `div $rt, $rs` comes back as itself: the decoder writes rt first, as the assembler reads it |
| Codec.MfhiRoundTrip | assembler.py:187-195 | `mfhi $rd` comes back as itself |
| Codec.JrRoundTrip | assembler.py:197-205 | `jr $rs` comes back as itself |
| Codec.SyscallRoundTrip | assembler.py:207-215 | `syscall` comes back as itself |
| Codec.AddressesAgree | assembler.py:228 | while no word has raised, the decoder's address for word `i` is the one the assembler gives line `i + 1` |

## Left out

- File handling, `argv`, `sys.exit` and stderr diagnostics in both `main` functions are left out. Only the per-line loops remain: `Assembler.Assemble` and `Disassembler.Walk`, which take the lines as a sequence.
- `toycompiler.py` is not part of this model. It is a separate, unfinished front end that only produces assembly text.
- Blanks follow Python's full character sets: `isspace()` for `strip`, `split` and the regex class `\s`, and the smaller set `int()` skips, which leaves out `\x1c`..`\x1f`.
- `int(text, base)`, `str.isdigit`, `str.lower` and the regex classes `\w` and `\d` are modelled on ASCII. Non-ASCII digits, which `isdigit` and `int` accept, and non-ASCII letters are not modelled.
- `int()` and `str()` on decimal text of more than 4300 digits raise ValueError in recent Python versions; the model has no such limit.
- `int(text, 0)` is modelled for the forms Python accepts on ASCII: blanks, a sign, a `0x`/`0o`/`0b` prefix, single underscores between digits, and no leading zeros in decimal.
- `re.fullmatch` is modelled only for the one pattern of `parse_mem_operand`, as a hand-written matcher.
- Exception messages are not modelled, only the exception kind. They are written only to stderr.
- Bits.ToBits: requires a width of at least 1. The callers use widths 5, 16 and 26; Python's width-0 behaviour is not modelled.
- Codec.AddiRoundTrip: stated for immediates in the signed 16-bit range. Outside it, the decoder prints the masked, sign-extended immediate rather than the one written.
- Codec.LiRoundTrip: stated for immediates in the signed 16-bit range, for the same reason.
- Codec.BranchRoundTrip: stated for offsets in the signed 16-bit range, for the same reason.
- The decode lemmas (`Disassembler.DecodeAddi` and the lemmas after it) are stated for lines whose stripped text is 32 binary digits. `Disassembler.DisassembleInstruction` also models other 32-character lines, on which `int(field, 2)` may raise or accept forms such as `0b1` or `1_0`, but no lemma describes their output.
- The label that the decoder computes for beq/bne and never prints is modelled only as `Disassembler.BranchTarget`. It cannot change the output, because `labels.get` never raises.
- There are no two-pass symbol table, duplicate-label check, range errors or jump-overflow errors: the code has none.
