/** assembler.py: one line of assembly text to lines of 32 '0'/'1' characters. */
module Assembler {
  import opened Results
  import opened PyText
  import opened Numerals
  import opened Bits
  import opened Formats

  /** Register names to indices; "fp" and "s8" both name register 30. */
  const RegisterMap: map<string, int> := map[
    "zero" := 0, "at" := 1, "v0" := 2, "v1" := 3,
    "a0" := 4, "a1" := 5, "a2" := 6, "a3" := 7,
    "t0" := 8, "t1" := 9, "t2" := 10, "t3" := 11, "t4" := 12, "t5" := 13, "t6" := 14, "t7" := 15,
    "s0" := 16, "s1" := 17, "s2" := 18, "s3" := 19, "s4" := 20, "s5" := 21, "s6" := 22, "s7" := 23,
    "t8" := 24, "t9" := 25, "k0" := 26, "k1" := 27, "gp" := 28, "sp" := 29, "fp" := 30, "s8" := 30, "ra" := 31]

  const Opcodes: map<string, string> := map[
    "addi" := "001000", "lw" := "100011", "sw" := "101011", "li" := "001000", "bne" := "000101",
    "beq" := "000100", "j" := "000010", "jal" := "000011", "lui" := "001111", "ori" := "001101"]

  const Functs: map<string, string> := map[
    "add" := "100000", "div" := "011010", "slt" := "101010", "mfhi" := "010000", "jr" := "001000",
    "syscall" := "001100"]

  /** The fixed label table of the one program the tool was written for. */
  const Labels: map<string, int> := map[
    "Main" := 4194304, "Loop" := 4194312, "PrintFizzBuzz" := 4194400, "PrintFizz" := 4194484,
    "PrintBuzz" := 4194536, "Exit" := 4194588]

  /** Every opcode and funct in the tables is six bits, and the literal zero field is five. */
  lemma TableFacts()
    ensures forall m :: m in Opcodes ==> IsOpcode(Opcodes[m])
    ensures forall m :: m in Functs ==> IsOpcode(Functs[m])
    ensures |"00000"| == 5 && IsBinary("00000")
  {
    OpcodesSixBits();
    FunctsSixBits();
  }

  lemma OpcodesSixBits()
    ensures forall m :: m in Opcodes ==> IsOpcode(Opcodes[m])
  {
  }

  lemma FunctsSixBits()
    ensures forall m :: m in Functs ==> IsOpcode(Functs[m])
  {
  }

  /** Address of the first line of a program. */
  const BaseAddress: int := 4194304

  /** `compute_branch_offset`: `(label - (current + 4)) // 4`, a floor division. The target it
      encodes, `current + 4 + 4·offset`, is the largest address at or below the label that is a whole
      number of words past the next instruction. */
  function ComputeBranchOffset(labelAddr: int, currentAddr: int): (offset: int)
    ensures currentAddr + 4 + 4 * offset <= labelAddr < currentAddr + 8 + 4 * offset
    ensures (labelAddr - currentAddr) % 4 == 0 ==> currentAddr + 4 + 4 * offset == labelAddr
  {
    (labelAddr - (currentAddr + 4)) / 4
  }

  /** `compute_jump`: `label >> 2`, the word address of the label. */
  function ComputeJump(labelAddr: int): (target: int)
    ensures 4 * target <= labelAddr < 4 * target + 4
    ensures labelAddr % 4 == 0 ==> target * 4 == labelAddr
  {
    labelAddr / 4
  }

  /** `parse_register`: `$<number>` for 0..31 or `$<name>` in any letter case. Every failure is a ValueError. */
  function ParseRegister(token: string): (r: Result<int>)
    ensures r.Ok? ==> 0 <= r.value <= 31
    ensures r.Raise? ==> r.exc == ValueError
    ensures (token == [] || token[0] != '$') ==> r.Raise?
  {
    if token == [] || token[0] != '$' then Raise(ValueError)
    else RegisterNamed(Lower(token[1..]))
  }

  /** The register a lower-cased name after `$` denotes: a number 0..31, or a name in the table. */
  function RegisterNamed(name: string): (r: Result<int>)
    ensures r.Ok? ==> 0 <= r.value <= 31
    ensures r.Raise? ==> r.exc == ValueError
  {
    if IsDigits(name) then
      match ParseInt(name, 10)
      case None => Raise(ValueError)
      case Some(num) => if 0 <= num <= 31 then Ok(num) else Raise(ValueError)
    else if name in RegisterMap then
      RegisterIndices(name);
      Ok(RegisterMap[name])
    else Raise(ValueError)
  }

  lemma RegisterIndices(name: string)
    requires name in RegisterMap
    ensures 0 <= RegisterMap[name] <= 31
  {
  }

  /** `strip_comments`: the text before the first `#`, without surrounding blanks. */
  function StripComments(line: string): (r: string)
    ensures '#' !in r
    ensures BlankPadded(line[..IndexOf(line, '#')], r)
    ensures r == [] || (!IsSpace(r[0]) && !IsSpace(r[|r| - 1]))
  {
    StripAvoids(BeforeFirst(line, '#'), '#');
    Strip(BeforeFirst(line, '#'))
  }

  predicate IsHexDigit(c: char) {
    DigitValue(c) < 16
  }

  /** `[+-]?(?:0x[0-9a-fA-F]+|\d+)`, the offset of a memory operand. */
  predicate IsOffsetLiteral(s: string) {
    var u := if s != [] && (s[0] == '+' || s[0] == '-') then s[1..] else s;
    IsDigits(u) || (|u| >= 3 && u[0] == '0' && u[1] == 'x' && forall i :: 2 <= i < |u| ==> IsHexDigit(u[i]))
  }

  predicate IsWordChar(c: char) {
    ('a' <= c <= 'z') || ('A' <= c <= 'Z') || IsAsciiDigit(c) || c == '_'
  }

  /** `\$\w+`, the base register of a memory operand. */
  predicate IsRegisterWord(s: string) {
    |s| >= 2 && s[0] == '$' && forall i :: 1 <= i < |s| ==> IsWordChar(s[i])
  }

  /** The full match of `offset(\s*$reg\s*)`: the offset text and the register text, or None. */
  function MatchMemOperand(token: string): (r: Option<(string, string)>)
    ensures r.Some? ==> IsOffsetLiteral(r.value.0) && IsRegisterWord(r.value.1)
    ensures r.Some? ==> |r.value.0| + 2 <= |token| && token[..|r.value.0|] == r.value.0
    ensures r.Some? ==> token[|r.value.0|] == '(' && token[|token| - 1] == ')' && '(' !in r.value.0
    ensures r.Some? ==> r.value.1 == Strip(token[|r.value.0| + 1..|token| - 1])
  {
    var p := IndexOf(token, '(');
    if p + 1 >= |token| || token[|token| - 1] != ')' then None
    else
      var offset := token[..p];
      var inner := token[p + 1..|token| - 1];
      var reg := Strip(inner);
      if IsOffsetLiteral(offset) && IsRegisterWord(reg) then Some((offset, reg))
      else None
  }

  /** `parse_mem_operand`: the offset, read as by `int(text, 0)`, and the base register index. */
  function ParseMemOperand(token: string): (r: Result<(int, int)>)
    ensures r.Raise? ==> r.exc == ValueError
    ensures r.Ok? ==> 0 <= r.value.1 <= 31
    ensures MatchMemOperand(token).None? ==> r.Raise?
  {
    match MatchMemOperand(token)
    case None => Raise(ValueError)
    case Some((offsetText, baseText)) =>
      var offset :- ToInt(offsetText, 0);
      var base :- ParseRegister(baseText);
      Ok((offset, base))
  }

  /** `labels[name]`, a KeyError for a name the table lacks. */
  function LookupLabel(name: string): (r: Result<int>)
    ensures r.Ok? <==> name in Labels
    ensures r.Ok? ==> r.value == Labels[name]
    ensures r.Raise? ==> r.exc == KeyError
  {
    if name in Labels then Ok(Labels[name]) else Raise(KeyError)
  }

  /** The text `translate_line` returns for a successfully translated line: nothing, the sentinel,
      one word line, or (for `la`) two word lines. */
  predicate IsTranslation(s: string) {
    s == "" || IsInstructionText(s)
  }

  /** The text the mnemonic dispatch returns: the sentinel, one word line, or two word lines. */
  predicate IsInstructionText(s: string) {
    s == Sentinel || IsWordLine(s) || (|s| == 66 && IsWordLine(s[..33]) && IsWordLine(s[33..]))
  }

  /** The mnemonic dispatch of `translate_line`, after comment stripping and tokenising. A
      mnemonic it does not know, or a known one with the wrong number of operands, gives the sentinel. */
  function TranslateTokens(tokens: seq<string>, currentAddr: int): (r: Result<string>)
    requires tokens != []
    ensures r.Ok? ==> IsInstructionText(r.value)
  {
    TableFacts();
    var mnemonic := Lower(tokens[0]);
    if mnemonic == "addi" && |tokens| == 4 then TranslateAddi(tokens)
    else if mnemonic == "li" && |tokens| == 3 then TranslateLi(tokens)
    else if (mnemonic == "lw" || mnemonic == "sw") && |tokens| == 3 then TranslateMemory(mnemonic, tokens)
    else if (mnemonic == "bne" || mnemonic == "beq") && |tokens| == 4 then TranslateBranch(mnemonic, tokens, currentAddr)
    else if (mnemonic == "j" || mnemonic == "jal") && |tokens| == 2 then TranslateJump(mnemonic, tokens)
    else if mnemonic == "la" && |tokens| == 3 then TranslateLa(tokens)
    else if (mnemonic == "add" || mnemonic == "slt") && |tokens| == 4 then TranslateRType(mnemonic, tokens)
    else if mnemonic == "div" && |tokens| == 3 then TranslateRType(mnemonic, tokens)
    else if (mnemonic == "mfhi" || mnemonic == "jr") && |tokens| == 2 then TranslateRType(mnemonic, tokens)
    else if mnemonic == "syscall" && |tokens| == 1 then TranslateRType(mnemonic, tokens)
    else Ok(Sentinel)
  }

  /** The R-type mnemonics, each with its operand order: `add`/`slt $rd, $rs, $rt` (rs, rt, rd parsed
      in that order), `div $rt, $rs` (rs first), `mfhi $rd`, `jr $rs`, `syscall`. Fields without an
      operand are the literal 00000. */
  function TranslateRType(mnemonic: string, tokens: seq<string>): (r: Result<string>)
    requires mnemonic in Functs
    requires |tokens| == (if mnemonic == "syscall" then 1 else if mnemonic == "mfhi" || mnemonic == "jr" then 2
                          else if mnemonic == "div" then 3 else 4)
    ensures r.Ok? ==> IsWordLine(r.value)
  {
    TableFacts();
    var funct := Functs[mnemonic];
    if mnemonic == "add" || mnemonic == "slt" then
      var rs :- ParseRegister(tokens[2]);
      var rt :- ParseRegister(tokens[3]);
      var rd :- ParseRegister(tokens[1]);
      RLine(ToBits(rs, 5), ToBits(rt, 5), ToBits(rd, 5), funct)
    else if mnemonic == "div" then
      var rs :- ParseRegister(tokens[2]);
      var rt :- ParseRegister(tokens[1]);
      RLine(ToBits(rs, 5), ToBits(rt, 5), "00000", funct)
    else if mnemonic == "mfhi" then
      var rd :- ParseRegister(tokens[1]);
      RLine("00000", "00000", ToBits(rd, 5), funct)
    else if mnemonic == "jr" then
      var rs :- ParseRegister(tokens[1]);
      RLine(ToBits(rs, 5), "00000", "00000", funct)
    else
      RLine("00000", "00000", "00000", funct)
  }

  /** An I-type line from its fields. */
  function ILine(opcode: string, rsBits: string, rtBits: string, immBits: string): (r: Result<string>)
    requires |opcode| == 6 && |rsBits| == 5 && |rtBits| == 5 && |immBits| == 16
    requires IsBinary(opcode) && IsBinary(rsBits) && IsBinary(rtBits) && IsBinary(immBits)
    ensures r.Ok? && IsWordLine(r.value)
  {
    var w := opcode + rsBits + rtBits + immBits;
    WordLine(w);
    Ok(w + "\n")
  }

  /** `addi $rt, $rs, imm`: rs is read before rt, then the immediate. */
  function TranslateAddi(tokens: seq<string>): (r: Result<string>)
    requires |tokens| == 4
    ensures r.Ok? ==> IsWordLine(r.value)
  {
    TableFacts();
    var rs :- ParseRegister(tokens[2]);
    var rt :- ParseRegister(tokens[1]);
    var imm :- ToInt(tokens[3], 0);
    ILine(Opcodes["addi"], ToBits(rs, 5), ToBits(rt, 5), ToBits(imm, 16))
  }

  /** `li $rt, imm`: the addi opcode with a literal zero rs field. */
  function TranslateLi(tokens: seq<string>): (r: Result<string>)
    requires |tokens| == 3
    ensures r.Ok? ==> IsWordLine(r.value)
  {
    TableFacts();
    var rt :- ParseRegister(tokens[1]);
    var imm :- ToInt(tokens[2], 0);
    ILine(Opcodes["li"], "00000", ToBits(rt, 5), ToBits(imm, 16))
  }

  /** `lw`/`sw $rt, offset($base)`: the memory operand is parsed before rt. */
  function TranslateMemory(mnemonic: string, tokens: seq<string>): (r: Result<string>)
    requires mnemonic == "lw" || mnemonic == "sw"
    requires |tokens| == 3
    ensures r.Ok? ==> IsWordLine(r.value)
  {
    var mem :- ParseMemOperand(tokens[2]);
    MemoryLine(mnemonic, mem.0, mem.1, tokens[1])
  }

  /** The rest of `lw`/`sw` once the memory operand is read. */
  function MemoryLine(mnemonic: string, offset: int, base: int, rtText: string): (r: Result<string>)
    requires mnemonic == "lw" || mnemonic == "sw"
    ensures r.Ok? ==> IsWordLine(r.value)
  {
    TableFacts();
    var rt :- ParseRegister(rtText);
    ILine(Opcodes[mnemonic], ToBits(base, 5), ToBits(rt, 5), ToBits(offset, 16))
  }

  /** `beq`/`bne $rs, $rt, Label`: the label is looked up after both registers. */
  function TranslateBranch(mnemonic: string, tokens: seq<string>, currentAddr: int): (r: Result<string>)
    requires mnemonic == "beq" || mnemonic == "bne"
    requires |tokens| == 4
    ensures r.Ok? ==> IsWordLine(r.value)
  {
    TableFacts();
    var rs :- ParseRegister(tokens[1]);
    var rt :- ParseRegister(tokens[2]);
    var target :- LookupLabel(tokens[3]);
    ILine(Opcodes[mnemonic], ToBits(rs, 5), ToBits(rt, 5), ToBits(ComputeBranchOffset(target, currentAddr), 16))
  }

  /** `j`/`jal Label`. */
  function TranslateJump(mnemonic: string, tokens: seq<string>): (r: Result<string>)
    requires mnemonic == "j" || mnemonic == "jal"
    requires |tokens| == 2
    ensures r.Ok? ==> IsWordLine(r.value)
  {
    TableFacts();
    var target :- LookupLabel(tokens[1]);
    var w := Opcodes[mnemonic] + ToBits(ComputeJump(target), 26);
    WordLine(w);
    Ok(w + "\n")
  }

  /** `la $rt, Label`: the register is parsed before the label is looked up. */
  function TranslateLa(tokens: seq<string>): (r: Result<string>)
    requires |tokens| == 3
    ensures r.Ok? ==> |r.value| == 66 && IsWordLine(r.value[..33]) && IsWordLine(r.value[33..])
  {
    var rt :- ParseRegister(tokens[1]);
    var addr :- LookupLabel(tokens[2]);
    Ok(LaLines(rt, addr))
  }

  /** The two lines of `la`: lui with rs zero and the upper half of the address, then ori of rt
      with itself and the lower half. */
  function LaLines(rt: int, addr: int): (s: string)
    ensures |s| == 66 && IsWordLine(s[..33]) && IsWordLine(s[33..])
  {
    TableFacts();
    var upper := (addr / 65536) % 65536;
    var lower := addr % 65536;
    var lui := Opcodes["lui"] + "00000" + ToBits(rt, 5) + ToBits(upper, 16);
    var ori := Opcodes["ori"] + ToBits(rt, 5) + ToBits(rt, 5) + ToBits(lower, 16);
    WordLine(lui);
    WordLine(ori);
    var s := lui + "\n" + ori + "\n";
    assert s[..33] == lui + "\n" && s[33..] == ori + "\n";
    s
  }

  /** An R-type line from its register fields: opcode 000000, shamt 00000. */
  function RLine(rsBits: string, rtBits: string, rdBits: string, funct: string): (r: Result<string>)
    requires |rsBits| == 5 && |rtBits| == 5 && |rdBits| == 5 && |funct| == 6
    requires IsBinary(rsBits) && IsBinary(rtBits) && IsBinary(rdBits) && IsBinary(funct)
    ensures r.Ok? && IsWordLine(r.value)
    ensures r.value[..6] == "000000" && r.value[21..26] == "00000" && r.value[26..32] == funct
  {
    var w := "000000" + rsBits + rtBits + rdBits + "00000" + funct;
    WordLine(w);
    assert w[..6] == "000000" && w[21..26] == "00000" && w[26..32] == funct;
    Ok(w + "\n")
  }

  /** `translate_line`: "" for blank, comment-only and label lines; the dispatch otherwise.
      A line made only of commas has no tokens, and `tokens[0]` raises IndexError. */
  function TranslateLine(line: string, currentAddr: int): (r: Result<string>)
    ensures r.Ok? ==> IsTranslation(r.value)
  {
    TranslateCode(StripComments(line), currentAddr)
  }

  /** The rest of `translate_line`, on the code part of a line (comment and surrounding blanks cut). */
  function TranslateCode(stripped: string, currentAddr: int): (r: Result<string>)
    ensures r.Ok? ==> IsTranslation(r.value)
  {
    if stripped == [] || stripped[|stripped| - 1] == ':' then Ok("")
    else
      var tokens := Split(ReplaceCommas(stripped));
      if tokens == [] then Raise(IndexError)
      else TranslateTokens(tokens, currentAddr)
  }

  /** The address `main` gives line `lineNumber` (counted from 1): one word per line, whatever the line holds. */
  function LineAddress(lineNumber: nat): (a: int)
    requires lineNumber >= 1
    ensures a % 4 == 0 && a >= BaseAddress
  {
    BaseAddress + 4 * (lineNumber - 1)
  }

  /** What `main` writes for one line: the translation, or the sentinel when translating raised. */
  function AssembleLine(line: string, lineNumber: nat): (r: string)
    requires lineNumber >= 1
    ensures IsTranslation(r)
  {
    match TranslateLine(line, LineAddress(lineNumber))
    case Ok(text) => text
    case Raise(_) => Sentinel
  }

  /** `main`'s loop over the lines of a file: one output entry per input line. */
  function Assemble(lines: seq<string>): (out: seq<string>)
    ensures |out| == |lines|
    ensures forall i :: 0 <= i < |out| ==> IsTranslation(out[i])
  {
    seq(|lines|, i requires 0 <= i < |lines| => AssembleLine(lines[i], i + 1))
  }

  /** The number of tokens, mnemonic included, each mnemonic of the dispatch takes. */
  const TokenCounts: map<string, nat> := map[
    "addi" := 4, "li" := 3, "lw" := 3, "sw" := 3, "bne" := 4, "beq" := 4, "j" := 2, "jal" := 2, "la" := 3,
    "add" := 4, "slt" := 4, "div" := 3, "mfhi" := 2, "jr" := 2, "syscall" := 1]

  /** Which handler the dispatch hands a tokenised line to. */
  lemma Dispatch(tokens: seq<string>, currentAddr: int)
    requires tokens != []
    ensures var m := Lower(tokens[0]); var r := TranslateTokens(tokens, currentAddr);
      && (m == "addi" && |tokens| == 4 ==> r == TranslateAddi(tokens))
      && (m == "li" && |tokens| == 3 ==> r == TranslateLi(tokens))
      && ((m == "lw" || m == "sw") && |tokens| == 3 ==> r == TranslateMemory(m, tokens))
      && ((m == "beq" || m == "bne") && |tokens| == 4 ==> r == TranslateBranch(m, tokens, currentAddr))
      && ((m == "j" || m == "jal") && |tokens| == 2 ==> r == TranslateJump(m, tokens))
      && (m == "la" && |tokens| == 3 ==> r == TranslateLa(tokens))
      && ((m == "add" || m == "slt") && |tokens| == 4 ==> r == TranslateRType(m, tokens))
      && (m == "div" && |tokens| == 3 ==> r == TranslateRType(m, tokens))
      && ((m == "mfhi" || m == "jr") && |tokens| == 2 ==> r == TranslateRType(m, tokens))
      && (m == "syscall" && |tokens| == 1 ==> r == TranslateRType(m, tokens))
      && (!KnownForm(m, |tokens|) ==> r == Ok(Sentinel))
  {
  }

  /** The mnemonic and token-count pairs the dispatch handles, in its own order. */
  predicate KnownForm(m: string, n: nat) {
    || (m == "addi" && n == 4) || (m == "li" && n == 3) || ((m == "lw" || m == "sw") && n == 3)
    || ((m == "bne" || m == "beq") && n == 4) || ((m == "j" || m == "jal") && n == 2) || (m == "la" && n == 3)
    || ((m == "add" || m == "slt") && n == 4) || (m == "div" && n == 3) || ((m == "mfhi" || m == "jr") && n == 2)
    || (m == "syscall" && n == 1)
  }

  lemma KnownForms(m: string, n: nat)
    ensures (m in TokenCounts && TokenCounts[m] == n) <==> KnownForm(m, n)
  {
  }

  /** The sentinel comes back exactly for a mnemonic the dispatch does not know or a wrong token count:
      every handled form yields word lines or an exception. */
  lemma SentinelForUnknownForm(tokens: seq<string>, currentAddr: int)
    requires tokens != []
    ensures var m := Lower(tokens[0]);
      TranslateTokens(tokens, currentAddr) == Ok(Sentinel) <==> !(m in TokenCounts && TokenCounts[m] == |tokens|)
  {
    Dispatch(tokens, currentAddr);
    KnownForms(Lower(tokens[0]), |tokens|);
    assert !IsWordLine(Sentinel) by {
      assert Sentinel[0] == 'X';
    }
    assert |Sentinel| != 66;
  }

  lemma AddiFields(tokens: seq<string>, rt: int, rs: int, imm: int)
    requires |tokens| == 4
    requires ParseRegister(tokens[1]) == Ok(rt) && ParseRegister(tokens[2]) == Ok(rs) && ToInt(tokens[3], 0) == Ok(imm)
    ensures TranslateAddi(tokens) == Ok(IWord("001000", rs, rt, imm) + "\n")
  {
  }

  /** `addi $rt, $rs, imm`: rs and rt in their fields, the immediate masked to 16 bits. */
  lemma EncodeAddi(tokens: seq<string>, currentAddr: int, rt: int, rs: int, imm: int)
    requires |tokens| == 4 && Lower(tokens[0]) == "addi"
    requires ParseRegister(tokens[1]) == Ok(rt) && ParseRegister(tokens[2]) == Ok(rs) && ToInt(tokens[3], 0) == Ok(imm)
    ensures TranslateTokens(tokens, currentAddr) == Ok(IWord("001000", rs, rt, imm) + "\n")
  {
    Dispatch(tokens, currentAddr);
    AddiFields(tokens, rt, rs, imm);
  }

  lemma LiFields(tokens: seq<string>, rt: int, imm: int)
    requires |tokens| == 3
    requires ParseRegister(tokens[1]) == Ok(rt) && ToInt(tokens[2], 0) == Ok(imm)
    ensures TranslateLi(tokens) == Ok(IWord("001000", 0, rt, imm) + "\n")
  {
    ZeroField();
  }

  /** `li $rt, imm`: the addi opcode with rs zero, rt in its field and the immediate masked to 16 bits. */
  lemma EncodeLi(tokens: seq<string>, currentAddr: int, rt: int, imm: int)
    requires |tokens| == 3 && Lower(tokens[0]) == "li"
    requires ParseRegister(tokens[1]) == Ok(rt) && ToInt(tokens[2], 0) == Ok(imm)
    ensures TranslateTokens(tokens, currentAddr) == Ok(IWord("001000", 0, rt, imm) + "\n")
  {
    Dispatch(tokens, currentAddr);
    LiFields(tokens, rt, imm);
  }

  lemma ZeroRegister()
    ensures ParseRegister("$zero") == Ok(0)
  {
    assert "$zero"[1..] == "zero";
    LowerOfLower("zero");
  }

  lemma LiAsAddi(rtText: string, immText: string)
    ensures TranslateLi(["li", rtText, immText]) == TranslateAddi(["addi", rtText, "$zero", immText])
  {
    ZeroRegister();
    var li := ["li", rtText, immText];
    var addi := ["addi", rtText, "$zero", immText];
    match ParseRegister(rtText)
    case Raise(_) =>
    case Ok(rt) =>
      match ToInt(immText, 0)
      case Raise(_) =>
      case Ok(imm) =>
        LiFields(li, rt, imm);
        AddiFields(addi, rt, 0, imm);
  }

  /** `li $rt, imm` is `addi $rt, $zero, imm`, failures included. */
  lemma LiIsAddiWithZero(rtText: string, immText: string, currentAddr: int)
    ensures TranslateTokens(["li", rtText, immText], currentAddr)
              == TranslateTokens(["addi", rtText, "$zero", immText], currentAddr)
  {
    assert Lower("li") == "li" && Lower("addi") == "addi";
    Dispatch(["li", rtText, immText], currentAddr);
    Dispatch(["addi", rtText, "$zero", immText], currentAddr);
    LiAsAddi(rtText, immText);
  }

  lemma MemoryLineFields(m: string, rtText: string, rt: int, base: int, offset: int)
    requires m == "lw" || m == "sw"
    requires ParseRegister(rtText) == Ok(rt)
    ensures MemoryLine(m, offset, base, rtText) == Ok(IWord(if m == "lw" then "100011" else "101011", base, rt, offset) + "\n")
  {
    if m == "lw" {
      MemoryOpcodeLine("lw", "100011", rtText, rt, base, offset);
    } else {
      MemoryOpcodeLine("sw", "101011", rtText, rt, base, offset);
    }
  }

  lemma MemoryOpcodeLine(m: string, opcode: string, rtText: string, rt: int, base: int, offset: int)
    requires (m == "lw" && opcode == "100011") || (m == "sw" && opcode == "101011")
    requires ParseRegister(rtText) == Ok(rt)
    ensures MemoryLine(m, offset, base, rtText) == Ok(IWord(opcode, base, rt, offset) + "\n")
  {
    assert Opcodes[m] == opcode;
  }

  lemma MemoryFields(m: string, tokens: seq<string>, rt: int, base: int, offset: int)
    requires m == "lw" || m == "sw"
    requires |tokens| == 3
    requires ParseMemOperand(tokens[2]) == Ok((offset, base)) && ParseRegister(tokens[1]) == Ok(rt)
    ensures TranslateMemory(m, tokens) == Ok(IWord(if m == "lw" then "100011" else "101011", base, rt, offset) + "\n")
  {
    MemoryLineFields(m, tokens[1], rt, base, offset);
  }

  /** `lw`/`sw $rt, offset($base)`: base in rs, rt in rt, the offset masked to 16 bits. */
  lemma EncodeMemory(tokens: seq<string>, currentAddr: int, rt: int, base: int, offset: int)
    requires |tokens| == 3 && (Lower(tokens[0]) == "lw" || Lower(tokens[0]) == "sw")
    requires ParseMemOperand(tokens[2]) == Ok((offset, base)) && ParseRegister(tokens[1]) == Ok(rt)
    ensures TranslateTokens(tokens, currentAddr)
              == Ok(IWord(if Lower(tokens[0]) == "lw" then "100011" else "101011", base, rt, offset) + "\n")
  {
    Dispatch(tokens, currentAddr);
    MemoryFields(Lower(tokens[0]), tokens, rt, base, offset);
  }

  /** A memory operand that is not `offset($reg)`, or whose parts do not parse, is a ValueError. */
  lemma MemoryOperandError(tokens: seq<string>, currentAddr: int)
    requires |tokens| == 3 && (Lower(tokens[0]) == "lw" || Lower(tokens[0]) == "sw")
    requires ParseMemOperand(tokens[2]).Raise?
    ensures TranslateTokens(tokens, currentAddr) == Raise(ValueError)
  {
    Dispatch(tokens, currentAddr);
  }

  lemma BranchFields(m: string, tokens: seq<string>, currentAddr: int, rs: int, rt: int)
    requires m == "beq" || m == "bne"
    requires |tokens| == 4
    requires ParseRegister(tokens[1]) == Ok(rs) && ParseRegister(tokens[2]) == Ok(rt)
    ensures TranslateBranch(m, tokens, currentAddr)
              == if tokens[3] in Labels
                 then Ok(IWord(if m == "beq" then "000100" else "000101", rs, rt,
                               ComputeBranchOffset(Labels[tokens[3]], currentAddr)) + "\n")
                 else Raise(KeyError)
  {
    TableFacts();
    assert Opcodes[m] == if m == "beq" then "000100" else "000101";
    assert LookupLabel(tokens[3]) == if tokens[3] in Labels then Ok(Labels[tokens[3]]) else Raise(KeyError);
  }

  /** `beq`/`bne $rs, $rt, Label`: rs, rt, then the offset from the next instruction to the label. */
  lemma EncodeBranch(tokens: seq<string>, currentAddr: int, rs: int, rt: int)
    requires |tokens| == 4 && (Lower(tokens[0]) == "beq" || Lower(tokens[0]) == "bne")
    requires ParseRegister(tokens[1]) == Ok(rs) && ParseRegister(tokens[2]) == Ok(rt) && tokens[3] in Labels
    ensures TranslateTokens(tokens, currentAddr)
              == Ok(IWord(if Lower(tokens[0]) == "beq" then "000100" else "000101", rs, rt,
                          ComputeBranchOffset(Labels[tokens[3]], currentAddr)) + "\n")
  {
    Dispatch(tokens, currentAddr);
    BranchFields(Lower(tokens[0]), tokens, currentAddr, rs, rt);
  }

  /** A branch to a label the table lacks is a KeyError once both registers parse. */
  lemma BranchUnknownLabel(tokens: seq<string>, currentAddr: int, rs: int, rt: int)
    requires |tokens| == 4 && (Lower(tokens[0]) == "beq" || Lower(tokens[0]) == "bne")
    requires ParseRegister(tokens[1]) == Ok(rs) && ParseRegister(tokens[2]) == Ok(rt) && tokens[3] !in Labels
    ensures TranslateTokens(tokens, currentAddr) == Raise(KeyError)
  {
    Dispatch(tokens, currentAddr);
    BranchFields(Lower(tokens[0]), tokens, currentAddr, rs, rt);
  }

  lemma JumpFields(m: string, tokens: seq<string>)
    requires m == "j" || m == "jal"
    requires |tokens| == 2
    ensures TranslateJump(m, tokens)
              == if tokens[1] in Labels
                 then Ok(JWord(if m == "j" then "000010" else "000011", ComputeJump(Labels[tokens[1]])) + "\n")
                 else Raise(KeyError)
  {
    TableFacts();
    assert Opcodes[m] == if m == "j" then "000010" else "000011";
  }

  /** `j`/`jal Label`: the opcode and the label's word address in 26 bits. */
  lemma EncodeJump(tokens: seq<string>, currentAddr: int)
    requires |tokens| == 2 && (Lower(tokens[0]) == "j" || Lower(tokens[0]) == "jal") && tokens[1] in Labels
    ensures TranslateTokens(tokens, currentAddr)
              == Ok(JWord(if Lower(tokens[0]) == "j" then "000010" else "000011", ComputeJump(Labels[tokens[1]])) + "\n")
  {
    Dispatch(tokens, currentAddr);
    JumpFields(Lower(tokens[0]), tokens);
  }

  /** A jump to a label the table lacks is a KeyError. */
  lemma JumpUnknownLabel(tokens: seq<string>, currentAddr: int)
    requires |tokens| == 2 && (Lower(tokens[0]) == "j" || Lower(tokens[0]) == "jal") && tokens[1] !in Labels
    ensures TranslateTokens(tokens, currentAddr) == Raise(KeyError)
  {
    Dispatch(tokens, currentAddr);
    JumpFields(Lower(tokens[0]), tokens);
  }

  /** `la $rt, Label`: the two lines for the label's address. */
  lemma EncodeLa(tokens: seq<string>, currentAddr: int, rt: int)
    requires |tokens| == 3 && Lower(tokens[0]) == "la" && ParseRegister(tokens[1]) == Ok(rt) && tokens[2] in Labels
    ensures TranslateTokens(tokens, currentAddr) == Ok(LaLines(rt, Labels[tokens[2]]))
  {
    Dispatch(tokens, currentAddr);
  }

  /** `la` with a label the table lacks is a KeyError once the register parses. */
  lemma LaUnknownLabel(tokens: seq<string>, currentAddr: int, rt: int)
    requires |tokens| == 3 && Lower(tokens[0]) == "la" && ParseRegister(tokens[1]) == Ok(rt) && tokens[2] !in Labels
    ensures TranslateTokens(tokens, currentAddr) == Raise(KeyError)
  {
    Dispatch(tokens, currentAddr);
  }

  /** Blank lines and lines holding only a comment translate to nothing. */
  lemma CommentLine(blank: string, comment: string, currentAddr: int)
    requires AllSpace(blank) && (comment == [] || comment[0] == '#')
    ensures TranslateLine(blank + comment, currentAddr) == Ok("")
  {
    assert '#' !in blank by {
      assert !IsSpace('#');
    }
    BeforeFirstPrefix(blank, comment, '#');
    StripAllSpace(blank);
  }

  /** A `Label:` line, with blanks before it and after the colon and with or without a comment,
      translates to nothing. The label text may be anything without `#`. */
  lemma LabelLine(lead: string, name: string, pad: string, comment: string, currentAddr: int)
    requires AllSpace(lead) && '#' !in name && AllSpace(pad) && (comment == [] || comment[0] == '#')
    ensures TranslateLine(lead + name + ":" + pad + comment, currentAddr) == Ok("")
  {
    var head := lead + name + ":";
    assert !IsSpace('#');
    assert '#' !in lead && '#' !in pad;
    assert '#' !in head + pad;
    assert lead + name + ":" + pad + comment == (head + pad) + comment;
    BeforeFirstPrefix(head + pad, comment, '#');
    assert head[|head| - 1] == ':';
    StripBeforePad(head, pad);
  }

  /** The text between two operands: one or more blanks and commas. */
  predicate IsSeparator(g: string) {
    g != [] && forall i :: 0 <= i < |g| ==> IsSpace(g[i]) || g[i] == ','
  }

  /** A line of tokens without blanks, commas or `#`, separated by blanks and commas, with blanks
      around it and an optional comment, and not ending in a colon, is translated as exactly those
      tokens. */
  lemma InstructionLine(lead: string, tokens: seq<string>, gaps: seq<string>, pad: string, comment: string, currentAddr: int)
    requires AllSpace(lead) && AllSpace(pad) && (comment == [] || comment[0] == '#')
    requires tokens != [] && |gaps| == |tokens| - 1
    requires forall i :: 0 <= i < |tokens| ==> IsToken(tokens[i]) && ',' !in tokens[i] && '#' !in tokens[i]
    requires forall i :: 0 <= i < |gaps| ==> IsSeparator(gaps[i])
    requires var last := tokens[|tokens| - 1]; last == [] || last[|last| - 1] != ':'
    ensures TranslateLine(lead + Joined(tokens, gaps) + pad + comment, currentAddr) == TranslateTokens(tokens, currentAddr)
  {
    var body := Joined(tokens, gaps);
    var line := lead + body + pad + comment;
    InstructionText(lead, tokens, gaps, pad, comment);
    assert StripComments(line) == body;
    JoinedEnds(tokens, gaps);
    assert body != [] && body[|body| - 1] != ':';
    SeparatedTokens(tokens, gaps);
    assert Split(ReplaceCommas(body)) == tokens;
    LineTokens(line, body, tokens, currentAddr);
  }

  /** A line whose code part is a non-empty text not ending in a colon is translated as that
      text's tokens. */
  lemma LineTokens(line: string, body: string, tokens: seq<string>, currentAddr: int)
    requires StripComments(line) == body && body != [] && body[|body| - 1] != ':'
    requires tokens != [] && Split(ReplaceCommas(body)) == tokens
    ensures TranslateLine(line, currentAddr) == TranslateTokens(tokens, currentAddr)
  {
  }

  /** Tokens without commas, separated by blanks and commas, split back into those tokens. */
  lemma SeparatedTokens(tokens: seq<string>, gaps: seq<string>)
    requires tokens != [] && |gaps| == |tokens| - 1
    requires forall i :: 0 <= i < |tokens| ==> IsToken(tokens[i]) && ',' !in tokens[i]
    requires forall i :: 0 <= i < |gaps| ==> IsSeparator(gaps[i])
    ensures Split(ReplaceCommas(Joined(tokens, gaps))) == tokens
  {
    ReplaceCommasJoined(tokens, gaps);
    var spaced := ReplaceEach(gaps);
    forall i | 0 <= i < |spaced|
      ensures spaced[i] != [] && AllSpace(spaced[i])
    {
      assert IsSeparator(gaps[i]);
    }
    SplitJoined("", tokens, spaced, "");
    assert "" + Joined(tokens, spaced) + "" == Joined(tokens, spaced);
  }

  /** Such a line keeps the joined tokens after the comment and the surrounding blanks are cut. */
  lemma InstructionText(lead: string, tokens: seq<string>, gaps: seq<string>, pad: string, comment: string)
    requires AllSpace(lead) && AllSpace(pad) && (comment == [] || comment[0] == '#')
    requires tokens != [] && |gaps| == |tokens| - 1
    requires forall i :: 0 <= i < |tokens| ==> IsToken(tokens[i]) && '#' !in tokens[i]
    requires forall i :: 0 <= i < |gaps| ==> IsSeparator(gaps[i])
    ensures StripComments(lead + Joined(tokens, gaps) + pad + comment) == Joined(tokens, gaps)
  {
    var body := Joined(tokens, gaps);
    JoinedAvoids(tokens, gaps, '#') by {
      assert !IsSpace('#');
      forall i | 0 <= i < |gaps|
        ensures '#' !in gaps[i]
      {
        assert IsSeparator(gaps[i]);
      }
    }
    JoinedEnds(tokens, gaps);
    CodeText(lead, body, pad, comment);
  }

  /** Cutting the comment and the blanks around a non-blank-ended text without `#` leaves that text. */
  lemma CodeText(lead: string, body: string, pad: string, comment: string)
    requires AllSpace(lead) && AllSpace(pad) && (comment == [] || comment[0] == '#')
    requires body != [] && '#' !in body && !IsSpace(body[0]) && !IsSpace(body[|body| - 1])
    ensures StripComments(lead + body + pad + comment) == body
  {
    assert !IsSpace('#');
    assert '#' !in lead && '#' !in pad;
    var text := lead + body + pad;
    assert '#' !in text;
    assert lead + body + pad + comment == text + comment;
    BeforeFirstPrefix(text, comment, '#');
    StripPadded(lead, body, pad);
  }

  lemma ThreeRegisterFields(m: string, tokens: seq<string>, rd: int, rs: int, rt: int)
    requires (m == "add" || m == "slt") && |tokens| == 4
    requires ParseRegister(tokens[1]) == Ok(rd) && ParseRegister(tokens[2]) == Ok(rs) && ParseRegister(tokens[3]) == Ok(rt)
    ensures TranslateRType(m, tokens) == Ok(RWord(rs, rt, rd, if m == "add" then "100000" else "101010") + "\n")
  {
    if m == "add" {
      AddFields(tokens, rd, rs, rt);
    } else {
      SltFields(tokens, rd, rs, rt);
    }
  }

  lemma AddFields(tokens: seq<string>, rd: int, rs: int, rt: int)
    requires |tokens| == 4
    requires ParseRegister(tokens[1]) == Ok(rd) && ParseRegister(tokens[2]) == Ok(rs) && ParseRegister(tokens[3]) == Ok(rt)
    ensures TranslateRType("add", tokens) == Ok(RWord(rs, rt, rd, "100000") + "\n")
  {
  }

  lemma SltFields(tokens: seq<string>, rd: int, rs: int, rt: int)
    requires |tokens| == 4
    requires ParseRegister(tokens[1]) == Ok(rd) && ParseRegister(tokens[2]) == Ok(rs) && ParseRegister(tokens[3]) == Ok(rt)
    ensures TranslateRType("slt", tokens) == Ok(RWord(rs, rt, rd, "101010") + "\n")
  {
  }

  /** `add`/`slt $rd, $rs, $rt`: an R-type word with the three registers in rs, rt, rd order. */
  lemma EncodeThreeRegister(tokens: seq<string>, currentAddr: int, rd: int, rs: int, rt: int)
    requires |tokens| == 4 && (Lower(tokens[0]) == "add" || Lower(tokens[0]) == "slt")
    requires ParseRegister(tokens[1]) == Ok(rd) && ParseRegister(tokens[2]) == Ok(rs) && ParseRegister(tokens[3]) == Ok(rt)
    ensures TranslateTokens(tokens, currentAddr)
              == Ok(RWord(rs, rt, rd, if Lower(tokens[0]) == "add" then "100000" else "101010") + "\n")
  {
    Dispatch(tokens, currentAddr);
    ThreeRegisterFields(Lower(tokens[0]), tokens, rd, rs, rt);
  }

  lemma DivFields(tokens: seq<string>, rt: int, rs: int)
    requires |tokens| == 3
    requires ParseRegister(tokens[1]) == Ok(rt) && ParseRegister(tokens[2]) == Ok(rs)
    ensures TranslateRType("div", tokens) == Ok(RWord(rs, rt, 0, "011010") + "\n")
  {
    ZeroField();
  }

  /** `div $rt, $rs`: the first operand goes to rt, the second to rs, rd is zero. */
  lemma EncodeDiv(tokens: seq<string>, currentAddr: int, rt: int, rs: int)
    requires |tokens| == 3 && Lower(tokens[0]) == "div"
    requires ParseRegister(tokens[1]) == Ok(rt) && ParseRegister(tokens[2]) == Ok(rs)
    ensures TranslateTokens(tokens, currentAddr) == Ok(RWord(rs, rt, 0, "011010") + "\n")
  {
    Dispatch(tokens, currentAddr);
    DivFields(tokens, rt, rs);
  }

  lemma MfhiFields(tokens: seq<string>, rd: int)
    requires |tokens| == 2 && ParseRegister(tokens[1]) == Ok(rd)
    ensures TranslateRType("mfhi", tokens) == Ok(RWord(0, 0, rd, "010000") + "\n")
  {
    ZeroField();
  }

  /** `mfhi $rd`: only rd is set. */
  lemma EncodeMfhi(tokens: seq<string>, currentAddr: int, rd: int)
    requires |tokens| == 2 && Lower(tokens[0]) == "mfhi" && ParseRegister(tokens[1]) == Ok(rd)
    ensures TranslateTokens(tokens, currentAddr) == Ok(RWord(0, 0, rd, "010000") + "\n")
  {
    Dispatch(tokens, currentAddr);
    MfhiFields(tokens, rd);
  }

  lemma JrFields(tokens: seq<string>, rs: int)
    requires |tokens| == 2 && ParseRegister(tokens[1]) == Ok(rs)
    ensures TranslateRType("jr", tokens) == Ok(RWord(rs, 0, 0, "001000") + "\n")
  {
    ZeroField();
  }

  /** `jr $rs`: only rs is set. */
  lemma EncodeJr(tokens: seq<string>, currentAddr: int, rs: int)
    requires |tokens| == 2 && Lower(tokens[0]) == "jr" && ParseRegister(tokens[1]) == Ok(rs)
    ensures TranslateTokens(tokens, currentAddr) == Ok(RWord(rs, 0, 0, "001000") + "\n")
  {
    Dispatch(tokens, currentAddr);
    JrFields(tokens, rs);
  }

  lemma SyscallFields(tokens: seq<string>)
    requires |tokens| == 1
    ensures TranslateRType("syscall", tokens) == Ok(RWord(0, 0, 0, "001100") + "\n")
  {
    ZeroField();
  }

  /** `syscall`: every register field zero. */
  lemma EncodeSyscall(tokens: seq<string>, currentAddr: int)
    requires |tokens| == 1 && Lower(tokens[0]) == "syscall"
    ensures TranslateTokens(tokens, currentAddr) == Ok(RWord(0, 0, 0, "001100") + "\n")
  {
    Dispatch(tokens, currentAddr);
    SyscallFields(tokens);
  }

  lemma LaHalves(rt: int, addr: int)
    requires 0 <= addr < 4294967296
    ensures LaLines(rt, addr) == IWord("001111", 0, rt, addr / 65536) + "\n" + IWord("001101", rt, rt, addr % 65536) + "\n"
  {
    ZeroField();
    DivModUnique(addr / 65536, 65536, 0, addr / 65536);
  }

  /** For an address below 2^32, `la` is a lui of the upper half into rt with rs zero, then an ori
      of rt with itself and the lower half; the two immediates put together are the address. */
  lemma LaSplitsAddress(rt: int, addr: int)
    requires 0 <= addr < 4294967296
    ensures var s := LaLines(rt, addr);
      && s == IWord("001111", 0, rt, addr / 65536) + "\n" + IWord("001101", rt, rt, addr % 65536) + "\n"
      && BinaryValue(s[16..32]) * 65536 + BinaryValue(s[49..65]) == addr
  {
    LaHalves(rt, addr);
    var upper := addr / 65536;
    var lower := addr % 65536;
    var lui := IWord("001111", 0, rt, upper);
    var ori := IWord("001101", rt, rt, lower);
    LaImmediates(lui, ori);
    HalfValue(lui, upper);
    HalfValue(ori, lower);
  }

  /** The immediates of the two `la` lines are the immediates of the two words. */
  lemma LaImmediates(lui: string, ori: string)
    requires |lui| == 32 && |ori| == 32
    ensures var s := lui + "\n" + ori + "\n"; s[16..32] == lui[16..] && s[49..65] == ori[16..]
  {
  }

  /** A half of an address below 2^32 is read back from a word's immediate. */
  lemma HalfValue(w: string, half: int)
    requires 0 <= half < 65536 && |w| == 32 && w[16..] == ToBits(half, 16)
    ensures BinaryValue(w[16..]) == half
  {
    Pow2Values();
    FieldValue(half, 16);
  }

  /** `$t0` is register 8. */
  lemma TemporaryZero()
    ensures ParseRegister("$t0") == Ok(8)
  {
    assert "$t0"[1..] == "t0";
    LowerOfLower("t0");
    assert !IsAsciiDigit('t');
  }

  /** `addi $t0, $zero, 5` is 001000 00000 01000 0000000000000101. */
  lemma AddiExample(tokens: seq<string>, currentAddr: int)
    requires tokens == ["addi", "$t0", "$zero", "5"]
    ensures TranslateTokens(tokens, currentAddr) == Ok("001000" + "00000" + "01000" + "0000000000000101" + "\n")
  {
    ExampleFields(tokens, currentAddr);
    ExampleWord();
  }

  /** The source line `addi $t0, $zero, 5`, as read from a file, becomes that word. */
  lemma AddiLine(line: string, currentAddr: int)
    requires line == "addi $t0, $zero, 5\n"
    ensures TranslateLine(line, currentAddr) == Ok("00100000000010000000000000000101\n")
  {
    var tokens := ["addi", "$t0", "$zero", "5"];
    AddiLineTokens(line, tokens, currentAddr);
    AddiExample(tokens, currentAddr);
    AddiWordText();
  }

  lemma AddiLineTokens(line: string, tokens: seq<string>, currentAddr: int)
    requires line == "addi $t0, $zero, 5\n" && tokens == ["addi", "$t0", "$zero", "5"]
    ensures TranslateLine(line, currentAddr) == TranslateTokens(tokens, currentAddr)
  {
    var gaps := [" ", ", ", ", "];
    AddiLineParts(line, tokens, gaps);
    InstructionLine("", tokens, gaps, "\n", "", currentAddr);
  }

  lemma AddiWordText()
    ensures "001000" + "00000" + "01000" + "0000000000000101" + "\n" == "00100000000010000000000000000101\n"
  {
  }

  lemma AddiLineParts(line: string, tokens: seq<string>, gaps: seq<string>)
    requires line == "addi $t0, $zero, 5\n"
    requires tokens == ["addi", "$t0", "$zero", "5"] && gaps == [" ", ", ", ", "]
    ensures line == "" + Joined(tokens, gaps) + "\n" + ""
    ensures forall i :: 0 <= i < |tokens| ==> IsToken(tokens[i]) && ',' !in tokens[i] && '#' !in tokens[i]
    ensures forall i :: 0 <= i < |gaps| ==> IsSeparator(gaps[i])
    ensures AllSpace("\n")
  {
    AddiJoined(tokens, gaps);
    assert !IsSpace(',') && !IsSpace('#');
  }

  lemma AddiJoined(tokens: seq<string>, gaps: seq<string>)
    requires tokens == ["addi", "$t0", "$zero", "5"] && gaps == [" ", ", ", ", "]
    ensures Joined(tokens, gaps) == "addi $t0, $zero, 5"
  {
    assert Joined(tokens[3..], gaps[3..]) == "5";
    assert Joined(tokens[2..], gaps[2..]) == "$zero" + ", " + "5";
    assert Joined(tokens[1..], gaps[1..]) == "$t0" + ", " + ("$zero" + ", " + "5");
  }

  lemma ExampleFields(tokens: seq<string>, currentAddr: int)
    requires |tokens| == 4 && tokens[0] == "addi" && tokens[1] == "$t0" && tokens[2] == "$zero" && tokens[3] == "5"
    ensures TranslateTokens(tokens, currentAddr) == Ok(IWord("001000", 0, 8, 5) + "\n")
  {
    assert Lower("addi") == "addi";
    TemporaryZero();
    ZeroRegister();
    IntToDecimalRoundTrip(5);
    assert IntToDecimal(5) == "5";
    EncodeAddi(tokens, currentAddr, 8, 0, 5);
  }

  lemma ExampleWord()
    ensures IWord("001000", 0, 8, 5) + "\n" == "001000" + "00000" + "01000" + "0000000000000101" + "\n"
  {
    ZeroField();
    EightInFive();
    FiveInSixteen();
  }

  lemma EightInFive()
    ensures ToBits(8, 5) == "01000"
  {
    Pow2Values();
    FixedBinaryZero(1);
    assert FixedBinary(8, 5) == "01000";
  }

  lemma FiveInSixteen()
    ensures ToBits(5, 16) == "0000000000000101"
  {
    Pow2Values();
    FixedBinaryZero(13);
    assert FixedBinary(1, 14) == FixedBinary(0, 13) + "1";
    assert FixedBinary(2, 15) == FixedBinary(1, 14) + "0";
    assert FixedBinary(5, 16) == FixedBinary(2, 15) + "1";
  }

  /** `$<n>` is register n for n up to 31 and a ValueError above. */
  lemma NumberedRegister(n: nat)
    ensures ParseRegister("$" + NatToDecimal(n)) == if n <= 31 then Ok(n) else Raise(ValueError)
  {
    var d := NatToDecimal(n);
    assert ("$" + d)[1..] == d;
    LowerOfLower(d);
    DecimalRoundTrip(n);
  }

  /** Register names are matched without regard to letter case. */
  lemma RegisterCaseInsensitive(name: string)
    ensures ParseRegister("$" + name) == ParseRegister("$" + Lower(name))
  {
    var l := Lower(name);
    assert ("$" + name)[1..] == name;
    assert ("$" + l)[1..] == l;
    LowerTwice(name);
  }

  /** `$<name>` for a name in the table, in any letter case, is the table's register. */
  lemma NamedRegister(name: string)
    requires Lower(name) in RegisterMap
    ensures ParseRegister("$" + name) == Ok(RegisterMap[Lower(name)])
  {
    assert ("$" + name)[1..] == name;
    RegisterNamesStartWithLetter();
    assert !IsAsciiDigit(Lower(name)[0]);
  }

  /** `$<name>` for a name that is neither all digits nor in the table, in any letter case, raises
      ValueError. */
  lemma UnknownRegister(name: string)
    requires !IsDigits(Lower(name)) && Lower(name) !in RegisterMap
    ensures ParseRegister("$" + name) == Raise(ValueError)
  {
    assert ("$" + name)[1..] == name;
  }

  /** No register name in the table is all digits, so a number never reaches the table. */
  lemma RegisterNamesStartWithLetter()
    ensures forall k :: k in RegisterMap ==> k != [] && 'a' <= k[0] <= 'z'
  {
  }

  /** The text `offset( $reg )` for a decimal offset, a register word the register parser accepts and
      any blanks inside the parentheses reads back as that offset and that register. */
  lemma MemOperandText(offset: int, lead: string, regText: string, trail: string, base: int)
    requires AllSpace(lead) && AllSpace(trail)
    requires IsRegisterWord(regText) && ParseRegister(regText) == Ok(base)
    ensures ParseMemOperand(IntToDecimal(offset) + "(" + lead + regText + trail + ")") == Ok((offset, base))
  {
    DecimalText(offset);
    MatchText(IntToDecimal(offset), lead, regText, trail);
    IntToDecimalRoundTrip(offset);
  }

  /** An offset literal without `(`, then `(`, a register word with blanks on either side, and `)`
      match with the offset and the bare register word. */
  lemma MatchText(d: string, lead: string, regText: string, trail: string)
    requires IsOffsetLiteral(d) && '(' !in d && IsRegisterWord(regText)
    requires AllSpace(lead) && AllSpace(trail)
    ensures MatchMemOperand(d + "(" + lead + regText + trail + ")") == Some((d, regText))
  {
    assert IsWordChar(regText[|regText| - 1]);
    StripPadded(lead, regText, trail);
    Parenthesised(d, lead, regText, trail);
    MatchWrapped(d, lead + regText + trail, regText);
  }

  /** Regrouping the parts of a memory operand around its inner text. */
  lemma Parenthesised(d: string, lead: string, regText: string, trail: string)
    ensures d + "(" + lead + regText + trail + ")" == d + "(" + (lead + regText + trail) + ")"
  {
  }

  /** An offset literal without `(` and text that strips to a register word, in parentheses,
      match with the offset and that register word. */
  lemma MatchWrapped(d: string, inner: string, regText: string)
    requires IsOffsetLiteral(d) && '(' !in d && IsRegisterWord(regText) && Strip(inner) == regText
    ensures MatchMemOperand(d + "(" + inner + ")") == Some((d, regText))
  {
    var token := d + "(" + inner + ")";
    assert token[..|d|] == d && token[|d|] == '(';
    assert token[|d| + 1..|token| - 1] == inner;
    MatchParts(token, d, inner, regText);
  }

  /** A token made of an offset literal without `(`, then `(`, text that strips to a register word,
      and `)` matches with the offset and that register word. */
  lemma MatchParts(token: string, d: string, inner: string, regText: string)
    requires IsOffsetLiteral(d) && '(' !in d && IsRegisterWord(regText) && Strip(inner) == regText
    requires |token| == |d| + |inner| + 2 && token[..|d|] == d && token[|d|] == '('
    requires token[|d| + 1..|token| - 1] == inner && token[|token| - 1] == ')'
    ensures MatchMemOperand(token) == Some((d, regText))
  {
    var p := IndexOf(token, '(');
    if p < |d| {
      assert false;
    }
    assert p == |d|;
  }

  /** `str(i)` is an optional minus and decimal digits: an offset literal without `(`. */
  lemma DecimalText(i: int)
    ensures IsOffsetLiteral(IntToDecimal(i)) && '(' !in IntToDecimal(i)
  {
    var m: nat := if i < 0 then -i else i;
    var n := NatToDecimal(m);
    assert '(' !in n by {
      assert forall k :: 0 <= k < |n| ==> IsAsciiDigit(n[k]);
    }
    if i < 0 {
      assert ("-" + n)[1..] == n;
    }
  }
}
