/** disassembler.py: one line holding a 32-character word back to a line of assembly text, and
    the loop of `main` that walks a file of words. */
module Disassembler {
  import opened Results
  import opened PyText
  import opened Numerals
  import opened Bits
  import opened Formats

  /** Register indices to names. The dictionary literal gives key 30 twice; the later entry wins,
      so register 30 is written `s8`. */
  const RegisterMap: map<int, string> := map[
    0 := "zero", 1 := "at", 2 := "v0", 3 := "v1",
    4 := "a0", 5 := "a1", 6 := "a2", 7 := "a3",
    8 := "t0", 9 := "t1", 10 := "t2", 11 := "t3", 12 := "t4", 13 := "t5", 14 := "t6", 15 := "t7",
    16 := "s0", 17 := "s1", 18 := "s2", 19 := "s3", 20 := "s4", 21 := "s5", 22 := "s6", 23 := "s7",
    24 := "t8", 25 := "t9", 26 := "k0", 27 := "k1", 28 := "gp", 29 := "sp", 30 := "fp", 30 := "s8", 31 := "ra"]

  const Opcodes: map<string, string> := map[
    "001000" := "addi", "100011" := "lw", "101011" := "sw", "000101" := "bne", "000100" := "beq",
    "000010" := "j", "000011" := "jal", "001111" := "lui", "001101" := "ori"]

  const Functs: map<string, string> := map[
    "100000" := "add", "011010" := "div", "101010" := "slt", "010000" := "mfhi", "001000" := "jr",
    "001100" := "syscall"]

  const Labels: map<int, string> := map[
    4194304 := "Main", 4194312 := "Loop", 4194400 := "PrintFizzBuzz", 4194484 := "PrintFizz",
    4194536 := "PrintBuzz", 4194588 := "Exit"]

  const InvalidLength: string := "INVALID, NOT 32 BITS\n"

  /** Written for an opcode in the table without a handler, and for an unknown funct. */
  const UnknownInstruction: string := "UNKNOWN INSTRUCTION\n"

  /** Written for an opcode outside the table; note the space before the newline. */
  const UnknownOpcode: string := "UNKNOWN INSTRUCTION \n"

  const StartAddress: int := 4194304

  /** `sign_extend_16bit`: `value - 0x10000` when `value & 0x8000` is set. Python's `&` works on the
      two's-complement pattern of unbounded integers, so bit 15 is that of `value` modulo 2^16. */
  function SignExtend16(value: int): (r: int)
    ensures 0 <= value < 65536 ==> -32768 <= r <= 32767 && (value - r) % 65536 == 0
    ensures 0 <= value < 65536 ==> (r < 0 <==> value >= 32768)
  {
    if (value % 65536) / 32768 == 1 then value - 65536 else value
  }

  /** `register_map[index]`, a KeyError outside 0..31. */
  function RegisterName(index: int): (r: Result<string>)
    ensures r.Ok? <==> 0 <= index <= 31
    ensures 0 <= index <= 31 ==> r == Ok(RegisterMap[index])
    ensures r.Raise? ==> r.exc == KeyError
  {
    if index in RegisterMap then Ok(RegisterMap[index]) else Raise(KeyError)
  }

  /** The target `cur + 4 + imm * 4` the decoder recomputes for a branch. The source looks it up
      in the label table and then does not use it, so it never changes the output. */
  function BranchTarget(currentAddress: int, imm: int): int {
    currentAddress + 4 + imm * 4
  }

  /** `disassemble_instruction`: the text for one line of the input, or the exception it raises. */
  function DisassembleInstruction(line: string, currentAddress: int): (r: Result<string>)
    ensures |Strip(line)| != 32 ==> r == Ok(InvalidLength)
  {
    var bits := Strip(line);
    if |bits| != 32 then Ok(InvalidLength)
    else
      var opcode := bits[..6];
      if opcode in Opcodes then DecodeIType(bits, Opcodes[opcode])
      else if opcode == "000000" then DecodeRType(bits)
      else Ok(UnknownOpcode)
  }

  /** The opcode-table branch. rs, rt and the immediate are read (`int(field, 2)`) before the
      mnemonic is looked at, so a malformed field raises even for lw, sw, jal, lui and ori. */
  function DecodeIType(bits: string, mnemonic: string): (r: Result<string>)
    requires |bits| == 32
  {
    var rs :- ToInt(bits[6..11], 2);
    var rt :- ToInt(bits[11..16], 2);
    var immValue :- ToInt(bits[16..], 2);
    var imm := SignExtend16(immValue);
    if mnemonic == "addi" then
      if rs == 0 then
        var rtName :- RegisterName(rt);
        Ok("li $" + rtName + "," + IntToDecimal(imm) + "\n")
      else
        var rtName :- RegisterName(rt);
        var rsName :- RegisterName(rs);
        Ok("addi $" + rtName + ", $" + rsName + ", " + IntToDecimal(imm) + "\n")
    else if mnemonic == "beq" || mnemonic == "bne" then
      var rsName :- RegisterName(rs);
      var rtName :- RegisterName(rt);
      Ok(mnemonic + " $" + rsName + ", $" + rtName + ", offset " + IntToDecimal(imm) + "\n")
    else if mnemonic == "j" then
      var addr :- ToInt(bits[6..], 2);
      if addr * 4 in Labels then Ok("j " + Labels[addr * 4] + "\n") else Raise(KeyError)
    else Ok(UnknownInstruction)
  }

  /** The opcode-000000 branch. rs, rt and rd are read before the funct is looked up. */
  function DecodeRType(bits: string): (r: Result<string>)
    requires |bits| == 32
  {
    var rs :- ToInt(bits[6..11], 2);
    var rt :- ToInt(bits[11..16], 2);
    var rd :- ToInt(bits[16..21], 2);
    RTypeText(bits[26..], rs, rt, rd)
  }

  /** The funct dispatch once rs, rt and rd are read: a name lookup raises KeyError for an index the
      table lacks. */
  function RTypeText(funct: string, rs: int, rt: int, rd: int): Result<string>
  {
    if funct !in Functs then Ok(UnknownInstruction)
    else
      var mnemonic := Functs[funct];
      if mnemonic == "syscall" then Ok("syscall\n")
      else if mnemonic == "mfhi" then
        var rdName :- RegisterName(rd);
        Ok("mfhi $" + rdName + "\n")
      else if mnemonic == "div" then
        var rtName :- RegisterName(rt);
        var rsName :- RegisterName(rs);
        Ok("div $" + rtName + ", $" + rsName + "\n")
      else if mnemonic == "jr" then
        var rsName :- RegisterName(rs);
        Ok("jr $" + rsName + "\n")
      else
        var rdName :- RegisterName(rd);
        var rsName :- RegisterName(rs);
        var rtName :- RegisterName(rt);
        Ok(mnemonic + " $" + rdName + ", $" + rsName + ", $" + rtName + "\n")
  }

  /** The sign extension undoes the 16-bit masking of the assembler: a value in the signed 16-bit
      range comes back from its low 16 bits. */
  lemma SignExtendMasked(imm: int)
    requires -32768 <= imm <= 32767
    ensures SignExtend16(imm % 65536) == imm
  {
    if imm < 0 {
      DivModUnique(imm, 65536, -1, imm + 65536);
    } else {
      DivModUnique(imm, 65536, 0, imm);
    }
  }

  /** The three reference points of the sign extension. */
  lemma SignExtendSamples()
    ensures SignExtend16(0xFFFF) == -1 && SignExtend16(0x7FFF) == 32767 && SignExtend16(0x8000) == -32768
  {
  }

  /** The lookups the decoder makes in its opcode table. */
  lemma OpcodeTable()
    ensures "001000" in Opcodes && Opcodes["001000"] == "addi"
    ensures "100011" in Opcodes && Opcodes["100011"] == "lw"
    ensures "101011" in Opcodes && Opcodes["101011"] == "sw"
    ensures "000101" in Opcodes && Opcodes["000101"] == "bne"
    ensures "000100" in Opcodes && Opcodes["000100"] == "beq"
    ensures "000010" in Opcodes && Opcodes["000010"] == "j"
    ensures "000011" in Opcodes && Opcodes["000011"] == "jal"
    ensures "001111" in Opcodes && Opcodes["001111"] == "lui"
    ensures "001101" in Opcodes && Opcodes["001101"] == "ori"
    ensures "000000" !in Opcodes
  {
  }

  /** A line holding a 32-bit word, possibly with blanks around it. */
  predicate IsWordText(line: string) {
    var bits := Strip(line);
    |bits| == 32 && IsBinary(bits)
  }

  /** The fields of a word, read as unsigned binary numbers. */
  function Rs(bits: string): (r: nat) requires |bits| == 32 ensures r < 32 {
    BinaryValueBound(bits[6..11]); Pow2Values(); BinaryValue(bits[6..11])
  }
  function Rt(bits: string): (r: nat) requires |bits| == 32 ensures r < 32 {
    BinaryValueBound(bits[11..16]); Pow2Values(); BinaryValue(bits[11..16])
  }
  function Rd(bits: string): (r: nat) requires |bits| == 32 ensures r < 32 {
    BinaryValueBound(bits[16..21]); Pow2Values(); BinaryValue(bits[16..21])
  }
  function Imm(bits: string): nat requires |bits| == 32 { BinaryValue(bits[16..]) }
  function Target(bits: string): nat requires |bits| == 32 { BinaryValue(bits[6..]) }

  /** A word line (the word and its line break) is read as the word itself. */
  lemma StripWord(w: string)
    requires |w| == 32 && IsBinary(w)
    ensures Strip(w + "\n") == w && IsWordText(w + "\n")
  {
    assert !IsSpace(w[0]) && !IsSpace(w[31]);
    assert AllSpace("\n");
    StripTrailingBlanks(w, "\n");
  }

  /** `int(field, 2)` reads every field of a binary word as its value; register fields are below 32. */
  lemma FieldsParse(bits: string)
    requires |bits| == 32 && IsBinary(bits)
    ensures ToInt(bits[6..11], 2) == Ok(Rs(bits)) && Rs(bits) < 32
    ensures ToInt(bits[11..16], 2) == Ok(Rt(bits)) && Rt(bits) < 32
    ensures ToInt(bits[16..21], 2) == Ok(Rd(bits)) && Rd(bits) < 32
    ensures ToInt(bits[16..], 2) == Ok(Imm(bits)) && Imm(bits) < 65536
    ensures ToInt(bits[6..], 2) == Ok(Target(bits))
  {
    FieldParse(bits, 6, 11);
    FieldParse(bits, 11, 16);
    FieldParse(bits, 16, 21);
    SuffixParse(bits, 16);
    SuffixParse(bits, 6);
    BinaryValueBound(bits[16..]);
    Pow2Values();
  }

  /** `int(field, 2)` reads the last field of a binary word as its value. */
  lemma SuffixParse(bits: string, i: nat)
    requires |bits| == 32 && IsBinary(bits) && i < 32
    ensures ToInt(bits[i..], 2) == Ok(BinaryValue(bits[i..]))
  {
    var s := bits[i..];
    assert IsBinary(s);
    BinaryParse(s);
  }

  /** `int(field, 2)` reads one field of a binary word as its value. */
  lemma FieldParse(bits: string, i: nat, j: nat)
    requires |bits| == 32 && IsBinary(bits) && i < j <= 32
    ensures ToInt(bits[i..j], 2) == Ok(BinaryValue(bits[i..j]))
  {
    var s := bits[i..j];
    assert IsBinary(s);
    BinaryParse(s);
  }

  /** Opcode 001000 renders as `li` exactly when its rs field is 0, and as `addi` otherwise. */
  lemma DecodeAddi(line: string, bits: string, currentAddress: int)
    requires Strip(line) == bits && |bits| == 32 && IsBinary(bits) && bits[..6] == "001000"
    ensures DisassembleInstruction(line, currentAddress) ==
        if Rs(bits) == 0 then Ok("li $" + RegisterName(Rt(bits)).value + "," + IntToDecimal(SignExtend16(Imm(bits))) + "\n")
        else Ok("addi $" + RegisterName(Rt(bits)).value + ", $" + RegisterName(Rs(bits)).value + ", "
                + IntToDecimal(SignExtend16(Imm(bits))) + "\n")
  {
    FieldsParse(bits);
    OpcodeTable();
  }

  /** beq and bne render rs, rt and the signed immediate as a numeric offset. */
  lemma DecodeBranch(line: string, bits: string, currentAddress: int)
    requires Strip(line) == bits && |bits| == 32 && IsBinary(bits) && (bits[..6] == "000100" || bits[..6] == "000101")
    ensures DisassembleInstruction(line, currentAddress) ==
        Ok((if bits[..6] == "000100" then "beq" else "bne") + " $" + RegisterName(Rs(bits)).value + ", $"
           + RegisterName(Rt(bits)).value + ", offset " + IntToDecimal(SignExtend16(Imm(bits))) + "\n")
  {
    FieldsParse(bits);
    OpcodeTable();
  }

  /** j renders the label at four times its 26-bit field, and raises KeyError when there is none. */
  lemma DecodeJump(line: string, bits: string, currentAddress: int)
    requires Strip(line) == bits && |bits| == 32 && IsBinary(bits) && bits[..6] == "000010"
    ensures DisassembleInstruction(line, currentAddress) ==
        if Target(bits) * 4 in Labels then Ok("j " + Labels[Target(bits) * 4] + "\n") else Raise(KeyError)
  {
    FieldsParse(bits);
    OpcodeTable();
  }

  /** Table opcodes the decoder has no case for: lw, sw, jal, lui and ori. */
  lemma DecodeUnhandled(line: string, bits: string, currentAddress: int)
    requires Strip(line) == bits && |bits| == 32 && IsBinary(bits)
    requires var op := bits[..6];
      op == "100011" || op == "101011" || op == "000011" || op == "001111" || op == "001101"
    ensures DisassembleInstruction(line, currentAddress) == Ok(UnknownInstruction)
  {
    OpcodeTable();
    var m := Opcodes[bits[..6]];
    assert m == "lw" || m == "sw" || m == "jal" || m == "lui" || m == "ori";
    assert DisassembleInstruction(line, currentAddress) == DecodeIType(bits, m);
    UnhandledMnemonic(bits, m);
  }

  lemma UnhandledMnemonic(bits: string, m: string)
    requires |bits| == 32 && IsBinary(bits)
    requires m != "addi" && m != "beq" && m != "bne" && m != "j"
    ensures DecodeIType(bits, m) == Ok(UnknownInstruction)
  {
    FieldsParse(bits);
  }

  /** A 32-character line whose opcode is neither in the table nor 000000. */
  lemma DecodeUnknownOpcode(line: string, bits: string, currentAddress: int)
    requires Strip(line) == bits && |bits| == 32
    requires bits[..6] !in Opcodes && bits[..6] != "000000"
    ensures DisassembleInstruction(line, currentAddress) == Ok(UnknownOpcode)
  {
  }

  /** Opcode 000000 with funct 001100: `syscall`. */
  lemma DecodeSyscall(line: string, bits: string, currentAddress: int)
    requires Strip(line) == bits && |bits| == 32 && IsBinary(bits) && bits[..6] == "000000" && bits[26..] == "001100"
    ensures DisassembleInstruction(line, currentAddress) == Ok("syscall\n")
  {
    RDispatch(line, bits, currentAddress);
    FunctEntries();
  }

  /** Opcode 000000 with funct 010000: `mfhi $rd`. */
  lemma DecodeMfhi(line: string, bits: string, currentAddress: int)
    requires Strip(line) == bits && |bits| == 32 && IsBinary(bits) && bits[..6] == "000000" && bits[26..] == "010000"
    ensures DisassembleInstruction(line, currentAddress) == Ok("mfhi $" + RegisterName(Rd(bits)).value + "\n")
  {
    RDispatch(line, bits, currentAddress);
    FunctEntries();
  }

  /** Opcode 000000 with funct 011010: `div $rt, $rs`. */
  lemma DecodeDiv(line: string, bits: string, currentAddress: int)
    requires Strip(line) == bits && |bits| == 32 && IsBinary(bits) && bits[..6] == "000000" && bits[26..] == "011010"
    ensures DisassembleInstruction(line, currentAddress) ==
        Ok("div $" + RegisterName(Rt(bits)).value + ", $" + RegisterName(Rs(bits)).value + "\n")
  {
    RDispatch(line, bits, currentAddress);
    FunctEntries();
  }

  /** Opcode 000000 with funct 001000: `jr $rs`. */
  lemma DecodeJr(line: string, bits: string, currentAddress: int)
    requires Strip(line) == bits && |bits| == 32 && IsBinary(bits) && bits[..6] == "000000" && bits[26..] == "001000"
    ensures DisassembleInstruction(line, currentAddress) == Ok("jr $" + RegisterName(Rs(bits)).value + "\n")
  {
    RDispatch(line, bits, currentAddress);
    FunctEntries();
  }

  /** Opcode 000000 with funct 100000 (add) or 101010 (slt): `<mnemonic> $rd, $rs, $rt`. */
  lemma DecodeThreeRegister(line: string, bits: string, currentAddress: int)
    requires Strip(line) == bits && |bits| == 32 && IsBinary(bits) && bits[..6] == "000000"
    requires bits[26..] == "100000" || bits[26..] == "101010"
    ensures DisassembleInstruction(line, currentAddress) ==
        Ok((if bits[26..] == "100000" then "add" else "slt") + " $" + RegisterName(Rd(bits)).value + ", $"
           + RegisterName(Rs(bits)).value + ", $" + RegisterName(Rt(bits)).value + "\n")
  {
    RDispatch(line, bits, currentAddress);
    FunctEntries();
  }

  /** Opcode 000000 with a funct outside the table: an unknown instruction. */
  lemma DecodeUnknownFunct(line: string, bits: string, currentAddress: int)
    requires Strip(line) == bits && |bits| == 32 && IsBinary(bits) && bits[..6] == "000000" && bits[26..] !in Functs
    ensures DisassembleInstruction(line, currentAddress) == Ok(UnknownInstruction)
  {
    RDispatch(line, bits, currentAddress);
    FunctEntries();
  }

  /** Opcode 000000 is handed to the R-type decoder, which reads all three register fields before
      it looks at the funct. */
  lemma RDispatch(line: string, bits: string, currentAddress: int)
    requires Strip(line) == bits && |bits| == 32 && IsBinary(bits) && bits[..6] == "000000"
    ensures DisassembleInstruction(line, currentAddress) == RTypeText(bits[26..], Rs(bits), Rt(bits), Rd(bits))
  {
    OpcodeTable();
    FunctEntries();
    FieldsParse(bits);
  }

  /** The funct table's six entries. */
  predicate FunctTable() {
    && "100000" in Functs && Functs["100000"] == "add"
    && "011010" in Functs && Functs["011010"] == "div"
    && "101010" in Functs && Functs["101010"] == "slt"
    && "010000" in Functs && Functs["010000"] == "mfhi"
    && "001000" in Functs && Functs["001000"] == "jr"
    && "001100" in Functs && Functs["001100"] == "syscall"
  }

  lemma FunctEntries()
    ensures FunctTable()
  {
  }

  /** A line holding a binary word raises only for a jump to an address with no label. */
  lemma DecodeRaises(line: string, bits: string, currentAddress: int)
    requires Strip(line) == bits && |bits| == 32 && IsBinary(bits)
    ensures DisassembleInstruction(line, currentAddress).Raise? <==> bits[..6] == "000010" && Target(bits) * 4 !in Labels
  {
    if bits[..6] == "000010" {
      DecodeJump(line, bits, currentAddress);
    } else {
      NonJumpNeverRaises(line, bits, currentAddress);
    }
  }

  /** Every binary word whose opcode is not j decodes without raising. */
  lemma NonJumpNeverRaises(line: string, bits: string, currentAddress: int)
    requires Strip(line) == bits && |bits| == 32 && IsBinary(bits) && bits[..6] != "000010"
    ensures DisassembleInstruction(line, currentAddress).Ok?
  {
    var op := bits[..6];
    if op == "001000" {
      AddiNeverRaises(line, bits, currentAddress);
    } else if op == "000100" || op == "000101" {
      BranchNeverRaises(line, bits, currentAddress);
    } else {
      OtherOpcodeNeverRaises(line, bits, currentAddress);
    }
  }

  lemma OtherOpcodeNeverRaises(line: string, bits: string, currentAddress: int)
    requires Strip(line) == bits && |bits| == 32 && IsBinary(bits)
    requires bits[..6] != "000010" && bits[..6] != "001000" && bits[..6] != "000100" && bits[..6] != "000101"
    ensures DisassembleInstruction(line, currentAddress).Ok?
  {
    if bits[..6] in Opcodes {
      OpcodeKeys(bits[..6]);
      DecodeUnhandled(line, bits, currentAddress);
    } else if bits[..6] == "000000" {
      RTypeNeverRaises(line, bits, currentAddress);
    } else {
      DecodeUnknownOpcode(line, bits, currentAddress);
    }
  }

  /** The opcode table has exactly nine keys. */
  lemma OpcodeKeys(op: string)
    requires op in Opcodes
    ensures op == "001000" || op == "100011" || op == "101011" || op == "000101" || op == "000100"
         || op == "000010" || op == "000011" || op == "001111" || op == "001101"
  {
  }

  lemma AddiNeverRaises(line: string, bits: string, currentAddress: int)
    requires Strip(line) == bits && |bits| == 32 && IsBinary(bits) && bits[..6] == "001000"
    ensures DisassembleInstruction(line, currentAddress).Ok?
  {
    DecodeAddi(line, bits, currentAddress);
  }

  lemma BranchNeverRaises(line: string, bits: string, currentAddress: int)
    requires Strip(line) == bits && |bits| == 32 && IsBinary(bits) && (bits[..6] == "000100" || bits[..6] == "000101")
    ensures DisassembleInstruction(line, currentAddress).Ok?
  {
    DecodeBranch(line, bits, currentAddress);
  }

  /** Every word with opcode 000000 decodes without raising. */
  lemma RTypeNeverRaises(line: string, bits: string, currentAddress: int)
    requires Strip(line) == bits && |bits| == 32 && IsBinary(bits) && bits[..6] == "000000"
    ensures DisassembleInstruction(line, currentAddress).Ok?
  {
    RDispatch(line, bits, currentAddress);
    FunctEntries();
    if bits[26..] in Functs {
      var m := Functs[bits[26..]];
      if m == "syscall" {
      } else if m == "mfhi" {
        assert RegisterName(Rd(bits)).Ok?;
      } else if m == "div" {
        assert RegisterName(Rt(bits)).Ok? && RegisterName(Rs(bits)).Ok?;
      } else if m == "jr" {
        assert RegisterName(Rs(bits)).Ok?;
      } else {
        assert RegisterName(Rd(bits)).Ok? && RegisterName(Rs(bits)).Ok? && RegisterName(Rt(bits)).Ok?;
      }
    }
  }

  /** The lines `main` writes before a word at `address`: its label, if it has one. */
  function LabelLines(address: int): (r: seq<string>)
    ensures |r| <= 1
    ensures r != [] <==> address in Labels
  {
    if address in Labels then [Labels[address] + ":\n"] else []
  }

  /** A decoder for one line at an address, such as `DisassembleInstruction`. */
  type Decoder = (string, int) -> Result<string>

  /** The address `main` has reached when it reads word `i`: the start address plus 4 for every
      earlier word whose decoding did not raise. */
  function AddressAt(decode: Decoder, words: seq<string>, i: nat): (a: int)
    requires i <= |words|
    ensures StartAddress <= a <= StartAddress + 4 * i && a % 4 == 0
  {
    if i == 0 then StartAddress
    else
      var a := AddressAt(decode, words, i - 1);
      if decode(words[i - 1], a).Ok? then a + 4 else a
  }

  /** The line written for a decoding result: the text, or the sentinel when it raised. */
  function Written(r: Result<string>): string {
    match r case Ok(text) => text case Raise(_) => Sentinel
  }

  /** What `main` writes for word `i`: its label line if its address has one, then the decoded
      text, or the sentinel when decoding raised. */
  function Entry(decode: Decoder, words: seq<string>, i: nat): (r: seq<string>)
    requires i < |words|
    ensures 1 <= |r| <= 2
  {
    var a := AddressAt(decode, words, i);
    LabelLines(a) + [Written(decode(words[i], a))]
  }

  /** Everything written for the first `n` words, in order. */
  function Output(decode: Decoder, words: seq<string>, n: nat): (r: seq<string>)
    requires n <= |words|
    ensures n <= |r| <= 2 * n
  {
    if n == 0 then [] else Output(decode, words, n - 1) + Entry(decode, words, n - 1)
  }

  /** The address reaches `StartAddress + 4 * i` exactly when none of the first `i` decodings raised. */
  lemma {:induction false} AddressesWithoutRaise(decode: Decoder, words: seq<string>, i: nat)
    requires i <= |words|
    ensures AddressAt(decode, words, i) == StartAddress + 4 * i <==>
            forall k :: 0 <= k < i ==> decode(words[k], AddressAt(decode, words, k)).Ok?
  {
    if i > 0 {
      AddressesWithoutRaise(decode, words, i - 1);
      var prev := AddressAt(decode, words, i - 1);
      var ok := decode(words[i - 1], prev).Ok?;
      assert AddressAt(decode, words, i) == if ok then prev + 4 else prev;
      if AddressAt(decode, words, i) == StartAddress + 4 * i {
        assert ok && prev == StartAddress + 4 * (i - 1);
        forall k | 0 <= k < i
          ensures decode(words[k], AddressAt(decode, words, k)).Ok?
        {
          if k == i - 1 {
            assert AddressAt(decode, words, k) == prev;
          }
        }
      } else {
        assert !(ok && prev == StartAddress + 4 * (i - 1));
      }
    }
  }

  /** The output only grows: what is written for the first `m` words stays a prefix. */
  lemma {:induction false} OutputExtends(decode: Decoder, words: seq<string>, m: nat, n: nat)
    requires m <= n <= |words|
    ensures |Output(decode, words, m)| <= |Output(decode, words, n)|
    ensures Output(decode, words, n)[..|Output(decode, words, m)|] == Output(decode, words, m)
  {
    if m < n {
      OutputExtends(decode, words, m, n - 1);
      var prev := Output(decode, words, n - 1);
      assert Output(decode, words, n) == prev + Entry(decode, words, n - 1);
      assert (prev + Entry(decode, words, n - 1))[..|prev|] == prev;
    }
  }

  /** For word `i`, written right after everything before it: the `Label:` line of its address when
      it has one, then its decoded text. */
  lemma LabelBeforeWord(decode: Decoder, words: seq<string>, i: nat)
    requires i < |words|
    ensures var a, p, out := AddressAt(decode, words, i), |Output(decode, words, i)|, Output(decode, words, i + 1);
      var text := Written(decode(words[i], a));
      if a in Labels then |out| == p + 2 && out[p] == Labels[a] + ":\n" && out[p + 1] == text
      else |out| == p + 1 && out[p] == text
  {
  }

  /** The loop of `main` (file handling left out), for any decoder: it writes the label of the
      current address, then the decoded word, and advances the address by 4 only when the decoding
      did not raise. */
  method Walk(decode: Decoder, words: seq<string>) returns (out: seq<string>)
    ensures out == Output(decode, words, |words|)
  {
    var currentAddress := StartAddress;
    out := [];
    for i := 0 to |words|
      invariant currentAddress == AddressAt(decode, words, i)
      invariant out == Output(decode, words, i)
    {
      ghost var before := out;
      if currentAddress in Labels {
        out := out + [Labels[currentAddress] + ":\n"];
      }
      var r := decode(words[i], currentAddress);
      if r.Ok? {
        out := out + [r.value];
        currentAddress := currentAddress + 4;
      } else {
        out := out + [Sentinel];
      }
      assert out == before + Entry(decode, words, i);
    }
  }

  /** `main` on the words of its input file. */
  method Disassemble(words: seq<string>) returns (out: seq<string>)
    ensures out == Output(DisassembleInstruction, words, |words|)
  {
    out := Walk(DisassembleInstruction, words);
  }
}
