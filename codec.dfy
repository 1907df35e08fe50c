/** How the two tools fit together: their tables agree, and the words the assembler writes decode
    back to the instruction they came from. */
module Codec {
  import opened Results
  import opened PyText
  import opened Numerals
  import opened Bits
  import opened Formats
  import A = Assembler
  import D = Disassembler

  /** A register name as the decoder writes it: lower-case letters and digits, starting with a letter. */
  predicate IsRegisterName(n: string) {
    n != [] && 'a' <= n[0] <= 'z' && forall k :: 0 <= k < |n| ==> ('a' <= n[k] <= 'z' || IsAsciiDigit(n[k]))
  }

  /** Register `i` has a decode-side name, a lower-case word that the encode-side table maps back to `i`. */
  predicate RegisterAgrees(i: int) {
    && i in D.RegisterMap && IsRegisterName(D.RegisterMap[i])
    && D.RegisterMap[i] in A.RegisterMap && A.RegisterMap[D.RegisterMap[i]] == i
  }

  /** The two register tables agree on every index. */
  lemma RegisterTablesAgree(i: int)
    requires 0 <= i <= 31
    ensures RegisterAgrees(i)
  {
    if i == 0 {
      RegisterZero(i);
    } else if i == 1 {
      RegisterAt(i);
    } else if i == 2 {
      RegisterV0(i);
    } else if i == 3 {
      RegisterV1(i);
    } else if i == 4 {
      RegisterA0(i);
    } else if i == 5 {
      RegisterA1(i);
    } else if i == 6 {
      RegisterA2(i);
    } else if i == 7 {
      RegisterA3(i);
    } else if i == 8 {
      RegisterT0(i);
    } else if i == 9 {
      RegisterT1(i);
    } else if i == 10 {
      RegisterT2(i);
    } else if i == 11 {
      RegisterT3(i);
    } else if i == 12 {
      RegisterT4(i);
    } else if i == 13 {
      RegisterT5(i);
    } else if i == 14 {
      RegisterT6(i);
    } else if i == 15 {
      RegisterT7(i);
    } else if i == 16 {
      RegisterS0(i);
    } else if i == 17 {
      RegisterS1(i);
    } else if i == 18 {
      RegisterS2(i);
    } else if i == 19 {
      RegisterS3(i);
    } else if i == 20 {
      RegisterS4(i);
    } else if i == 21 {
      RegisterS5(i);
    } else if i == 22 {
      RegisterS6(i);
    } else if i == 23 {
      RegisterS7(i);
    } else if i == 24 {
      RegisterT8(i);
    } else if i == 25 {
      RegisterT9(i);
    } else if i == 26 {
      RegisterK0(i);
    } else if i == 27 {
      RegisterK1(i);
    } else if i == 28 {
      RegisterGp(i);
    } else if i == 29 {
      RegisterSp(i);
    } else if i == 30 {
      RegisterS8(i);
    } else {
      RegisterRa(i);
    }
  }

  /* One lemma per register, each combining a lookup in the decoder's table with a lookup in the
     assembler's. */
  lemma RegisterZero(i: int) requires i == 0 ensures RegisterAgrees(i) { DecodesZero(); EncodesZero(); }
  lemma DecodesZero() ensures 0 in D.RegisterMap && D.RegisterMap[0] == "zero" && IsRegisterName("zero") { }
  lemma EncodesZero() ensures "zero" in A.RegisterMap && A.RegisterMap["zero"] == 0 { }
  lemma RegisterAt(i: int) requires i == 1 ensures RegisterAgrees(i) { DecodesAt(); EncodesAt(); }
  lemma DecodesAt() ensures 1 in D.RegisterMap && D.RegisterMap[1] == "at" && IsRegisterName("at") { }
  lemma EncodesAt() ensures "at" in A.RegisterMap && A.RegisterMap["at"] == 1 { }
  lemma RegisterV0(i: int) requires i == 2 ensures RegisterAgrees(i) { DecodesV0(); EncodesV0(); }
  lemma DecodesV0() ensures 2 in D.RegisterMap && D.RegisterMap[2] == "v0" && IsRegisterName("v0") { }
  lemma EncodesV0() ensures "v0" in A.RegisterMap && A.RegisterMap["v0"] == 2 { }
  lemma RegisterV1(i: int) requires i == 3 ensures RegisterAgrees(i) { DecodesV1(); EncodesV1(); }
  lemma DecodesV1() ensures 3 in D.RegisterMap && D.RegisterMap[3] == "v1" && IsRegisterName("v1") { }
  lemma EncodesV1() ensures "v1" in A.RegisterMap && A.RegisterMap["v1"] == 3 { }
  lemma RegisterA0(i: int) requires i == 4 ensures RegisterAgrees(i) { DecodesA0(); EncodesA0(); }
  lemma DecodesA0() ensures 4 in D.RegisterMap && D.RegisterMap[4] == "a0" && IsRegisterName("a0") { }
  lemma EncodesA0() ensures "a0" in A.RegisterMap && A.RegisterMap["a0"] == 4 { }
  lemma RegisterA1(i: int) requires i == 5 ensures RegisterAgrees(i) { DecodesA1(); EncodesA1(); }
  lemma DecodesA1() ensures 5 in D.RegisterMap && D.RegisterMap[5] == "a1" && IsRegisterName("a1") { }
  lemma EncodesA1() ensures "a1" in A.RegisterMap && A.RegisterMap["a1"] == 5 { }
  lemma RegisterA2(i: int) requires i == 6 ensures RegisterAgrees(i) { DecodesA2(); EncodesA2(); }
  lemma DecodesA2() ensures 6 in D.RegisterMap && D.RegisterMap[6] == "a2" && IsRegisterName("a2") { }
  lemma EncodesA2() ensures "a2" in A.RegisterMap && A.RegisterMap["a2"] == 6 { }
  lemma RegisterA3(i: int) requires i == 7 ensures RegisterAgrees(i) { DecodesA3(); EncodesA3(); }
  lemma DecodesA3() ensures 7 in D.RegisterMap && D.RegisterMap[7] == "a3" && IsRegisterName("a3") { }
  lemma EncodesA3() ensures "a3" in A.RegisterMap && A.RegisterMap["a3"] == 7 { }
  lemma RegisterT0(i: int) requires i == 8 ensures RegisterAgrees(i) { DecodesT0(); EncodesT0(); }
  lemma DecodesT0() ensures 8 in D.RegisterMap && D.RegisterMap[8] == "t0" && IsRegisterName("t0") { }
  lemma EncodesT0() ensures "t0" in A.RegisterMap && A.RegisterMap["t0"] == 8 { }
  lemma RegisterT1(i: int) requires i == 9 ensures RegisterAgrees(i) { DecodesT1(); EncodesT1(); }
  lemma DecodesT1() ensures 9 in D.RegisterMap && D.RegisterMap[9] == "t1" && IsRegisterName("t1") { }
  lemma EncodesT1() ensures "t1" in A.RegisterMap && A.RegisterMap["t1"] == 9 { }
  lemma RegisterT2(i: int) requires i == 10 ensures RegisterAgrees(i) { DecodesT2(); EncodesT2(); }
  lemma DecodesT2() ensures 10 in D.RegisterMap && D.RegisterMap[10] == "t2" && IsRegisterName("t2") { }
  lemma EncodesT2() ensures "t2" in A.RegisterMap && A.RegisterMap["t2"] == 10 { }
  lemma RegisterT3(i: int) requires i == 11 ensures RegisterAgrees(i) { DecodesT3(); EncodesT3(); }
  lemma DecodesT3() ensures 11 in D.RegisterMap && D.RegisterMap[11] == "t3" && IsRegisterName("t3") { }
  lemma EncodesT3() ensures "t3" in A.RegisterMap && A.RegisterMap["t3"] == 11 { }
  lemma RegisterT4(i: int) requires i == 12 ensures RegisterAgrees(i) { DecodesT4(); EncodesT4(); }
  lemma DecodesT4() ensures 12 in D.RegisterMap && D.RegisterMap[12] == "t4" && IsRegisterName("t4") { }
  lemma EncodesT4() ensures "t4" in A.RegisterMap && A.RegisterMap["t4"] == 12 { }
  lemma RegisterT5(i: int) requires i == 13 ensures RegisterAgrees(i) { DecodesT5(); EncodesT5(); }
  lemma DecodesT5() ensures 13 in D.RegisterMap && D.RegisterMap[13] == "t5" && IsRegisterName("t5") { }
  lemma EncodesT5() ensures "t5" in A.RegisterMap && A.RegisterMap["t5"] == 13 { }
  lemma RegisterT6(i: int) requires i == 14 ensures RegisterAgrees(i) { DecodesT6(); EncodesT6(); }
  lemma DecodesT6() ensures 14 in D.RegisterMap && D.RegisterMap[14] == "t6" && IsRegisterName("t6") { }
  lemma EncodesT6() ensures "t6" in A.RegisterMap && A.RegisterMap["t6"] == 14 { }
  lemma RegisterT7(i: int) requires i == 15 ensures RegisterAgrees(i) { DecodesT7(); EncodesT7(); }
  lemma DecodesT7() ensures 15 in D.RegisterMap && D.RegisterMap[15] == "t7" && IsRegisterName("t7") { }
  lemma EncodesT7() ensures "t7" in A.RegisterMap && A.RegisterMap["t7"] == 15 { }
  lemma RegisterS0(i: int) requires i == 16 ensures RegisterAgrees(i) { DecodesS0(); EncodesS0(); }
  lemma DecodesS0() ensures 16 in D.RegisterMap && D.RegisterMap[16] == "s0" && IsRegisterName("s0") { }
  lemma EncodesS0() ensures "s0" in A.RegisterMap && A.RegisterMap["s0"] == 16 { }
  lemma RegisterS1(i: int) requires i == 17 ensures RegisterAgrees(i) { DecodesS1(); EncodesS1(); }
  lemma DecodesS1() ensures 17 in D.RegisterMap && D.RegisterMap[17] == "s1" && IsRegisterName("s1") { }
  lemma EncodesS1() ensures "s1" in A.RegisterMap && A.RegisterMap["s1"] == 17 { }
  lemma RegisterS2(i: int) requires i == 18 ensures RegisterAgrees(i) { DecodesS2(); EncodesS2(); }
  lemma DecodesS2() ensures 18 in D.RegisterMap && D.RegisterMap[18] == "s2" && IsRegisterName("s2") { }
  lemma EncodesS2() ensures "s2" in A.RegisterMap && A.RegisterMap["s2"] == 18 { }
  lemma RegisterS3(i: int) requires i == 19 ensures RegisterAgrees(i) { DecodesS3(); EncodesS3(); }
  lemma DecodesS3() ensures 19 in D.RegisterMap && D.RegisterMap[19] == "s3" && IsRegisterName("s3") { }
  lemma EncodesS3() ensures "s3" in A.RegisterMap && A.RegisterMap["s3"] == 19 { }
  lemma RegisterS4(i: int) requires i == 20 ensures RegisterAgrees(i) { DecodesS4(); EncodesS4(); }
  lemma DecodesS4() ensures 20 in D.RegisterMap && D.RegisterMap[20] == "s4" && IsRegisterName("s4") { }
  lemma EncodesS4() ensures "s4" in A.RegisterMap && A.RegisterMap["s4"] == 20 { }
  lemma RegisterS5(i: int) requires i == 21 ensures RegisterAgrees(i) { DecodesS5(); EncodesS5(); }
  lemma DecodesS5() ensures 21 in D.RegisterMap && D.RegisterMap[21] == "s5" && IsRegisterName("s5") { }
  lemma EncodesS5() ensures "s5" in A.RegisterMap && A.RegisterMap["s5"] == 21 { }
  lemma RegisterS6(i: int) requires i == 22 ensures RegisterAgrees(i) { DecodesS6(); EncodesS6(); }
  lemma DecodesS6() ensures 22 in D.RegisterMap && D.RegisterMap[22] == "s6" && IsRegisterName("s6") { }
  lemma EncodesS6() ensures "s6" in A.RegisterMap && A.RegisterMap["s6"] == 22 { }
  lemma RegisterS7(i: int) requires i == 23 ensures RegisterAgrees(i) { DecodesS7(); EncodesS7(); }
  lemma DecodesS7() ensures 23 in D.RegisterMap && D.RegisterMap[23] == "s7" && IsRegisterName("s7") { }
  lemma EncodesS7() ensures "s7" in A.RegisterMap && A.RegisterMap["s7"] == 23 { }
  lemma RegisterT8(i: int) requires i == 24 ensures RegisterAgrees(i) { DecodesT8(); EncodesT8(); }
  lemma DecodesT8() ensures 24 in D.RegisterMap && D.RegisterMap[24] == "t8" && IsRegisterName("t8") { }
  lemma EncodesT8() ensures "t8" in A.RegisterMap && A.RegisterMap["t8"] == 24 { }
  lemma RegisterT9(i: int) requires i == 25 ensures RegisterAgrees(i) { DecodesT9(); EncodesT9(); }
  lemma DecodesT9() ensures 25 in D.RegisterMap && D.RegisterMap[25] == "t9" && IsRegisterName("t9") { }
  lemma EncodesT9() ensures "t9" in A.RegisterMap && A.RegisterMap["t9"] == 25 { }
  lemma RegisterK0(i: int) requires i == 26 ensures RegisterAgrees(i) { DecodesK0(); EncodesK0(); }
  lemma DecodesK0() ensures 26 in D.RegisterMap && D.RegisterMap[26] == "k0" && IsRegisterName("k0") { }
  lemma EncodesK0() ensures "k0" in A.RegisterMap && A.RegisterMap["k0"] == 26 { }
  lemma RegisterK1(i: int) requires i == 27 ensures RegisterAgrees(i) { DecodesK1(); EncodesK1(); }
  lemma DecodesK1() ensures 27 in D.RegisterMap && D.RegisterMap[27] == "k1" && IsRegisterName("k1") { }
  lemma EncodesK1() ensures "k1" in A.RegisterMap && A.RegisterMap["k1"] == 27 { }
  lemma RegisterGp(i: int) requires i == 28 ensures RegisterAgrees(i) { DecodesGp(); EncodesGp(); }
  lemma DecodesGp() ensures 28 in D.RegisterMap && D.RegisterMap[28] == "gp" && IsRegisterName("gp") { }
  lemma EncodesGp() ensures "gp" in A.RegisterMap && A.RegisterMap["gp"] == 28 { }
  lemma RegisterSp(i: int) requires i == 29 ensures RegisterAgrees(i) { DecodesSp(); EncodesSp(); }
  lemma DecodesSp() ensures 29 in D.RegisterMap && D.RegisterMap[29] == "sp" && IsRegisterName("sp") { }
  lemma EncodesSp() ensures "sp" in A.RegisterMap && A.RegisterMap["sp"] == 29 { }
  lemma RegisterS8(i: int) requires i == 30 ensures RegisterAgrees(i) { DecodesS8(); EncodesS8(); }
  lemma DecodesS8() ensures 30 in D.RegisterMap && D.RegisterMap[30] == "s8" && IsRegisterName("s8") { }
  lemma EncodesS8() ensures "s8" in A.RegisterMap && A.RegisterMap["s8"] == 30 { }
  lemma RegisterRa(i: int) requires i == 31 ensures RegisterAgrees(i) { DecodesRa(); EncodesRa(); }
  lemma DecodesRa() ensures 31 in D.RegisterMap && D.RegisterMap[31] == "ra" && IsRegisterName("ra") { }
  lemma EncodesRa() ensures "ra" in A.RegisterMap && A.RegisterMap["ra"] == 31 { }

  /** Register 30 is written `s8`, and the assembler reads both `$fp` and `$s8`, in any letter
      case, as register 30. */
  lemma FramePointerAlias(name: string)
    requires Lower(name) == "fp" || Lower(name) == "s8"
    ensures D.RegisterMap[30] == "s8" && A.ParseRegister("$" + name) == Ok(30)
  {
    DecodesS8();
    EncodesS8();
    EncodesFp();
    A.NamedRegister(name);
  }

  lemma EncodesFp() ensures "fp" in A.RegisterMap && A.RegisterMap["fp"] == 30 { }

  /** The name the decoder writes for register `i`. */
  function Name(i: int): string
    requires 0 <= i <= 31
  {
    RegisterTablesAgree(i);
    D.RegisterMap[i]
  }

  /** The operand `$name` for register `i`, as the decoder writes it. */
  function RegisterToken(i: int): string
    requires 0 <= i <= 31
  {
    "$" + Name(i)
  }

  /** The assembler reads every name the disassembler writes back as the same register. */
  lemma RegisterNameRoundTrip(i: int)
    requires 0 <= i <= 31
    ensures A.ParseRegister(RegisterToken(i)) == Ok(i)
  {
    RegisterTablesAgree(i);
    var n := Name(i);
    assert RegisterToken(i)[1..] == n;
    LowerOfLower(n);
    assert !IsAsciiDigit(n[0]);
  }

  /** The two label tables are inverse to each other. */
  lemma LabelTablesInverse()
    ensures forall name :: name in A.Labels ==> A.Labels[name] in D.Labels && D.Labels[A.Labels[name]] == name
    ensures forall addr :: addr in D.Labels ==> D.Labels[addr] in A.Labels && A.Labels[D.Labels[addr]] == addr
  {
  }

  /** An I-type word read back field by field by the decoder. */
  lemma IFields(opcode: string, rs: int, rt: int, imm: int)
    requires |opcode| == 6 && 0 <= rs <= 31 && 0 <= rt <= 31
    ensures var w := IWord(opcode, rs, rt, imm);
      D.Rs(w) == rs && D.Rt(w) == rt && D.Imm(w) == imm % 65536
  {
    Pow2Values();
    FieldValue(rs, 5);
    FieldValue(rt, 5);
    var w := IWord(opcode, rs, rt, imm);
    assert w[6..11] == ToBits(rs, 5) && w[11..16] == ToBits(rt, 5) && w[16..] == ToBits(imm, 16);
  }

  /** A word line is read as its 32 bits. */
  lemma WordText(w: string)
    requires |w| == 32 && IsBinary(w)
    ensures Strip(w + "\n") == w && D.IsWordText(w + "\n")
  {
    D.StripWord(w);
  }

  /** The decoder reads an addi word as `addi $rt, $rs, imm`, or as `li $rt,imm` when rs is
      $zero, for every immediate that fits in 16 signed bits. */
  lemma AddiWordDecodes(rt: int, rs: int, imm: int, decodeAt: int)
    requires 0 <= rt <= 31 && 0 <= rs <= 31 && -32768 <= imm <= 32767
    ensures D.DisassembleInstruction(IWord("001000", rs, rt, imm) + "\n", decodeAt)
              == if rs == 0 then Ok("li $" + Name(rt) + "," + IntToDecimal(imm) + "\n")
                 else Ok("addi $" + Name(rt) + ", $" + Name(rs) + ", " + IntToDecimal(imm) + "\n")
  {
    var w := IWord("001000", rs, rt, imm);
    IFields("001000", rs, rt, imm);
    WordText(w);
    D.SignExtendMasked(imm);
    D.DecodeAddi(w + "\n", w, decodeAt);
  }

  /** `addi $rt, $rs, imm` encoded at one address and decoded at any other comes back with the
      decoder's register names, for every immediate that fits in 16 signed bits; with rs zero it
      comes back as `li`. */
  lemma AddiRoundTrip(tokens: seq<string>, encodeAt: int, decodeAt: int, rt: int, rs: int, imm: int)
    requires |tokens| == 4 && Lower(tokens[0]) == "addi"
    requires A.ParseRegister(tokens[1]) == Ok(rt) && A.ParseRegister(tokens[2]) == Ok(rs)
    requires ToInt(tokens[3], 0) == Ok(imm) && -32768 <= imm <= 32767
    ensures var w := IWord("001000", rs, rt, imm);
      && A.TranslateTokens(tokens, encodeAt) == Ok(w + "\n")
      && D.DisassembleInstruction(w + "\n", decodeAt)
           == if rs == 0 then Ok("li $" + Name(rt) + "," + IntToDecimal(imm) + "\n")
              else Ok("addi $" + Name(rt) + ", $" + Name(rs) + ", " + IntToDecimal(imm) + "\n")
  {
    A.EncodeAddi(tokens, encodeAt, rt, rs, imm);
    AddiWordDecodes(rt, rs, imm, decodeAt);
  }

  /** The decoder reads an addi word with rs zero as `li $rt,imm`. */
  lemma LiWordDecodes(rt: int, imm: int, decodeAt: int)
    requires 0 <= rt <= 31 && -32768 <= imm <= 32767
    ensures D.DisassembleInstruction(IWord("001000", 0, rt, imm) + "\n", decodeAt)
              == Ok("li $" + Name(rt) + "," + IntToDecimal(imm) + "\n")
  {
    AddiWordDecodes(rt, 0, imm, decodeAt);
  }

  /** `li $rt, imm` comes back as `li $rt,imm`, for every immediate that fits in 16 signed bits. */
  lemma LiRoundTrip(tokens: seq<string>, encodeAt: int, decodeAt: int, rt: int, imm: int)
    requires |tokens| == 3 && Lower(tokens[0]) == "li"
    requires A.ParseRegister(tokens[1]) == Ok(rt) && ToInt(tokens[2], 0) == Ok(imm) && -32768 <= imm <= 32767
    ensures var w := IWord("001000", 0, rt, imm);
      && A.TranslateTokens(tokens, encodeAt) == Ok(w + "\n")
      && D.DisassembleInstruction(w + "\n", decodeAt) == Ok("li $" + Name(rt) + "," + IntToDecimal(imm) + "\n")
  {
    A.EncodeLi(tokens, encodeAt, rt, imm);
    LiWordDecodes(rt, imm, decodeAt);
  }

  /** The operands the decoder writes for `addi` read back as the same registers and immediate: the
      decoded line assembles to the word it came from. */
  lemma AddiReassembles(tokens: seq<string>, encodeAt: int, rt: int, rs: int, imm: int)
    requires 0 <= rt <= 31 && 0 <= rs <= 31
    requires |tokens| == 4 && Lower(tokens[0]) == "addi"
    requires tokens[1] == RegisterToken(rt) && tokens[2] == RegisterToken(rs) && tokens[3] == IntToDecimal(imm)
    ensures A.TranslateTokens(tokens, encodeAt) == Ok(IWord("001000", rs, rt, imm) + "\n")
  {
    RegisterNameRoundTrip(rt);
    RegisterNameRoundTrip(rs);
    IntToDecimalRoundTrip(imm);
    A.EncodeAddi(tokens, encodeAt, rt, rs, imm);
  }

  /** The decoder reads a beq or bne word as its registers and its signed offset. */
  lemma BranchWordDecodes(op: string, m: string, rs: int, rt: int, offset: int, decodeAt: int)
    requires (op == "000100" && m == "beq") || (op == "000101" && m == "bne")
    requires 0 <= rs <= 31 && 0 <= rt <= 31 && -32768 <= offset <= 32767
    ensures D.DisassembleInstruction(IWord(op, rs, rt, offset) + "\n", decodeAt)
              == Ok(m + " $" + Name(rs) + ", $" + Name(rt) + ", offset " + IntToDecimal(offset) + "\n")
  {
    var w := IWord(op, rs, rt, offset);
    IFields(op, rs, rt, offset);
    WordText(w);
    D.SignExtendMasked(offset);
    D.DecodeBranch(w + "\n", w, decodeAt);
  }

  /** `beq`/`bne $rs, $rt, Label` encoded and decoded at the same address renders the offset the
      assembler computed, whenever that offset fits in 16 signed bits. */
  lemma BranchRoundTrip(tokens: seq<string>, addr: int, rs: int, rt: int)
    requires |tokens| == 4 && (Lower(tokens[0]) == "beq" || Lower(tokens[0]) == "bne")
    requires A.ParseRegister(tokens[1]) == Ok(rs) && A.ParseRegister(tokens[2]) == Ok(rt) && tokens[3] in A.Labels
    requires -32768 <= A.ComputeBranchOffset(A.Labels[tokens[3]], addr) <= 32767
    ensures var offset := A.ComputeBranchOffset(A.Labels[tokens[3]], addr);
      var w := IWord(if Lower(tokens[0]) == "beq" then "000100" else "000101", rs, rt, offset);
      && A.TranslateTokens(tokens, addr) == Ok(w + "\n")
      && D.DisassembleInstruction(w + "\n", addr)
           == Ok(Lower(tokens[0]) + " $" + Name(rs) + ", $" + Name(rt) + ", offset " + IntToDecimal(offset) + "\n")
  {
    var m := Lower(tokens[0]);
    var offset := A.ComputeBranchOffset(A.Labels[tokens[3]], addr);
    A.EncodeBranch(tokens, addr, rs, rt);
    BranchWordDecodes(if m == "beq" then "000100" else "000101", m, rs, rt, offset, addr);
  }

  /** Every label address is word-aligned and below 2^28, so its word address fits the 26-bit field. */
  lemma LabelsAligned()
    ensures forall name :: name in A.Labels ==> A.Labels[name] % 4 == 0 && 0 <= A.Labels[name] < 268435456
  {
  }

  /** From a word-aligned address, the target the decoder recomputes from the offset the assembler
      wrote is the label itself. */
  lemma BranchTargetIsLabel(name: string, addr: int)
    requires name in A.Labels && addr % 4 == 0
    ensures D.BranchTarget(addr, A.ComputeBranchOffset(A.Labels[name], addr)) == A.Labels[name]
  {
    LabelsAligned();
  }

  /** A J-type word read back by the decoder: the target field, for a target that fits in 26 bits. */
  lemma JFields(opcode: string, target: int)
    requires |opcode| == 6 && 0 <= target < 67108864
    ensures D.Target(JWord(opcode, target)) == target
  {
    Pow2Values();
    FieldValue(target, 26);
    var w := JWord(opcode, target);
    assert w[6..] == ToBits(target, 26);
  }

  /** A label's address is word-aligned, fits the 26-bit word-address field, and the decoder's
      table names it by the same label. */
  lemma LabelEntry(name: string)
    requires name in A.Labels
    ensures var addr := A.Labels[name];
      && addr % 4 == 0 && 0 <= addr < 268435456
      && addr in D.Labels && D.Labels[addr] == name
  {
    LabelsAligned();
    LabelTablesInverse();
  }

  /** The decoder reads the j word for a label as that label's name. */
  lemma JumpWordDecodes(name: string, decodeAt: int)
    requires name in A.Labels
    ensures D.DisassembleInstruction(JWord("000010", A.ComputeJump(A.Labels[name])) + "\n", decodeAt) == Ok("j " + name + "\n")
  {
    LabelEntry(name);
    JumpTargetDecodes(A.Labels[name], name, decodeAt);
  }

  /** The j word for a word-aligned address below 2^28 that the decoder's table names. */
  lemma JumpTargetDecodes(addr: int, name: string, decodeAt: int)
    requires addr % 4 == 0 && 0 <= addr < 268435456 && addr in D.Labels && D.Labels[addr] == name
    ensures D.DisassembleInstruction(JWord("000010", A.ComputeJump(addr)) + "\n", decodeAt) == Ok("j " + name + "\n")
  {
    var w := JWord("000010", A.ComputeJump(addr));
    JumpWordTarget(addr);
    WordText(w);
    D.DecodeJump(w + "\n", w, decodeAt);
  }

  /** The j word for a word-aligned address below 2^28 carries that address, divided by four. */
  lemma JumpWordTarget(addr: int)
    requires addr % 4 == 0 && 0 <= addr < 268435456
    ensures var w := JWord("000010", A.ComputeJump(addr));
      |w| == 32 && IsBinary(w) && w[..6] == "000010" && D.Target(w) * 4 == addr
  {
    var target := A.ComputeJump(addr);
    assert target * 4 == addr && 0 <= target < 67108864;
    JFields("000010", target);
  }

  /** `j Label` comes back as `j Label`, wherever it is encoded and decoded. */
  lemma JumpRoundTrip(tokens: seq<string>, encodeAt: int, decodeAt: int)
    requires |tokens| == 2 && Lower(tokens[0]) == "j" && tokens[1] in A.Labels
    ensures var w := JWord("000010", A.ComputeJump(A.Labels[tokens[1]]));
      && A.TranslateTokens(tokens, encodeAt) == Ok(w + "\n")
      && D.DisassembleInstruction(w + "\n", decodeAt) == Ok("j " + tokens[1] + "\n")
  {
    A.EncodeJump(tokens, encodeAt);
    JumpWordDecodes(tokens[1], decodeAt);
  }

  /** `jal Label` assembles, but the decoder has no case for its opcode. */
  lemma JalDecodesUnknown(tokens: seq<string>, encodeAt: int, decodeAt: int)
    requires |tokens| == 2 && Lower(tokens[0]) == "jal" && tokens[1] in A.Labels
    ensures var w := JWord("000011", A.ComputeJump(A.Labels[tokens[1]]));
      && A.TranslateTokens(tokens, encodeAt) == Ok(w + "\n")
      && D.DisassembleInstruction(w + "\n", decodeAt) == Ok(D.UnknownInstruction)
  {
    A.EncodeJump(tokens, encodeAt);
    var w := JWord("000011", A.ComputeJump(A.Labels[tokens[1]]));
    WordText(w);
    D.DecodeUnhandled(w + "\n", w, decodeAt);
  }

  /** `lw`/`sw $rt, offset($base)` assembles, but the decoder has no case for either opcode. */
  lemma MemoryDecodesUnknown(tokens: seq<string>, encodeAt: int, decodeAt: int, rt: int, base: int, offset: int)
    requires |tokens| == 3 && (Lower(tokens[0]) == "lw" || Lower(tokens[0]) == "sw")
    requires A.ParseMemOperand(tokens[2]) == Ok((offset, base)) && A.ParseRegister(tokens[1]) == Ok(rt)
    ensures var w := IWord(if Lower(tokens[0]) == "lw" then "100011" else "101011", base, rt, offset);
      && A.TranslateTokens(tokens, encodeAt) == Ok(w + "\n")
      && D.DisassembleInstruction(w + "\n", decodeAt) == Ok(D.UnknownInstruction)
  {
    A.EncodeMemory(tokens, encodeAt, rt, base, offset);
    UnhandledWordDecodes(if Lower(tokens[0]) == "lw" then "100011" else "101011", base, rt, offset, decodeAt);
  }

  /** The decoder has no case for an I-type word with the lw, sw, lui or ori opcode. */
  lemma UnhandledWordDecodes(op: string, rs: int, rt: int, imm: int, decodeAt: int)
    requires op == "100011" || op == "101011" || op == "001111" || op == "001101"
    ensures D.DisassembleInstruction(IWord(op, rs, rt, imm) + "\n", decodeAt) == Ok(D.UnknownInstruction)
  {
    var w := IWord(op, rs, rt, imm);
    WordText(w);
    D.DecodeUnhandled(w + "\n", w, decodeAt);
  }

  /** The two lines `la` writes for an address below 2^32 both decode as unknown instructions. */
  lemma LaWordsDecode(rt: int, addr: int, decodeAt: int)
    requires 0 <= addr < 4294967296
    ensures var s := A.LaLines(rt, addr);
      && D.DisassembleInstruction(s[..33], decodeAt) == Ok(D.UnknownInstruction)
      && D.DisassembleInstruction(s[33..], decodeAt) == Ok(D.UnknownInstruction)
  {
    LaLineWords(rt, addr);
    UnhandledWordDecodes("001111", 0, rt, addr / 65536, decodeAt);
    UnhandledWordDecodes("001101", rt, rt, addr % 65536, decodeAt);
  }

  /** The first line `la` writes is the lui word, the second the ori word. */
  lemma LaLineWords(rt: int, addr: int)
    requires 0 <= addr < 4294967296
    ensures var s := A.LaLines(rt, addr);
      && s[..33] == IWord("001111", 0, rt, addr / 65536) + "\n"
      && s[33..] == IWord("001101", rt, rt, addr % 65536) + "\n"
  {
    A.LaHalves(rt, addr);
    TwoLines(A.LaLines(rt, addr), IWord("001111", 0, rt, addr / 65536), IWord("001101", rt, rt, addr % 65536));
  }

  /** Two 32-character lines, each ended by a newline, split at the first newline. */
  lemma TwoLines(s: string, first: string, second: string)
    requires |first| == 32 && s == first + "\n" + second + "\n"
    ensures s[..33] == first + "\n" && s[33..] == second + "\n"
  {
  }

  /** `la $rt, Label` assembles to a lui line and an ori line, and the decoder has no case for either. */
  lemma LaDecodesUnknown(tokens: seq<string>, encodeAt: int, decodeAt: int, rt: int)
    requires |tokens| == 3 && Lower(tokens[0]) == "la" && A.ParseRegister(tokens[1]) == Ok(rt) && tokens[2] in A.Labels
    ensures var s := A.LaLines(rt, A.Labels[tokens[2]]);
      && A.TranslateTokens(tokens, encodeAt) == Ok(s)
      && D.DisassembleInstruction(s[..33], decodeAt) == Ok(D.UnknownInstruction)
      && D.DisassembleInstruction(s[33..], decodeAt) == Ok(D.UnknownInstruction)
  {
    A.EncodeLa(tokens, encodeAt, rt);
    LabelEntry(tokens[2]);
    LaWordsDecode(rt, A.Labels[tokens[2]], decodeAt);
  }

  /** An R-type word read back field by field by the decoder. */
  lemma RFields(rs: int, rt: int, rd: int, funct: string)
    requires |funct| == 6 && 0 <= rs <= 31 && 0 <= rt <= 31 && 0 <= rd <= 31
    ensures var w := RWord(rs, rt, rd, funct);
      D.Rs(w) == rs && D.Rt(w) == rt && D.Rd(w) == rd
  {
    Pow2Values();
    FieldValue(rs, 5);
    FieldValue(rt, 5);
    FieldValue(rd, 5);
    var w := RWord(rs, rt, rd, funct);
    assert w[6..11] == ToBits(rs, 5) && w[11..16] == ToBits(rt, 5) && w[16..21] == ToBits(rd, 5);
  }

  /** The decoder reads an add or slt word as `<mnemonic> $rd, $rs, $rt`. */
  lemma ThreeRegisterWordDecodes(funct: string, m: string, rd: int, rs: int, rt: int, decodeAt: int)
    requires (funct == "100000" && m == "add") || (funct == "101010" && m == "slt")
    requires 0 <= rd <= 31 && 0 <= rs <= 31 && 0 <= rt <= 31
    ensures D.DisassembleInstruction(RWord(rs, rt, rd, funct) + "\n", decodeAt)
              == Ok(m + " $" + Name(rd) + ", $" + Name(rs) + ", $" + Name(rt) + "\n")
  {
    var w := RWord(rs, rt, rd, funct);
    RFields(rs, rt, rd, funct);
    WordText(w);
    D.DecodeThreeRegister(w + "\n", w, decodeAt);
  }

  /** `add`/`slt $rd, $rs, $rt` comes back as itself with the decoder's register names. */
  lemma ThreeRegisterRoundTrip(tokens: seq<string>, encodeAt: int, decodeAt: int, rd: int, rs: int, rt: int)
    requires |tokens| == 4 && (Lower(tokens[0]) == "add" || Lower(tokens[0]) == "slt")
    requires A.ParseRegister(tokens[1]) == Ok(rd) && A.ParseRegister(tokens[2]) == Ok(rs) && A.ParseRegister(tokens[3]) == Ok(rt)
    ensures var w := RWord(rs, rt, rd, if Lower(tokens[0]) == "add" then "100000" else "101010");
      && A.TranslateTokens(tokens, encodeAt) == Ok(w + "\n")
      && D.DisassembleInstruction(w + "\n", decodeAt) == Ok(Lower(tokens[0]) + " $" + Name(rd) + ", $" + Name(rs) + ", $" + Name(rt) + "\n")
  {
    var m := Lower(tokens[0]);
    A.EncodeThreeRegister(tokens, encodeAt, rd, rs, rt);
    ThreeRegisterWordDecodes(if m == "add" then "100000" else "101010", m, rd, rs, rt, decodeAt);
  }

  /** The decoder reads a div word as `div $rt, $rs`. */
  lemma DivWordDecodes(rt: int, rs: int, decodeAt: int)
    requires 0 <= rt <= 31 && 0 <= rs <= 31
    ensures D.DisassembleInstruction(RWord(rs, rt, 0, "011010") + "\n", decodeAt) == Ok("div $" + Name(rt) + ", $" + Name(rs) + "\n")
  {
    var w := RWord(rs, rt, 0, "011010");
    RFields(rs, rt, 0, "011010");
    WordText(w);
    D.DecodeDiv(w + "\n", w, decodeAt);
  }

  /** `div $rt, $rs` comes back as itself: the decoder writes rt first, as the assembler reads it. */
  lemma DivRoundTrip(tokens: seq<string>, encodeAt: int, decodeAt: int, rt: int, rs: int)
    requires |tokens| == 3 && Lower(tokens[0]) == "div"
    requires A.ParseRegister(tokens[1]) == Ok(rt) && A.ParseRegister(tokens[2]) == Ok(rs)
    ensures var w := RWord(rs, rt, 0, "011010");
      && A.TranslateTokens(tokens, encodeAt) == Ok(w + "\n")
      && D.DisassembleInstruction(w + "\n", decodeAt) == Ok("div $" + Name(rt) + ", $" + Name(rs) + "\n")
  {
    A.EncodeDiv(tokens, encodeAt, rt, rs);
    DivWordDecodes(rt, rs, decodeAt);
  }

  /** The decoder reads an mfhi word as `mfhi $rd`. */
  lemma MfhiWordDecodes(rd: int, decodeAt: int)
    requires 0 <= rd <= 31
    ensures D.DisassembleInstruction(RWord(0, 0, rd, "010000") + "\n", decodeAt) == Ok("mfhi $" + Name(rd) + "\n")
  {
    var w := RWord(0, 0, rd, "010000");
    RFields(0, 0, rd, "010000");
    WordText(w);
    D.DecodeMfhi(w + "\n", w, decodeAt);
  }

  /** `mfhi $rd` comes back as itself. */
  lemma MfhiRoundTrip(tokens: seq<string>, encodeAt: int, decodeAt: int, rd: int)
    requires |tokens| == 2 && Lower(tokens[0]) == "mfhi" && A.ParseRegister(tokens[1]) == Ok(rd)
    ensures var w := RWord(0, 0, rd, "010000");
      && A.TranslateTokens(tokens, encodeAt) == Ok(w + "\n")
      && D.DisassembleInstruction(w + "\n", decodeAt) == Ok("mfhi $" + Name(rd) + "\n")
  {
    A.EncodeMfhi(tokens, encodeAt, rd);
    MfhiWordDecodes(rd, decodeAt);
  }

  /** The decoder reads a jr word as `jr $rs`. */
  lemma JrWordDecodes(rs: int, decodeAt: int)
    requires 0 <= rs <= 31
    ensures D.DisassembleInstruction(RWord(rs, 0, 0, "001000") + "\n", decodeAt) == Ok("jr $" + Name(rs) + "\n")
  {
    var w := RWord(rs, 0, 0, "001000");
    RFields(rs, 0, 0, "001000");
    WordText(w);
    D.DecodeJr(w + "\n", w, decodeAt);
  }

  /** `jr $rs` comes back as itself. */
  lemma JrRoundTrip(tokens: seq<string>, encodeAt: int, decodeAt: int, rs: int)
    requires |tokens| == 2 && Lower(tokens[0]) == "jr" && A.ParseRegister(tokens[1]) == Ok(rs)
    ensures var w := RWord(rs, 0, 0, "001000");
      && A.TranslateTokens(tokens, encodeAt) == Ok(w + "\n")
      && D.DisassembleInstruction(w + "\n", decodeAt) == Ok("jr $" + Name(rs) + "\n")
  {
    A.EncodeJr(tokens, encodeAt, rs);
    JrWordDecodes(rs, decodeAt);
  }

  /** `syscall` comes back as itself. */
  lemma SyscallRoundTrip(tokens: seq<string>, encodeAt: int, decodeAt: int)
    requires |tokens| == 1 && Lower(tokens[0]) == "syscall"
    ensures var w := RWord(0, 0, 0, "001100");
      && A.TranslateTokens(tokens, encodeAt) == Ok(w + "\n")
      && D.DisassembleInstruction(w + "\n", decodeAt) == Ok("syscall\n")
  {
    A.EncodeSyscall(tokens, encodeAt);
    var w := RWord(0, 0, 0, "001100");
    WordText(w);
    D.DecodeSyscall(w + "\n", w, decodeAt);
  }

  /** While no decoding has raised, the decoder's address for word `i` is the one the assembler gave
      line `i + 1`: both start at 4194304 and step by 4. */
  lemma AddressesAgree(words: seq<string>, i: nat)
    requires i < |words|
    requires forall k :: 0 <= k < i ==> D.DisassembleInstruction(words[k], D.AddressAt(D.DisassembleInstruction, words, k)).Ok?
    ensures D.AddressAt(D.DisassembleInstruction, words, i) == A.LineAddress(i + 1)
  {
    D.AddressesWithoutRaise(D.DisassembleInstruction, words, i);
  }
}
