/** The three 32-bit instruction layouts, as the assembler writes them and the disassembler slices them. */
module Formats {
  import opened Bits

  lemma Pow2Values()
    ensures Pow2(5) == 32 && Pow2(6) == 64 && Pow2(16) == 65536 && Pow2(26) == 67108864
  {
    assert Pow2(5) == 32;
    assert Pow2(6) == 64;
    assert Pow2(16) == 65536;
    assert Pow2(26) == 67108864;
  }

  /** The row of 32 `X` both programs write for a line they cannot translate or decode. */
  const Sentinel: string := "XXXXXXXXXXXXXXXXXXXXXXXXXXXXXXXX\n"

  predicate IsOpcode(op: string) {
    |op| == 6 && IsBinary(op)
  }

  /** I-type: opcode(6) rs(5) rt(5) immediate(16). Each field keeps its value modulo its width. */
  function IWord(opcode: string, rs: int, rt: int, imm: int): (w: string)
    requires |opcode| == 6
    ensures |w| == 32 && (IsBinary(opcode) ==> IsBinary(w))
    ensures w[..6] == opcode
    ensures w[6..11] == ToBits(rs, 5) && w[11..16] == ToBits(rt, 5) && w[16..] == ToBits(imm, 16)
  {
    var w := opcode + ToBits(rs, 5) + ToBits(rt, 5) + ToBits(imm, 16);
    assert w[6..11] == ToBits(rs, 5);
    assert w[11..16] == ToBits(rt, 5);
    assert w[16..] == ToBits(imm, 16);
    w
  }

  /** R-type: opcode 000000, rs(5) rt(5) rd(5), shamt 00000, funct(6). */
  function RWord(rs: int, rt: int, rd: int, funct: string): (w: string)
    requires |funct| == 6
    ensures |w| == 32 && (IsBinary(funct) ==> IsBinary(w))
    ensures w[..6] == "000000" && w[21..26] == "00000" && w[26..] == funct
    ensures w[6..11] == ToBits(rs, 5) && w[11..16] == ToBits(rt, 5) && w[16..21] == ToBits(rd, 5)
  {
    var w := "000000" + ToBits(rs, 5) + ToBits(rt, 5) + ToBits(rd, 5) + "00000" + funct;
    assert w[..6] == "000000";
    assert w[6..11] == ToBits(rs, 5);
    assert w[11..16] == ToBits(rt, 5);
    assert w[16..21] == ToBits(rd, 5);
    assert w[21..26] == "00000";
    assert w[26..] == funct;
    w
  }

  /** J-type: opcode(6) word address(26). */
  function JWord(opcode: string, target: int): (w: string)
    requires |opcode| == 6
    ensures |w| == 32 && (IsBinary(opcode) ==> IsBinary(w))
    ensures w[..6] == opcode && w[6..] == ToBits(target, 26)
  {
    var w := opcode + ToBits(target, 26);
    assert w[6..] == ToBits(target, 26);
    w
  }

  /** One 32-bit word followed by the newline the assembler ends it with. */
  predicate IsWordLine(s: string) {
    |s| == 33 && IsBinary(s[..32]) && s[32] == '\n'
  }

  lemma WordLine(w: string)
    requires |w| == 32 && IsBinary(w)
    ensures IsWordLine(w + "\n") && (w + "\n")[..32] == w
  {
    assert (w + "\n")[..32] == w;
  }

  /** A five-bit field that is all zeros is register 0. */
  lemma ZeroField()
    ensures ToBits(0, 5) == "00000"
  {
    FixedBinaryZero(5);
  }

}
