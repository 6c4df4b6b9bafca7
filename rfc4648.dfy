/** Base 64 as section 4 of RFC 4648 defines it, written independently of
    the source's bit-string pipeline: every 24-bit input group (three bytes)
    becomes four characters by masking and shifting the bytes, and a final
    group of one or two bytes is filled with zero bits and '=' characters.
    The lemmas show the encoder computes exactly this. */
module Rfc4648 {
  import opened Arith
  import opened Sequences
  import opened Bits
  import opened BitStream
  import Base64

  /** Table 1 of RFC 4648: values 0-25 are 'A'-'Z', 26-51 'a'-'z',
      52-61 '0'-'9', then '+' and '/'. */
  function Table1(v: nat): (c: char)
    requires v < 64
  {
    if v < 26 then ('A' as int + v) as char
    else if v < 52 then ('a' as int + (v - 26)) as char
    else if v < 62 then ('0' as int + (v - 52)) as char
    else if v == 62 then '+'
    else '/'
  }

  /** The source's base64 alphabet constant is Table 1. */
  lemma AlphabetIsTable1(v: nat)
    requires v < 64
    ensures Base64.Alphabet[v] == Table1(v)
  {
  }

  /** One 24-bit input group, three bytes, as four characters: the high six
      bits of the first byte, then its two low bits with the next byte's four
      high bits, then that byte's four low bits with the third byte's two
      high bits, then the third byte's six low bits. */
  function Quantum(b0: JByte, b1: JByte, b2: JByte): (r: string)
    ensures |r| == 4
  {
    var u0, u1, u2 := Unsigned(b0), Unsigned(b1), Unsigned(b2);
    [Table1(u0 / 4), Table1((u0 % 4) * 16 + u1 / 16), Table1((u1 % 16) * 4 + u2 / 64), Table1(u2 % 64)]
  }

  /** A final group of one byte: its six high bits, then its two low bits
      filled with four zero bits, then two '=' characters. */
  function FinalOne(b0: JByte): (r: string)
    ensures |r| == 4 && r[2] == '=' && r[3] == '='
  {
    var u0 := Unsigned(b0);
    [Table1(u0 / 4), Table1((u0 % 4) * 16), '=', '=']
  }

  /** A final group of two bytes: three characters from their 16 bits filled
      with two zero bits, then one '=' character. */
  function FinalTwo(b0: JByte, b1: JByte): (r: string)
    ensures |r| == 4 && r[3] == '='
  {
    var u0, u1 := Unsigned(b0), Unsigned(b1);
    [Table1(u0 / 4), Table1((u0 % 4) * 16 + u1 / 16), Table1((u1 % 16) * 4), '=']
  }

  /** The padded encoding of section 4 of RFC 4648: four characters for
      every group of up to three bytes. */
  function Encode(bytes: seq<JByte>): (r: string)
    ensures |r| == 4 * ((|bytes| + 2) / 3)
    decreases |bytes|
  {
    if |bytes| == 0 then []
    else if |bytes| == 1 then FinalOne(bytes[0])
    else if |bytes| == 2 then FinalTwo(bytes[0], bytes[1])
    else
      GroupsStep(|bytes|);
      Quantum(bytes[0], bytes[1], bytes[2]) + Encode(bytes[3..])
  }

  /** Three more bytes make one more group. */
  lemma GroupsStep(n: nat)
    requires n >= 3
    ensures (n + 2) / 3 == (n - 3 + 2) / 3 + 1
  {
    DivModOf(n + 2, (n - 1) / 3 + 1, 3, (n - 1) % 3);
  }


  /** Three or more bytes: a whole group, then the encoding of the rest. */
  lemma EncodeStep(s: seq<JByte>)
    requires |s| >= 3
    ensures Encode(s) == Quantum(s[0], s[1], s[2]) + Encode(s[3..])
  {
  }

  /** The bitstream of one byte is its 8-bit numeral. */
  lemma OneBlock(c: seq<JByte>)
    requires |c| == 1
    ensures Bitstream(c) == BitsOf(Unsigned(c[0]), 8)
  {
    BitstreamSnoc(c);
    assert c[..0] == [];
  }

  /** The bitstream of two bytes is their 8-bit numerals, in order. */
  lemma TwoBlocks(c: seq<JByte>)
    requires |c| == 2
    ensures Bitstream(c) == BitsOf(Unsigned(c[0]), 8) + BitsOf(Unsigned(c[1]), 8)
  {
    BitstreamSnoc(c);
    OneBlock(c[..1]);
  }

  /** The bitstream of three bytes is their 8-bit numerals, in order. */
  lemma ThreeBlocks(c: seq<JByte>)
    requires |c| == 3
    ensures Bitstream(c) == BitsOf(Unsigned(c[0]), 8) + BitsOf(Unsigned(c[1]), 8) + BitsOf(Unsigned(c[2]), 8)
  {
    BitstreamSnoc(c);
    TwoBlocks(c[..2]);
  }

  /** The six high bits of a byte. */
  lemma HighSix(a: string)
    requires |a| == 8
    ensures Value(a[..6]) == Value(a) / 4
  {
    ValueCut(a, 6);
    assert Pow(2, 2) == 4;
  }

  /** The six low bits of a byte. */
  lemma LowSix(a: string)
    requires |a| == 8
    ensures Value(a[2..]) == Value(a) % 64
  {
    ValueCut(a, 2);
    assert Pow(2, 6) == 64;
  }

  /** The two low bits of one byte, then the four high bits of the next. */
  lemma TwoThenFour(a: string, b: string)
    requires |a| == 8 && |b| == 8
    ensures Value(a[6..] + b[..4]) == (Value(a) % 4) * 16 + Value(b) / 16
  {
    ValueCut(a, 6);
    ValueCut(b, 4);
    ValueAppend(a[6..], b[..4]);
    assert Pow(2, 2) == 4 && Pow(2, 4) == 16;
  }

  /** The four low bits of one byte, then the two high bits of the next. */
  lemma FourThenTwo(a: string, b: string)
    requires |a| == 8 && |b| == 8
    ensures Value(a[4..] + b[..2]) == (Value(a) % 16) * 4 + Value(b) / 64
  {
    ValueCut(a, 4);
    ValueCut(b, 2);
    ValueAppend(a[4..], b[..2]);
    assert Pow(2, 2) == 4 && Pow(2, 4) == 16 && Pow(2, 6) == 64;
  }

  /** The last k bits of a byte, filled with zero bits to six. */
  lemma LowFilled(a: string, k: nat)
    requires |a| == 8 && (k == 2 || k == 4)
    ensures Value(a[8 - k..] + Repeat('0', 6 - k)) == (Value(a) % Pow(2, k)) * Pow(2, 6 - k)
  {
    ValueCut(a, 8 - k);
    ValueAppend(a[8 - k..], Repeat('0', 6 - k));
    ValueZeros(6 - k);
  }

  /** Where the cuts at every sixth bit fall in three 8-bit blocks. */
  lemma CutThree(a0: string, a1: string, a2: string)
    requires |a0| == 8 && |a1| == 8 && |a2| == 8
    ensures (a0 + a1 + a2)[0..6] == a0[..6]
    ensures (a0 + a1 + a2)[6..12] == a0[6..] + a1[..4]
    ensures (a0 + a1 + a2)[12..18] == a1[4..] + a2[..2]
    ensures (a0 + a1 + a2)[18..24] == a2[2..]
  {
  }

  /** Where the cuts at every sixth bit fall in two 8-bit blocks. */
  lemma CutTwo(a0: string, a1: string)
    requires |a0| == 8 && |a1| == 8
    ensures (a0 + a1)[0..6] == a0[..6]
    ensures (a0 + a1)[6..12] == a0[6..] + a1[..4]
    ensures (a0 + a1)[12..] == a1[4..]
  {
  }

  /** Groups of known values select the Table 1 characters of those
      values. */
  lemma SymbolsAreTable1(gs: seq<string>, vs: seq<nat>)
    requires |gs| == |vs|
    requires forall k :: 0 <= k < |vs| ==> vs[k] < 64 && Value(gs[k]) == vs[k]
    ensures Base64.ValuesBelow64(gs)
    ensures forall k :: 0 <= k < |vs| ==> Base64.Symbols(gs)[k] == Table1(vs[k])
  {
    forall k | 0 <= k < |vs| ensures Base64.Symbols(gs)[k] == Table1(vs[k]) {
      AlphabetIsTable1(vs[k]);
    }
  }

  /** Four groups of six bits select the Table 1 characters of their
      values. */
  lemma FourSymbols(g0: string, g1: string, g2: string, g3: string)
    requires |g0| == 6 && |g1| == 6 && |g2| == 6 && |g3| == 6
    ensures Value(g0) < 64 && Value(g1) < 64 && Value(g2) < 64 && Value(g3) < 64
    ensures Base64.ValuesBelow64([g0, g1, g2, g3])
    ensures Base64.Text([g0, g1, g2, g3], false)
      == [Table1(Value(g0)), Table1(Value(g1)), Table1(Value(g2)), Table1(Value(g3))]
  {
    assert Pow(2, 6) == 64;
    var gs := [g0, g1, g2, g3];
    SymbolsAreTable1(gs, [Value(g0), Value(g1), Value(g2), Value(g3)]);
  }

  /** The four 6-bit groups of 24 bits. */
  lemma Sextets24(s: string)
    requires |s| == 24
    ensures Base64.Sextets(s) == [s[0..6], s[6..12], s[12..18], s[18..24]]
  {
    Base64.SextetsStep(s, 0);
    Base64.SextetsStep(s, 6);
    Base64.SextetsStep(s, 12);
    Base64.SextetsStep(s, 18);
    assert s[0..] == s && s[24..] == [];
  }

  /** The values of the four 6-bit groups of three 8-bit blocks, by masks
      and shifts of the blocks' values. */
  lemma QuantumValues(a0: string, a1: string, a2: string)
    requires |a0| == 8 && |a1| == 8 && |a2| == 8
    ensures var s := a0 + a1 + a2;
      Value(s[0..6]) == Value(a0) / 4
      && Value(s[6..12]) == (Value(a0) % 4) * 16 + Value(a1) / 16
      && Value(s[12..18]) == (Value(a1) % 16) * 4 + Value(a2) / 64
      && Value(s[18..24]) == Value(a2) % 64
  {
    CutThree(a0, a1, a2);
    HighSix(a0);
    TwoThenFour(a0, a1);
    FourThenTwo(a1, a2);
    LowSix(a2);
  }

  /** Three 8-bit blocks: the four characters of their 24 bits. */
  lemma QuantumText(a0: string, a1: string, a2: string, b0: JByte, b1: JByte, b2: JByte)
    requires |a0| == 8 && |a1| == 8 && |a2| == 8
    requires Value(a0) == Unsigned(b0) && Value(a1) == Unsigned(b1) && Value(a2) == Unsigned(b2)
    ensures Base64.ValuesBelow64(Base64.Sextets(a0 + a1 + a2))
    ensures Base64.Text(Base64.Sextets(a0 + a1 + a2), false) == Quantum(b0, b1, b2)
  {
    var s := a0 + a1 + a2;
    Sextets24(s);
    FourSymbols(s[0..6], s[6..12], s[12..18], s[18..24]);
    QuantumValues(a0, a1, a2);
  }

  /** Two groups of six bits select the Table 1 characters of their values,
      and the text is padded with "==". */
  lemma TwoSymbols(g0: string, g1: string)
    requires |g0| == 6 && |g1| == 6
    ensures Value(g0) < 64 && Value(g1) < 64
    ensures Base64.ValuesBelow64([g0, g1])
    ensures Base64.Text([g0, g1], true) == [Table1(Value(g0)), Table1(Value(g1)), '=', '=']
  {
    assert Pow(2, 6) == 64;
    SymbolsAreTable1([g0, g1], [Value(g0), Value(g1)]);
    assert Base64.PaddingFor(2) == "==";
  }

  /** Three groups of six bits select the Table 1 characters of their
      values, and the text is padded with "=". */
  lemma ThreeSymbols(g0: string, g1: string, g2: string)
    requires |g0| == 6 && |g1| == 6 && |g2| == 6
    ensures Value(g0) < 64 && Value(g1) < 64 && Value(g2) < 64
    ensures Base64.ValuesBelow64([g0, g1, g2])
    ensures Base64.Text([g0, g1, g2], true) == [Table1(Value(g0)), Table1(Value(g1)), Table1(Value(g2)), '=']
  {
    assert Pow(2, 6) == 64;
    SymbolsAreTable1([g0, g1, g2], [Value(g0), Value(g1), Value(g2)]);
    assert Base64.PaddingFor(3) == "=";
  }

  /** The two 6-bit groups of 8 bits, the second filled with four zeros. */
  lemma Sextets8(s: string)
    requires |s| == 8
    ensures Base64.Sextets(s) == [s[0..6], s[6..] + Repeat('0', 4)]
  {
    Base64.SextetsStep(s, 0);
    assert s[0..] == s;
  }

  /** The three 6-bit groups of 16 bits, the third filled with two zeros. */
  lemma Sextets16(s: string)
    requires |s| == 16
    ensures Base64.Sextets(s) == [s[0..6], s[6..12], s[12..] + Repeat('0', 2)]
  {
    Base64.SextetsStep(s, 0);
    Base64.SextetsStep(s, 6);
    assert s[0..] == s;
  }

  /** The values of the two 6-bit groups of one 8-bit block. */
  lemma FinalOneValues(a0: string)
    requires |a0| == 8
    ensures Value(a0[0..6]) == Value(a0) / 4
    ensures Value(a0[6..] + Repeat('0', 4)) == (Value(a0) % 4) * 16
  {
    HighSix(a0);
    assert a0[0..6] == a0[..6];
    LowFilled(a0, 2);
    assert Pow(2, 2) == 4 && Pow(2, 4) == 16;
  }

  /** The values of the three 6-bit groups of two 8-bit blocks. */
  lemma FinalTwoValues(a0: string, a1: string)
    requires |a0| == 8 && |a1| == 8
    ensures var s := a0 + a1;
      Value(s[0..6]) == Value(a0) / 4
      && Value(s[6..12]) == (Value(a0) % 4) * 16 + Value(a1) / 16
      && Value(s[12..] + Repeat('0', 2)) == (Value(a1) % 16) * 4
  {
    CutTwo(a0, a1);
    HighSix(a0);
    TwoThenFour(a0, a1);
    LowFilled(a1, 4);
    assert Pow(2, 2) == 4 && Pow(2, 4) == 16;
  }

  /** One 8-bit block: two characters, the second from four zero bits
      filled in, then "==". */
  lemma FinalOneText(a0: string, b0: JByte)
    requires |a0| == 8 && Value(a0) == Unsigned(b0)
    ensures Base64.ValuesBelow64(Base64.Sextets(a0))
    ensures Base64.Text(Base64.Sextets(a0), true) == FinalOne(b0)
  {
    Sextets8(a0);
    TwoSymbols(a0[0..6], a0[6..] + Repeat('0', 4));
    FinalOneValues(a0);
  }

  /** Two 8-bit blocks: three characters, the third from two zero bits
      filled in, then "=". */
  lemma FinalTwoText(a0: string, a1: string, b0: JByte, b1: JByte)
    requires |a0| == 8 && |a1| == 8
    requires Value(a0) == Unsigned(b0) && Value(a1) == Unsigned(b1)
    ensures Base64.ValuesBelow64(Base64.Sextets(a0 + a1))
    ensures Base64.Text(Base64.Sextets(a0 + a1), true) == FinalTwo(b0, b1)
  {
    var s := a0 + a1;
    Sextets16(s);
    ThreeSymbols(s[0..6], s[6..12], s[12..] + Repeat('0', 2));
    FinalTwoValues(a0, a1);
  }

  /** Three whole bytes: four groups, no padding. */
  lemma WholeGroup(c: seq<JByte>)
    requires |c| == 3
    ensures Base64.Encoded(c, false) == Quantum(c[0], c[1], c[2])
  {
    ThreeBlocks(c);
    ByteNumeral(c[0]);
    ByteNumeral(c[1]);
    ByteNumeral(c[2]);
    QuantumText(BitsOf(Unsigned(c[0]), 8), BitsOf(Unsigned(c[1]), 8), BitsOf(Unsigned(c[2]), 8), c[0], c[1], c[2]);
  }

  /** One trailing byte: two groups, the second filled with four zero bits,
      then "==". */
  lemma OneByteGroup(c: seq<JByte>)
    requires |c| == 1
    ensures Base64.Encoded(c, true) == Encode(c)
  {
    OneBlock(c);
    ByteNumeral(c[0]);
    FinalOneText(BitsOf(Unsigned(c[0]), 8), c[0]);
  }

  /** Two trailing bytes: three groups, the third filled with two zero
      bits, then "=". */
  lemma TwoByteGroup(c: seq<JByte>)
    requires |c| == 2
    ensures Base64.Encoded(c, true) == Encode(c)
  {
    TwoBlocks(c);
    ByteNumeral(c[0]);
    ByteNumeral(c[1]);
    FinalTwoText(BitsOf(Unsigned(c[0]), 8), BitsOf(Unsigned(c[1]), 8), c[0], c[1]);
  }

  /** The padded encoder is the encoding of section 4 of RFC 4648. */
  lemma {:induction false} PaddedIsRfc4648(input: seq<JByte>)
    ensures Base64.Encoded(input, true) == Encode(input)
    decreases |input|
  {
    if |input| == 0 {
      assert Base64.Encoded(input, true) == [];
    } else if |input| == 1 {
      OneByteGroup(input);
    } else if |input| == 2 {
      TwoByteGroup(input);
    } else {
      var c, rest := input[..3], input[3..];
      assert Base64.Encoded(input, true) == Base64.Encoded(c, false) + Base64.Encoded(rest, true) by {
        assert input == c + rest;
        Base64.EncodedAfterGroup(c, rest, true);
      }
      assert c[0] == input[0] && c[1] == input[1] && c[2] == input[2];
      WholeGroup(c);
      PaddedIsRfc4648(rest);
    }
  }
}
