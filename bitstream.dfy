/** The shared first stage of every encoder: the input's UTF-8 bytes become
    a string of '0'/'1' characters, eight per byte, most significant bit
    first (stringToBinaryStream, byteToBinaryStream, padTo8bits). */
module BitStream {
  import opened Arith
  import opened Sequences
  import opened Bits

  /** A Java byte: a signed 8-bit value, as String.getBytes delivers it. */
  type JByte = b: int | -128 <= b < 128

  /** `b & 0xFF`: the byte's two's-complement bit pattern read as unsigned. */
  function Unsigned(b: JByte): (u: nat)
    ensures u < 256
    ensures b >= 0 ==> u == b
    ensures b < 0 ==> u == b + 256
  {
    b % 256
  }

  /** Integer.toBinaryString on a non-negative value: the binary numeral with
      no leading zero, and "0" for zero. */
  function BinaryString(u: nat): (r: string)
    ensures IsBinary(r) && Value(r) == u
    ensures u == 0 ==> r == "0"
    ensures u > 0 ==> r[0] == '1'
    ensures forall k: nat :: 1 <= k && u < Pow(2, k) ==> |r| <= k
  {
    if u < 2 then [if u == 1 then '1' else '0']
    else
      var p := BinaryString(u / 2);
      var c := if u % 2 == 1 then '1' else '0';
      ValueSnoc(p, c);
      p + [c]
  }

  /** The bitstream of a byte sequence: the eight bits of each byte, most
      significant first, in byte order. */
  function Bitstream(bytes: seq<JByte>): (bits: string)
    ensures |bits| == 8 * |bytes|
  {
    if bytes == [] then []
    else Bitstream(bytes[..|bytes| - 1]) + BitsOf(Unsigned(bytes[|bytes| - 1]), 8)
  }

  /** The bitstream is made of binary digits. */
  lemma {:induction false} BitstreamBinary(bytes: seq<JByte>)
    ensures IsBinary(Bitstream(bytes))
  {
    if bytes != [] {
      BitstreamBinary(bytes[..|bytes| - 1]);
      BitsOfBinary(Unsigned(bytes[|bytes| - 1]), 8);
    }
  }

  /** The bytes read as one big-endian unsigned integer. */
  function BigEndian(bytes: seq<JByte>): (n: nat)
    ensures n < Pow(256, |bytes|)
  {
    if bytes == [] then 0
    else 256 * BigEndian(bytes[..|bytes| - 1]) + Unsigned(bytes[|bytes| - 1])
  }

  /** The bitstream of a non-empty byte sequence ends with its last byte's
      8-bit numeral. */
  lemma BitstreamSnoc(bytes: seq<JByte>)
    requires bytes != []
    ensures Bitstream(bytes) == Bitstream(bytes[..|bytes| - 1]) + BitsOf(Unsigned(bytes[|bytes| - 1]), 8)
  {
  }

  /** The 8-bit numeral of a byte denotes the byte's unsigned value. */
  lemma ByteNumeral(b: JByte)
    ensures |BitsOf(Unsigned(b), 8)| == 8 && Value(BitsOf(Unsigned(b), 8)) == Unsigned(b)
  {
    assert Pow(2, 8) == 256;
  }

  /** The bitstream of consecutive byte runs is the concatenation of theirs. */
  lemma {:induction false} BitstreamAppend(a: seq<JByte>, b: seq<JByte>)
    ensures Bitstream(a + b) == Bitstream(a) + Bitstream(b)
    decreases |b|
  {
    if b == [] {
      assert a + b == a;
    } else {
      var front := b[..|b| - 1];
      BitstreamAppend(a, front);
      AppendSnoc(a, b);
      BitstreamSnoc(b);
      ConcatAssoc(Bitstream(a), Bitstream(front), BitsOf(Unsigned(b[|b| - 1]), 8));
    }
  }

  /** The last byte of a + b is the last byte of b. */
  lemma AppendSnoc(a: seq<JByte>, b: seq<JByte>)
    requires b != []
    ensures Bitstream(a + b) == Bitstream(a + b[..|b| - 1]) + BitsOf(Unsigned(b[|b| - 1]), 8)
  {
    BitstreamSnoc(a + b);
    assert (a + b)[..|a + b| - 1] == a + b[..|b| - 1];
    assert (a + b)[|a + b| - 1] == b[|b| - 1];
  }

  /** Block k of the bitstream is the 8-bit numeral of byte k. */
  lemma {:induction false} BitstreamBlock(bytes: seq<JByte>, k: nat)
    requires k < |bytes|
    ensures Bitstream(bytes)[8 * k .. 8 * k + 8] == BitsOf(Unsigned(bytes[k]), 8)
  {
    var front, last := bytes[..|bytes| - 1], BitsOf(Unsigned(bytes[|bytes| - 1]), 8);
    BitstreamSnoc(bytes);
    if k < |bytes| - 1 {
      BitstreamBlock(front, k);
      SliceOfFront(Bitstream(front), last, 8 * k, 8 * k + 8);
    } else {
      SliceOfThree(Bitstream(front), last, []);
    }
  }

  /** The bitstream denotes the bytes' big-endian value, which therefore
      stays below 2^(8n). */
  lemma {:induction false} BitstreamValue(bytes: seq<JByte>)
    ensures Value(Bitstream(bytes)) == BigEndian(bytes)
    ensures BigEndian(bytes) < Pow(2, 8 * |bytes|)
  {
    if bytes != [] {
      var front, u := bytes[..|bytes| - 1], Unsigned(bytes[|bytes| - 1]);
      var p, last := Bitstream(front), BitsOf(u, 8);
      assert Value(Bitstream(bytes)) == Value(p) * 256 + u by {
        BitstreamSnoc(bytes);
        ValueAppend(p, last);
        ByteNumeral(bytes[|bytes| - 1]);
        assert Pow(2, 8) == 256;
      }
      BitstreamValue(front);
    }
  }

  /** padTo8bits: prepend '0' until the string is eight characters long; a
      string that is already that long is returned unchanged. */
  method PadTo8Bits(binaryString: string) returns (r: string)
    ensures r == Repeat('0', if |binaryString| < 8 then 8 - |binaryString| else 0) + binaryString
    ensures Value(r) == Value(binaryString)
    ensures |binaryString| <= 8 ==> |r| == 8
  {
    var sb := binaryString;
    var padCount := 8 - |binaryString|;
    var i := 0;
    while i < padCount
      invariant 0 <= i <= if padCount < 0 then 0 else padCount
      invariant sb == Repeat('0', i) + binaryString
    {
      assert "0" + sb == Repeat('0', i + 1) + binaryString by {
        ConcatAssoc("0", Repeat('0', i), binaryString);
      }
      sb := "0" + sb;
      i := i + 1;
    }
    r := sb;
    assert Value(r) == Value(binaryString) by {
      ValueLeadingZeros(i, binaryString);
    }
  }

  /** byteToBinaryStream: the eight bits of b & 0xFF. */
  method ByteToBinaryStream(b: JByte) returns (r: string)
    ensures r == BitsOf(Unsigned(b), 8)
  {
    var digits := BinaryString(Unsigned(b));
    assert Pow(2, 8) == 256;
    r := PadTo8Bits(digits);
    assert IsBinary(r);
    BinaryCanonical(r);
  }

  /** stringToBinaryStream, from the UTF-8 bytes on: one 8-bit block per
      byte, appended in order. */
  method StringToBinaryStream(utf8Bytes: seq<JByte>) returns (r: string)
    ensures r == Bitstream(utf8Bytes)
  {
    var sb := "";
    for i := 0 to |utf8Bytes|
      invariant sb == Bitstream(utf8Bytes[..i])
    {
      var block := ByteToBinaryStream(utf8Bytes[i]);
      assert utf8Bytes[..i + 1][..i] == utf8Bytes[..i];
      sb := sb + block;
    }
    assert utf8Bytes[..|utf8Bytes|] == utf8Bytes;
    r := sb;
  }
}
