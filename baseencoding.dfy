/** The public entry points of BaseEncoding (toBase62, toBase64,
    toBase64WithPadding). Each encoder object of the source is a fixed
    choice of alphabet and padding flag, so the dispatch through the
    abstract class becomes three methods. The input is the byte sequence
    that input.getBytes(UTF_8) delivers. */
module BaseEncoding {
  import opened Arith
  import opened Sequences
  import opened Bits
  import opened BitStream
  import Base62
  import Base64
  import Rfc4648

  /** toBase62: the base-62 text of the input's big-endian value n, with
      the source's boundary behaviour at 62 kept. */
  method ToBase62(input: seq<JByte>) returns (r: string)
    ensures r == Base62.Encoded(input)
    ensures forall i :: 0 <= i < |r| ==> r[i] in Base62.Alphabet
    ensures BigEndian(input) <= 62 ==> r == []
    ensures BigEndian(input) > 62 && (forall k: nat :: 1 <= k ==> BigEndian(input) / Pow(62, k) != 62)
      ==> r == Reverse(Base62.Render(Base62.Alphabet, Base62.Numeral(BigEndian(input))))
  {
    r := Base62.Encode(input);
    Base62.EncodedInAlphabet(input);
    if BigEndian(input) <= 62 {
      Base62.EncodedSmall(input);
    } else if forall k: nat :: 1 <= k ==> BigEndian(input) / Pow(62, k) != 62 {
      Base62.EncodedStandard(input);
    }
  }

  /** toBase64: the base64 text of section 4 of RFC 4648 without its '='
      padding, one character per 6-bit group. */
  method ToBase64(input: seq<JByte>) returns (r: string)
    ensures r == Base64.Encoded(input, false)
    ensures |r| == (8 * |input| + 5) / 6
    ensures forall i :: 0 <= i < |r| ==> r[i] in Base64.Alphabet
    ensures r + Repeat(Base64.PaddingChar, Base64.PadCount(|input|)) == Rfc4648.Encode(input)
  {
    r := Base64.Encode(input, false);
    Base64.EncodedLength(input);
    Base64.EncodedInAlphabet(input, false);
    Base64.PaddedByRemainder(input);
    Rfc4648.PaddedIsRfc4648(input);
  }

  /** toBase64WithPadding: the base64 text of section 4 of RFC 4648, which
      is the unpadded text followed by at most two '='. */
  method ToBase64WithPadding(input: seq<JByte>) returns (r: string)
    ensures r == Rfc4648.Encode(input)
    ensures |r| == 4 * ((|input| + 2) / 3)
    ensures r == Base64.Encoded(input, false) + Repeat(Base64.PaddingChar, Base64.PadCount(|input|))
  {
    r := Base64.Encode(input, true);
    Base64.PaddedByRemainder(input);
    Rfc4648.PaddedIsRfc4648(input);
  }

  /** Empty input gives empty text from all three entry points. */
  lemma EmptyInput()
    ensures Base62.Encoded([]) == []
    ensures Base64.Encoded([], false) == [] && Base64.Encoded([], true) == []
  {
    Base62.EncodedSmall([]);
    Base64.EncodedLength([]);
    Base64.PaddedByRemainder([]);
  }

  /** The bytes of the ASCII text "if-else-if". */
  const IfElseIf: seq<JByte> := [105, 102, 45, 101, 108, 115, 101, 45, 105, 102]

  /** The bytes of the ASCII text "Hello World!". */
  const HelloWorld: seq<JByte> := [72, 101, 108, 108, 111, 32, 87, 111, 114, 108, 100, 33]

  /** The encoding of section 4 of RFC 4648 of "if-else-if", one 24-bit
      group at a time. */
  lemma IfElseIfRfc4648()
    ensures Rfc4648.Encode(IfElseIf) == "aWYtZWxzZS1pZg=="
  {
    var s := IfElseIf;
    assert s[0] == 105 && s[1] == 102 && s[2] == 45 && s[3] == 101 && s[4] == 108;
    assert s[5] == 115 && s[6] == 101 && s[7] == 45 && s[8] == 105 && s[9] == 102;
    assert Rfc4648.Encode(s) == "aWYt" + "ZWxz" + "ZS1p" + "Zg==" by {
      IfElseIfGroup0();
      IfElseIfGroup1();
      IfElseIfGroup2();
      IfElseIfFinal();
      TenBytes(s, "aWYt", "ZWxz", "ZS1p", "Zg==");
    }
    IfElseIfLiteral();
  }

  /** The four groups of "if-else-if" make up its text. */
  lemma IfElseIfLiteral()
    ensures "aWYt" + "ZWxz" + "ZS1p" + "Zg==" == "aWYtZWxzZS1pZg=="
  {
  }

  /** "if-" is the group "aWYt". */
  lemma IfElseIfGroup0()
    ensures Rfc4648.Quantum(105, 102, 45) == "aWYt"
  {
  }

  /** "els" is the group "ZWxz". */
  lemma IfElseIfGroup1()
    ensures Rfc4648.Quantum(101, 108, 115) == "ZWxz"
  {
  }

  /** "e-i" is the group "ZS1p". */
  lemma IfElseIfGroup2()
    ensures Rfc4648.Quantum(101, 45, 105) == "ZS1p"
  {
  }

  /** The final "f" is the group "Zg==". */
  lemma IfElseIfFinal()
    ensures Rfc4648.FinalOne(102) == "Zg=="
  {
  }

  /** Ten bytes are three whole groups and a final group of one byte. */
  lemma TenBytes(s: seq<JByte>, q0: string, q1: string, q2: string, f: string)
    requires |s| == 10
    requires Rfc4648.Quantum(s[0], s[1], s[2]) == q0 && Rfc4648.Quantum(s[3], s[4], s[5]) == q1
    requires Rfc4648.Quantum(s[6], s[7], s[8]) == q2 && Rfc4648.FinalOne(s[9]) == f
    ensures Rfc4648.Encode(s) == q0 + q1 + q2 + f
  {
    Rfc4648.EncodeStep(s);
    Rfc4648.EncodeStep(s[3..]);
    Rfc4648.EncodeStep(s[6..]);
    assert s[3..][3..] == s[6..] && s[6..][3..] == s[9..];
    assert Rfc4648.Encode(s[9..]) == f;
  }

  /** The padded base64 vector of the source's tests. */
  lemma IfElseIfPadded()
    ensures Base64.Encoded(IfElseIf, true) == "aWYtZWxzZS1pZg=="
  {
    IfElseIfRfc4648();
    Rfc4648.PaddedIsRfc4648(IfElseIf);
  }

  /** For ten input bytes the unpadded text is the padded one without its
      last two characters. */
  lemma TenBytesUnpadded(input: seq<JByte>, padded: string)
    requires |input| == 10 && Base64.Encoded(input, true) == padded
    ensures |padded| == 16 && Base64.Encoded(input, false) == padded[..14]
  {
    Base64.PaddedByRemainder(input);
    Base64.EncodedLength(input);
    assert Base64.PadCount(10) == 2;
    FrontOf(Base64.Encoded(input, false), Repeat(Base64.PaddingChar, 2), padded);
  }

  /** A text that ends in a known suffix is the front of the whole. */
  lemma FrontOf(x: string, y: string, z: string)
    requires x + y == z
    ensures x == z[..|x|]
  {
  }

  /** Ten bytes whose padded text is that of "if-else-if" have its
      unpadded text. */
  lemma IfElseIfUnpaddedText(input: seq<JByte>)
    requires |input| == 10 && Base64.Encoded(input, true) == "aWYtZWxzZS1pZg=="
    ensures Base64.Encoded(input, false) == "aWYtZWxzZS1pZg"
  {
    TenBytesUnpadded(input, "aWYtZWxzZS1pZg==");
  }

  /** The unpadded base64 vector of the source's tests. */
  lemma IfElseIfUnpadded()
    ensures Base64.Encoded(IfElseIf, false) == "aWYtZWxzZS1pZg"
  {
    IfElseIfPadded();
    IfElseIfUnpaddedText(IfElseIf);
  }

  /** The big-endian value of "Hello World!". */
  lemma HelloWorldValue()
    ensures BigEndian(HelloWorld) == 22405534230753928650781647905
  {
    var s := HelloWorld;
    assert BigEndian(s[..1]) == 72;
    assert BigEndian(s[..2]) == 18533 by {
      assert s[..2][..1] == s[..1];
    }
    assert BigEndian(s[..3]) == 4744556 by {
      assert s[..3][..2] == s[..2];
    }
    assert BigEndian(s[..4]) == 1214606444 by {
      assert s[..4][..3] == s[..3];
    }
    assert BigEndian(s[..5]) == 310939249775 by {
      assert s[..5][..4] == s[..4];
    }
    assert BigEndian(s[..6]) == 79600447942432 by {
      assert s[..6][..5] == s[..5];
    }
    assert BigEndian(s[..7]) == 20377714673262679 by {
      assert s[..7][..6] == s[..6];
    }
    assert BigEndian(s[..8]) == 5216694956355245935 by {
      assert s[..8][..7] == s[..7];
    }
    assert BigEndian(s[..9]) == 1335473908826942959474 by {
      assert s[..9][..8] == s[..8];
    }
    assert BigEndian(s[..10]) == 341881320659697397625452 by {
      assert s[..10][..9] == s[..9];
    }
    assert BigEndian(s[..11]) == 87521618088882533792115812 by {
      assert s[..11][..10] == s[..10];
    }
    assert BigEndian(s[..12]) == 22405534230753928650781647905 by {
      assert s[..12][..11] == s[..11];
    }
    assert s[..12] == s;
  }

  /** The base-62 numeral of that value, least significant digit first,
      in four runs of four digits. */
  lemma HelloWorldNumeral()
    ensures Base62.LsdValue([23, 39, 54, 60] + [36, 3, 35, 46] + [16, 27, 45, 38] + [42, 39, 8, 29])
      == 22405534230753928650781647905
  {
    var a, b, c, d := [23, 39, 54, 60], [36, 3, 35, 46], [16, 27, 45, 38], [42, 39, 8, 29];
    RunValue(a);
    RunValue(b);
    RunValue(c);
    RunValue(d);
    FourRuns(a, b, c, d);
  }

  /** The value of a run of four digits. */
  lemma RunValue(ds: seq<nat>)
    requires |ds| == 4
    ensures Base62.LsdValue(ds) == ds[0] + 62 * (ds[1] + 62 * (ds[2] + 62 * ds[3]))
  {
    var t1 := ds[1..];
    var t2 := t1[1..];
    var t3 := t2[1..];
    assert t3[1..] == [];
    assert Base62.LsdValue(t3) == ds[3];
    assert Base62.LsdValue(t2) == ds[2] + 62 * ds[3];
    assert Base62.LsdValue(t1) == ds[1] + 62 * (ds[2] + 62 * ds[3]);
  }

  /** The value of four runs of four digits: each run weighs 62^4 times
      the one below it. */
  lemma FourRuns(a: seq<nat>, b: seq<nat>, c: seq<nat>, d: seq<nat>)
    requires |a| == 4 && |b| == 4 && |c| == 4
    ensures Base62.LsdValue(a + b + c + d) == Base62.LsdValue(a)
      + 14776336 * (Base62.LsdValue(b) + 14776336 * (Base62.LsdValue(c) + 14776336 * Base62.LsdValue(d)))
  {
    assert Pow(62, 4) == 14776336;
    Base62.LsdAppend(c, d);
    Base62.LsdAppend(b, c + d);
    Base62.LsdAppend(a, b + (c + d));
    assert a + b + c + d == a + (b + (c + d));
  }

  /** Four digits read back most significant first. */
  lemma RunText(alphabet: string, ds: seq<nat>, s: string)
    requires |alphabet| == 62 && |ds| == 4 && |s| == 4 && Base62.AllDigits(ds)
    requires s[0] == alphabet[ds[3]] && s[1] == alphabet[ds[2]]
    requires s[2] == alphabet[ds[1]] && s[3] == alphabet[ds[0]]
    ensures Reverse(Base62.Render(alphabet, ds)) == s
  {
    var r := Base62.Render(alphabet, ds);
    forall k | 0 <= k < 4
      ensures Reverse(r)[k] == s[k]
    {
    }
  }

  /** The characters of the four runs of that numeral. */
  lemma HelloWorldRuns()
    ensures Reverse(Base62.Render(Base62.Alphabet, [42, 39, 8, 29])) == "T8dg"
    ensures Reverse(Base62.Render(Base62.Alphabet, [16, 27, 45, 38])) == "cjRG"
    ensures Reverse(Base62.Render(Base62.Alphabet, [36, 3, 35, 46])) == "kZ3a"
    ensures Reverse(Base62.Render(Base62.Alphabet, [23, 39, 54, 60])) == "ysdN"
  {
    Base62.DigitChar(23); Base62.DigitChar(39); Base62.DigitChar(54); Base62.DigitChar(60);
    Base62.DigitChar(36); Base62.DigitChar(3); Base62.DigitChar(35); Base62.DigitChar(46);
    Base62.DigitChar(16); Base62.DigitChar(27); Base62.DigitChar(45); Base62.DigitChar(38);
    Base62.DigitChar(42); Base62.DigitChar(8); Base62.DigitChar(29);
    RunText(Base62.Alphabet, [42, 39, 8, 29], "T8dg");
    RunText(Base62.Alphabet, [16, 27, 45, 38], "cjRG");
    RunText(Base62.Alphabet, [36, 3, 35, 46], "kZ3a");
    RunText(Base62.Alphabet, [23, 39, 54, 60], "ysdN");
  }

  /** Four rendered runs of digits, least significant run first, read
      back most significant first. */
  lemma TextOfRuns(a: seq<nat>, b: seq<nat>, c: seq<nat>, d: seq<nat>)
    requires Base62.AllDigits(a) && Base62.AllDigits(b) && Base62.AllDigits(c) && Base62.AllDigits(d)
    ensures Base62.AllDigits(a + b + c + d)
    ensures Reverse(Base62.Render(Base62.Alphabet, a + b + c + d))
      == Reverse(Base62.Render(Base62.Alphabet, d)) + Reverse(Base62.Render(Base62.Alphabet, c))
        + Reverse(Base62.Render(Base62.Alphabet, b)) + Reverse(Base62.Render(Base62.Alphabet, a))
  {
    var ra, rb, rc, rd := Base62.Render(Base62.Alphabet, a), Base62.Render(Base62.Alphabet, b),
      Base62.Render(Base62.Alphabet, c), Base62.Render(Base62.Alphabet, d);
    Base62.RenderAppend(Base62.Alphabet, a, b);
    Base62.RenderAppend(Base62.Alphabet, a + b, c);
    Base62.RenderAppend(Base62.Alphabet, a + b + c, d);
    ReverseAppend(ra + rb + rc, rd);
    ReverseAppend(ra + rb, rc);
    ReverseAppend(ra, rb);
  }

  /** The characters of that numeral, most significant first. */
  lemma HelloWorldText()
    ensures Reverse(Base62.Render(Base62.Alphabet, [23, 39, 54, 60] + [36, 3, 35, 46] + [16, 27, 45, 38] + [42, 39, 8, 29]))
      == "T8dgcjRGkZ3aysdN"
  {
    HelloWorldRuns();
    TextOfRuns([23, 39, 54, 60], [36, 3, 35, 46], [16, 27, 45, 38], [42, 39, 8, 29]);
    HelloWorldLiteral();
  }

  /** The four runs of the "Hello World!" numeral make up its text. */
  lemma HelloWorldLiteral()
    ensures "T8dg" + "cjRG" + "kZ3a" + "ysdN" == "T8dgcjRGkZ3aysdN"
  {
  }

  /** The base-62 vector of the source's tests: "Hello World!". Its numeral
      does not begin with "10", so the output is that numeral. */
  lemma HelloWorldBase62()
    ensures Base62.Encoded(HelloWorld) == "T8dgcjRGkZ3aysdN"
  {
    var ds := [23, 39, 54, 60] + [36, 3, 35, 46] + [16, 27, 45, 38] + [42, 39, 8, 29];
    HelloWorldValue();
    HelloWorldNumeral();
    assert |ds| == 16 && ds[14] == 8 && ds[15] == 29;
    assert Base62.AllDigits(ds);
    Base62.EncodedOfNumeral(HelloWorld, ds);
    HelloWorldText();
  }

  /** The standard numerals of 62 and 62^2, for comparison with what the
      encoder returns for them. */
  lemma StandardNumerals()
    ensures Reverse(Base62.Render(Base62.Alphabet, Base62.Numeral(62))) == "10"
    ensures Reverse(Base62.Render(Base62.Alphabet, Base62.Numeral(3844))) == "100"
  {
    assert Base62.Numeral(62) == [0, 1];
    assert Base62.Numeral(3844) == [0, 0, 1];
    assert Base62.Alphabet[0] == '0' && Base62.Alphabet[1] == '1';
  }

  /** The loop's `> 62` and `< 62` tests leave a quotient of exactly 62
      unhandled: the two bytes 0x0F 0x04 denote 3844 = 62^2, whose standard
      numeral is "100", yet the encoder returns "0". */
  lemma QuotientOf62()
    ensures BigEndian([15, 4]) == 3844
    ensures Base62.Encoded([15, 4]) == "0"
  {
    var s: seq<JByte> := [15, 4];
    assert s[..1] == [15];
    assert Pow(62, 1) == 62;
    Base62.EncodedQuirk(s, 1);
    assert Base62.LowDigits(3844, 1) == [0];
    assert Base62.Alphabet[0] == '0';
  }

  /** A value of exactly 62 never enters the loop and yields empty text,
      where the standard numeral is "10". */
  lemma ValueOf62()
    ensures Base62.Encoded([62]) == ""
  {
    var s: seq<JByte> := [62];
    assert s[..0] == [];
    Base62.EncodedSmall(s);
  }
}
