/** The base-62 encoder (Base62Encoding): the bitstream is read as one
    unsigned integer, which repeated division by 62 turns into digits. */
module Base62 {
  import opened Arith
  import opened Sequences
  import opened Bits
  import opened BitStream

  /** The 62 digit characters, in digit order: the source's constant,
      written as its three runs. */
  const Alphabet: string := "0123456789" + "ABCDEFGHIJKLMNOPQRSTUVWXYZ" + "abcdefghijklmnopqrstuvwxyz"

  /** Digit v is '0'-'9' for 0-9, 'A'-'Z' for 10-35 and 'a'-'z' for 36-61. */
  lemma DigitChar(v: nat)
    requires v < 62
    ensures Alphabet[v] == if v < 10 then ('0' as int + v) as char
      else if v < 36 then ('A' as int + (v - 10)) as char
      else ('a' as int + (v - 36)) as char
  {
  }

  /** isGreaterDecimalThan62: the loop's condition. */
  predicate IsGreaterThan62(decimal: nat): (r: bool)
    ensures r ==> decimal / 62 >= 1 && decimal / 62 < decimal
  {
    decimal > 62
  }

  /** isLessDecimalThan62: the condition for emitting the terminal digit. */
  predicate IsLessThan62(decimal: nat): (r: bool)
    ensures r ==> decimal < |Alphabet|
    ensures !r && !IsGreaterThan62(decimal) <==> decimal == 62
  {
    decimal < 62
  }

  /** Every entry is a valid base-62 digit, i.e. an index into Alphabet. */
  predicate AllDigits(ds: seq<nat>)
  {
    forall i :: 0 <= i < |ds| ==> ds[i] < 62
  }

  /** The value of a digit sequence written least significant digit first. */
  function LsdValue(ds: seq<nat>): nat
  {
    if ds == [] then 0 else ds[0] + 62 * LsdValue(ds[1..])
  }

  /** The standard base-62 numeral of n, least significant digit first,
      without leading zero digits (empty for 0). Reference definition. */
  function Numeral(n: nat): (ds: seq<nat>)
    ensures AllDigits(ds) && LsdValue(ds) == n
    ensures ds == [] <==> n == 0
    ensures ds != [] ==> ds[|ds| - 1] != 0
  {
    if n == 0 then [] else [n % 62] + Numeral(n / 62)
  }

  /** The k least significant base-62 digits of n, zero digits included. */
  function LowDigits(n: nat, k: nat): (ds: seq<nat>)
    ensures |ds| == k && AllDigits(ds)
    ensures LsdValue(ds) == n % Pow(62, k)
  {
    if k == 0 then []
    else
      DivPow(n, 62, k);
      [n % 62] + LowDigits(n / 62, k - 1)
  }

  /** The digit indices decimalToBase62 appends to its builder, in append
      order: a remainder for every pass of the `> 62` loop, plus the final
      quotient when, after a division, it is `< 62`. A quotient of exactly 62
      ends the loop with neither branch taken. */
  function Emitted(d: nat): (ds: seq<nat>)
    ensures AllDigits(ds)
    ensures ds == [] <==> d <= 62
    decreases d
  {
    if d <= 62 then []
    else [d % 62] + (if d / 62 < 62 then [d / 62] else Emitted(d / 62))
  }

  /** The characters of the digits ds in a 62-character alphabet. */
  function Render(alphabet: string, ds: seq<nat>): (r: string)
    requires |alphabet| == 62 && AllDigits(ds)
    ensures |r| == |ds|
    ensures forall i :: 0 <= i < |ds| ==> r[i] == alphabet[ds[i]]
  {
    seq(|ds|, i requires 0 <= i < |ds| => alphabet[ds[i]])
  }

  /** The base-62 text the encoder returns for the bytes `input`: the
      emitted digits as characters, most significant first. */
  function Encoded(input: seq<JByte>): (r: string)
    ensures forall i :: 0 <= i < |r| ==> r[i] in Alphabet
  {
    var ds := Emitted(Value(Bitstream(input)));
    OutputInAlphabet(Alphabet, ds);
    Reverse(Render(Alphabet, ds))
  }

  /** A quotient a / m equal to q means a holds q whole copies of m. */
  lemma QuotientBound(a: nat, m: nat)
    requires m > 0
    ensures a >= m * (a / m)
  {
  }

  /** A positive power of 62 is at least 62. */
  lemma {:induction false} PowAtLeast(k: nat)
    requires k >= 1
    ensures Pow(62, k) >= 62
  {
    if k > 1 {
      PowAtLeast(k - 1);
    }
  }

  /** The quirk: when the k-th quotient n / 62^k is exactly 62, the loop
      stops there and the output holds only the k low digits of n, so it
      reads as n mod 62^k. */
  lemma {:induction false} EmittedAtQuotient62(n: nat, k: nat)
    requires k >= 1 && n / Pow(62, k) == 62
    ensures Emitted(n) == LowDigits(n, k)
    ensures |Emitted(n)| == k && LsdValue(Emitted(n)) == n % Pow(62, k)
  {
    DivPow(n, 62, k);
    PowAtLeast(k);
    QuotientBound(n, Pow(62, k));
    var q := n / 62;
    if k > 1 {
      PowAtLeast(k - 1);
      QuotientBound(q, Pow(62, k - 1));
      EmittedAtQuotient62(q, k - 1);
    }
  }

  /** Without such a quotient, every value above 62 is written as its
      standard numeral: no digit lost, no leading zero. */
  lemma {:induction false} EmittedStandard(n: nat)
    requires n > 62
    requires forall k: nat :: 1 <= k ==> n / Pow(62, k) != 62
    ensures Emitted(n) == Numeral(n)
    ensures LsdValue(Emitted(n)) == n
  {
    var q := n / 62;
    DivPow(n, 62, 1);
    if q > 62 {
      forall k: nat | 1 <= k
        ensures q / Pow(62, k) != 62
      {
        DivPow(n, 62, k + 1);
      }
      EmittedStandard(q);
    } else {
      assert Numeral(q) == [q];
    }
  }

  /** A last pass of the loop, after the digits already appended: the
      remainder and the quotient move from the digits still to come to the
      digits appended. */
  lemma LastPass(digits: seq<nat>, d: nat)
    requires d > 62 && d / 62 < 62
    ensures digits + Emitted(d) == (digits + [d % 62]) + [d / 62] + Emitted(d / 62)
  {
    EmittedLast(d);
  }

  /** Any other pass: only the remainder moves over. */
  lemma NextPass(digits: seq<nat>, d: nat)
    requires d > 62 && d / 62 >= 62
    ensures digits + Emitted(d) == (digits + [d % 62]) + Emitted(d / 62)
  {
    EmittedMore(d);
  }

  /** A pass whose quotient is below 62 is the last and emits two digits. */
  lemma EmittedLast(d: nat)
    requires d > 62 && d / 62 < 62
    ensures Emitted(d) == [d % 62, d / 62] && Emitted(d / 62) == []
  {
  }

  /** A pass whose quotient is 62 or more emits the remainder only. */
  lemma EmittedMore(d: nat)
    requires d > 62 && d / 62 >= 62
    ensures Emitted(d) == [d % 62] + Emitted(d / 62)
  {
  }

  /** One pass of the loop on d > 62: the remainder is appended, and the
      quotient too when it is below 62; the digits appended so far and the
      digits still to come keep making up the whole output. */
  lemma Pass(digits: seq<nat>, d: nat, all: seq<nat>)
    requires d > 62 && digits + Emitted(d) == all
    ensures d / 62 < 62 ==> digits + [d % 62] + [d / 62] + Emitted(d / 62) == all
    ensures d / 62 >= 62 ==> digits + [d % 62] + Emitted(d / 62) == all
  {
    if d / 62 < 62 {
      LastPass(digits, d);
    } else {
      NextPass(digits, d);
    }
  }

  /** The state of decimalToBase62 between passes: the builder holds the
      characters of the digits appended so far, and those digits followed
      by the digits still to come from d make up the whole output. */
  ghost predicate LoopState(alphabet: string, digits: seq<nat>, sb: string, d: nat, all: seq<nat>)
  {
    |alphabet| == 62 && AllDigits(digits) && sb == Render(alphabet, digits) && digits + Emitted(d) == all
  }

  /** One pass keeps the state: the remainder's character is appended, and
      the quotient's too when the quotient is below 62. */
  lemma PassState(alphabet: string, digits: seq<nat>, sb: string, d: nat, all: seq<nat>)
    requires d > 62 && LoopState(alphabet, digits, sb, d, all)
    ensures d / 62 < 62 ==>
      LoopState(alphabet, digits + [d % 62] + [d / 62], sb + [alphabet[d % 62]] + [alphabet[d / 62]], d / 62, all)
    ensures d / 62 >= 62 ==>
      LoopState(alphabet, digits + [d % 62], sb + [alphabet[d % 62]], d / 62, all)
  {
    Pass(digits, d, all);
    PassRender(alphabet, digits, sb, d % 62, d / 62);
  }

  /** Once d is at most 62 nothing more is emitted: the digits appended
      are the whole output. */
  lemma LoopDone(alphabet: string, digits: seq<nat>, sb: string, d: nat, all: seq<nat>)
    requires d <= 62 && LoopState(alphabet, digits, sb, d, all)
    ensures AllDigits(all) && sb == Render(alphabet, all)
  {
    assert digits + [] == digits;
  }

  /** The characters of one pass's digits are appended to the text. */
  lemma PassRender(alphabet: string, digits: seq<nat>, sb: string, r: nat, q: nat)
    requires |alphabet| == 62 && AllDigits(digits) && sb == Render(alphabet, digits) && r < 62
    ensures AllDigits(digits + [r]) && sb + [alphabet[r]] == Render(alphabet, digits + [r])
    ensures q < 62 ==>
      AllDigits(digits + [r] + [q]) && sb + [alphabet[r]] + [alphabet[q]] == Render(alphabet, digits + [r] + [q])
  {
    RenderSnoc(alphabet, digits, r);
    if q < 62 {
      RenderSnoc(alphabet, digits + [r], q);
    }
  }

  /** Appending a digit appends its character. */
  lemma RenderSnoc(alphabet: string, ds: seq<nat>, x: nat)
    requires |alphabet| == 62 && AllDigits(ds) && x < 62
    ensures Render(alphabet, ds + [x]) == Render(alphabet, ds) + [alphabet[x]]
  {
    assert AllDigits(ds + [x]);
  }

  /** Every character of the reversed rendering is an alphabet character. */
  lemma OutputInAlphabet(alphabet: string, ds: seq<nat>)
    requires |alphabet| == 62 && AllDigits(ds)
    ensures forall i :: 0 <= i < |ds| ==> Reverse(Render(alphabet, ds))[i] in alphabet
  {
    var r := Reverse(Render(alphabet, ds));
    forall i | 0 <= i < |ds|
      ensures r[i] in alphabet
    {
      assert r[i] == alphabet[ds[|ds| - 1 - i]];
    }
  }

  /** What the encoder returns, in terms of the input's big-endian value n:
      nothing when n is at most 62 (the empty input included). */
  lemma EncodedSmall(input: seq<JByte>)
    requires BigEndian(input) <= 62
    ensures Encoded(input) == []
  {
    BitstreamValue(input);
  }

  /** When n is above 62 and no quotient n / 62^k equals 62, the text is the standard base-62
      numeral of n, most significant digit first, with no leading zero. */
  lemma EncodedStandard(input: seq<JByte>)
    requires BigEndian(input) > 62
    requires forall k: nat :: 1 <= k ==> BigEndian(input) / Pow(62, k) != 62
    ensures Encoded(input) == Reverse(Render(Alphabet, Numeral(BigEndian(input))))
  {
    BitstreamValue(input);
    EmittedStandard(BigEndian(input));
  }

  /** When the k-th quotient n / 62^k is exactly 62, the text is only the
      k low digits of n: it reads as n mod 62^k. */
  lemma EncodedQuirk(input: seq<JByte>, k: nat)
    requires k >= 1 && BigEndian(input) / Pow(62, k) == 62
    ensures Encoded(input) == Reverse(Render(Alphabet, LowDigits(BigEndian(input), k)))
    ensures |Encoded(input)| == k
  {
    BitstreamValue(input);
    EmittedAtQuotient62(BigEndian(input), k);
  }

  /** The value of consecutive digit runs: the higher run is weighted by
      62 to the length of the lower one. */
  lemma {:induction false} LsdAppend(a: seq<nat>, b: seq<nat>)
    ensures LsdValue(a + b) == LsdValue(a) + Pow(62, |a|) * LsdValue(b)
  {
    if a != [] {
      var x, y, p := LsdValue(a[1..]), LsdValue(b), Pow(62, |a| - 1);
      assert LsdValue(a + b) == a[0] + 62 * LsdValue(a[1..] + b) by {
        assert (a + b)[1..] == a[1..] + b;
        assert (a + b)[0] == a[0];
      }
      LsdAppend(a[1..], b);
      assert Pow(62, |a|) == 62 * p;
      ShiftDigits(a[0], x, y, p);
    } else {
      assert a + b == b;
    }
  }

  /** The arithmetic of putting one more digit below a shifted value. */
  lemma ShiftDigits(d: int, x: int, y: int, p: int)
    ensures d + 62 * (x + p * y) == (d + 62 * x) + (62 * p) * y
  {
  }

  /** A numeral of two or more digits with a nonzero leading digit is worth
      at least 62, and more than 62 from three digits on. */
  lemma {:induction false} NumeralWeight(ds: seq<nat>)
    requires |ds| >= 2 && AllDigits(ds) && ds[|ds| - 1] != 0
    ensures LsdValue(ds) >= 62
    ensures |ds| >= 3 ==> LsdValue(ds) > 62
  {
    var rest := ds[1..];
    if |ds| == 2 {
      assert rest[1..] == [];
    } else {
      NumeralWeight(rest);
    }
  }

  /** The loop reproduces every numeral of two or more digits whose leading
      digits are not "10": its value is above 62, and no quotient on the
      way equals 62. */
  lemma {:induction false} EmittedOfNumeral(ds: seq<nat>)
    requires |ds| >= 2 && AllDigits(ds) && ds[|ds| - 1] != 0
    requires !(ds[|ds| - 2] == 0 && ds[|ds| - 1] == 1)
    ensures Emitted(LsdValue(ds)) == ds
  {
    var d, rest := LsdValue(ds), ds[1..];
    var q := LsdValue(rest);
    DivModOf(d, q, 62, ds[0]);
    if |ds| == 2 {
      assert rest[1..] == [];
      assert ds == [ds[0], ds[1]];
    } else {
      NumeralWeight(rest);
      if |rest| == 2 {
        assert rest[1..][1..] == [];
      }
      EmittedMore(d);
      EmittedOfNumeral(rest);
    }
  }

  /** The numeral "10" is worth 62. */
  lemma TenIs62()
    ensures LsdValue([0, 1]) == 62
  {
    assert [0, 1][1..] == [1] && [1][1..] == [];
  }

  /** The quirk in digit terms: a numeral whose leading digits are "10"
      loses exactly those two digits, whatever the digits below them. */
  lemma {:induction false} EmittedDropsLeading10(ds: seq<nat>)
    requires AllDigits(ds)
    ensures Emitted(LsdValue(ds + [0, 1])) == ds
  {
    var s := ds + [0, 1];
    if ds == [] {
      assert s == [0, 1];
      TenIs62();
    } else {
      var rest := ds[1..];
      var q := LsdValue(rest + [0, 1]);
      var d := LsdValue(s);
      assert d == ds[0] + 62 * q by {
        assert s[1..] == rest + [0, 1];
      }
      assert q >= 62 by {
        NumeralWeight(rest + [0, 1]);
      }
      assert Emitted(d) == [ds[0]] + Emitted(q) by {
        DivModOf(d, q, 62, ds[0]);
        EmittedMore(d);
      }
      EmittedDropsLeading10(rest);
      assert ds == [ds[0]] + rest;
    }
  }

  /** The text of a value given by a numeral of two or more digits whose
      leading digits are not "10" is that numeral. */
  lemma EncodedOfNumeral(input: seq<JByte>, ds: seq<nat>)
    requires |ds| >= 2 && AllDigits(ds) && ds[|ds| - 1] != 0
    requires !(ds[|ds| - 2] == 0 && ds[|ds| - 1] == 1)
    requires BigEndian(input) == LsdValue(ds)
    ensures Encoded(input) == Reverse(Render(Alphabet, ds))
  {
    BitstreamValue(input);
    EmittedOfNumeral(ds);
  }

  /** The text of a value whose numeral is "10" followed by the digits ds
      is ds alone: the leading "10" is lost. */
  lemma EncodedDropsLeading10(input: seq<JByte>, ds: seq<nat>)
    requires AllDigits(ds)
    requires BigEndian(input) == LsdValue(ds + [0, 1])
    ensures Encoded(input) == Reverse(Render(Alphabet, ds))
  {
    BitstreamValue(input);
    EmittedDropsLeading10(ds);
  }

  /** Rendering consecutive digit runs renders each in turn. */
  lemma RenderAppend(alphabet: string, a: seq<nat>, b: seq<nat>)
    requires |alphabet| == 62 && AllDigits(a) && AllDigits(b)
    ensures AllDigits(a + b)
    ensures Render(alphabet, a + b) == Render(alphabet, a) + Render(alphabet, b)
  {
    assert AllDigits(a + b);
  }

  /** Every character of the text is a base-62 digit character. */
  lemma EncodedInAlphabet(input: seq<JByte>)
    ensures forall i :: 0 <= i < |Encoded(input)| ==> Encoded(input)[i] in Alphabet
  {
    OutputInAlphabet(Alphabet, Emitted(Value(Bitstream(input))));
  }

  /** binaryToDecimal: adds 2^i for every '1', where i is the character's
      distance from the end; the sum is the bitstream's big-endian value. */
  method BinaryToDecimal(binaryStream: string) returns (sum: nat)
    ensures sum == Value(binaryStream)
  {
    sum := 0;
    var n := |binaryStream|;
    var i, j := n - 1, 0;
    while i >= 0
      invariant 0 <= j <= n && i == n - 1 - j
      invariant sum == Value(binaryStream[..j]) * Pow(2, n - j)
    {
      var c := binaryStream[j];
      if c == '1' {
        sum := sum + Pow(2, i);
      }
      AccumulateBit(binaryStream, j, i);
      i, j := i - 1, j + 1;
    }
    assert binaryStream[..j] == binaryStream;
  }

  /** decimalToBase62: the emitted digits' characters, reversed. The
      encoder's alphabetChars field is passed in; the source always holds
      the 62-character Alphabet there. */
  method DecimalToBase62(alphabetChars: string, bigInteger: nat) returns (r: string)
    requires |alphabetChars| == 62
    ensures r == Reverse(Render(alphabetChars, Emitted(bigInteger)))
    ensures forall i :: 0 <= i < |r| ==> r[i] in alphabetChars
  {
    var decimal: nat := bigInteger;
    var sb: string := "";
    ghost var digits: seq<nat> := [];
    ghost var all := Emitted(bigInteger);
    while IsGreaterThan62(decimal)
      invariant LoopState(alphabetChars, digits, sb, decimal, all)
      decreases decimal
    {
      PassState(alphabetChars, digits, sb, decimal, all);
      var remainder: nat := decimal % 62;
      sb := sb + [alphabetChars[remainder]];
      digits := digits + [remainder];
      decimal := decimal / 62;
      if IsLessThan62(decimal) {
        sb := sb + [alphabetChars[decimal]];
        digits := digits + [decimal];
      }
    }
    LoopDone(alphabetChars, digits, sb, decimal, all);
    r := Reverse(sb);
    OutputInAlphabet(alphabetChars, all);
  }

  /** Base62Encoding.encode. */
  method Encode(input: seq<JByte>) returns (r: string)
    ensures r == Encoded(input)
  {
    var bits := StringToBinaryStream(input);
    var decimal := BinaryToDecimal(bits);
    r := DecimalToBase62(Alphabet, decimal);
  }
}
