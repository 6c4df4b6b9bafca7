/** Strings of '0' and '1' characters and the unsigned integers they denote,
    most significant bit first. */
module Bits {
  import opened Arith
  import opened Sequences

  /** Every character is a binary digit. */
  ghost predicate IsBinary(s: string)
  {
    forall i :: 0 <= i < |s| ==> s[i] == '0' || s[i] == '1'
  }

  /** The weight of one character: the source adds a power of two exactly
      when the character is '1'. */
  function Bit(c: char): nat
  {
    if c == '1' then 1 else 0
  }

  /** The big-endian value of s: position j carries weight 2^(|s| - 1 - j). */
  function Value(s: string): (v: nat)
    ensures v < Pow(2, |s|)
  {
    if s == [] then 0 else 2 * Value(s[..|s| - 1]) + Bit(s[|s| - 1])
  }

  /** Dropping the last character of p + [c] gives p back. */
  lemma ValueSnoc(p: string, c: char)
    ensures Value(p + [c]) == 2 * Value(p) + Bit(c)
  {
    assert (p + [c])[..|p|] == p;
  }

  /** Value of a concatenation: the front part is shifted left by |b| bits. */
  lemma {:induction false} ValueAppend(a: string, b: string)
    ensures Value(a + b) == Value(a) * Pow(2, |b|) + Value(b)
  {
    if b != [] {
      var p, c := b[..|b| - 1], b[|b| - 1];
      assert b == p + [c];
      assert a + b == (a + p) + [c];
      ValueSnoc(a + p, c);
      ValueSnoc(p, c);
      ValueAppend(a, p);
      var va, vp, pw := Value(a), Value(p), Pow(2, |p|);
      assert Pow(2, |b|) == 2 * pw;
      assert Value(a + b) == 2 * (va * pw + vp) + Bit(c);
      ShiftStep(va, vp, pw, Bit(c));
    } else {
      assert a + b == a;
    }
  }

  /** Cutting s at j splits its value into quotient and remainder by the
      weight of the cut-off tail. */
  lemma ValueCut(s: string, j: nat)
    requires j <= |s|
    ensures Value(s) / Pow(2, |s| - j) == Value(s[..j])
    ensures Value(s) % Pow(2, |s| - j) == Value(s[j..])
  {
    var front, back := s[..j], s[j..];
    assert s == front + back;
    ValueAppend(front, back);
    DivModOf(Value(s), Value(front), Pow(2, |back|), Value(back));
  }

  /** The arithmetic of shifting one more bit in. */
  lemma ShiftStep(va: int, vp: int, pw: int, bit: int)
    ensures 2 * (va * pw + vp) + bit == va * (2 * pw) + (2 * vp + bit)
  {
  }

  /** The arithmetic of one accumulator step: a bit that will be shifted
      left once more carries twice its current weight. */
  lemma WeightStep(v: int, bit: int, pw: int)
    ensures v * (2 * pw) + bit * pw == (2 * v + bit) * pw
  {
  }

  /** One step of the accumulators that add 2^i for every '1' at distance i
      from the end: the prefix value so far, still to be shifted over i + 1
      more positions, plus the next bit's weight, is the longer prefix's
      value shifted over i positions. */
  lemma AccumulateBit(s: string, j: nat, i: nat)
    requires j < |s| && i == |s| - 1 - j
    ensures Value(s[..j]) * Pow(2, i + 1) + Bit(s[j]) * Pow(2, i) == Value(s[..j + 1]) * Pow(2, i)
  {
    assert s[..j + 1] == s[..j] + [s[j]];
    ValueSnoc(s[..j], s[j]);
    WeightStep(Value(s[..j]), Bit(s[j]), Pow(2, i));
  }

  /** Leading '0's do not change the value. */
  lemma {:induction false} ValueLeadingZeros(k: nat, s: string)
    ensures Value(Repeat('0', k) + s) == Value(s)
  {
    ValueZeros(k);
    ValueAppend(Repeat('0', k), s);
  }

  /** A string of '0's has value 0. */
  lemma {:induction false} ValueZeros(k: nat)
    ensures Value(Repeat('0', k)) == 0
  {
    if k > 0 {
      RepeatSnoc('0', k - 1);
      ValueSnoc(Repeat('0', k - 1), '0');
      ValueZeros(k - 1);
    }
  }

  /** The w-bit binary numeral of v, most significant bit first, left-padded
      with '0'. This is the reference for what one byte contributes. */
  function BitsOf(v: nat, w: nat): (r: string)
    ensures |r| == w
    ensures v < Pow(2, w) ==> Value(r) == v
  {
    if w == 0 then []
    else
      var p := BitsOf(v / 2, w - 1);
      var c := if v % 2 == 1 then '1' else '0';
      ValueSnoc(p, c);
      p + [c]
  }

  /** The fixed-width numeral is made of binary digits. */
  lemma {:induction false} BitsOfBinary(v: nat, w: nat)
    ensures IsBinary(BitsOf(v, w))
  {
    if w > 0 {
      BitsOfBinary(v / 2, w - 1);
    }
  }

  /** A binary string is the fixed-width numeral of its own value. */
  lemma {:induction false} BinaryCanonical(s: string)
    requires IsBinary(s)
    ensures BitsOf(Value(s), |s|) == s
  {
    if s != [] {
      var p, c := s[..|s| - 1], s[|s| - 1];
      assert s == p + [c];
      assert IsBinary(p);
      ValueSnoc(p, c);
      assert Value(s) / 2 == Value(p);
      assert (Value(s) % 2 == 1) == (c == '1');
      BinaryCanonical(p);
    }
  }
}
