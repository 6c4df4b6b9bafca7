/** The base-64 encoder (Base64Encoding): the bitstream is cut into 6-bit
    groups, each group picks one alphabet character, and '=' optionally pads
    the text to a multiple of four characters. */
module Base64 {
  import opened Arith
  import opened Sequences
  import opened Bits
  import opened BitStream

  /** The 64 characters, indexed by group value: the source's constant,
      written as its four runs. */
  const Alphabet: string := "ABCDEFGHIJKLMNOPQRSTUVWXYZ" + "abcdefghijklmnopqrstuvwxyz" + "0123456789" + "+/"

  /** The padding character. */
  const PaddingChar: char := '='

  /** The character buffer that binaryToBase64 fills and that
      appendPaddingCharacter extends in place. */
  class StringBuilder {
    var content: string

    constructor ()
      ensures content == []
    {
      content := [];
    }

    method Append(s: string)
      modifies this
      ensures content == old(content) + s
    {
      content := content + s;
    }
  }

  /** The groups joined back together. */
  function Concat(gs: seq<string>): string
  {
    if gs == [] then [] else gs[0] + Concat(gs[1..])
  }

  /** The 6-bit groups of a bitstream, left to right, the last one filled up
      with '0' on the right. */
  function Sextets(bits: string): (gs: seq<string>)
    ensures forall k :: 0 <= k < |gs| ==> |gs[k]| == 6
    decreases |bits|
  {
    if |bits| == 0 then []
    else if |bits| < 6 then [bits + Repeat('0', 6 - |bits|)]
    else [bits[..6]] + Sextets(bits[6..])
  }

  /** The grouping takes ceil(|bits| / 6) groups of exactly six characters
      that join up to the bits followed by (6 - |bits| % 6) % 6 zeros: no
      group is added for a length divisible by 6, none for empty bits. */
  lemma {:induction false} SextetsShape(bits: string)
    ensures |Sextets(bits)| == (|bits| + 5) / 6
    ensures forall k :: 0 <= k < |Sextets(bits)| ==> |Sextets(bits)[k]| == 6
    ensures Concat(Sextets(bits)) == bits + Repeat('0', (6 - |bits| % 6) % 6)
    decreases |bits|
  {
    if |bits| == 0 {
    } else if |bits| < 6 {
      ConcatCons(bits + Repeat('0', 6 - |bits|), []);
    } else {
      var g, tail := bits[..6], bits[6..];
      var rest := Sextets(tail);
      assert Sextets(bits) == [g] + rest;
      SextetsShape(tail);
      SextetArithmetic(|bits|);
      var zeros := Repeat('0', (6 - |bits| % 6) % 6);
      assert Concat([g] + rest) == g + (tail + zeros) by {
        ConcatCons(g, rest);
      }
      assert g + (tail + zeros) == bits + zeros by {
        assert bits == g + tail;
        ConcatAssoc(g, tail, zeros);
      }
    }
  }

  /** Joining a group in front of others. */
  lemma ConcatCons(g: string, gs: seq<string>)
    ensures Concat([g] + gs) == g + Concat(gs)
  {
    assert ([g] + gs)[1..] == gs;
  }

  /** Group count and zero padding are unchanged by cutting off six bits. */
  lemma SextetArithmetic(n: nat)
    requires n >= 6
    ensures (n + 5) / 6 == (n - 6 + 5) / 6 + 1
    ensures (6 - n % 6) % 6 == (6 - (n - 6) % 6) % 6
  {
  }

  /** Bits that fill whole groups are grouped independently of what follows. */
  lemma {:induction false} SextetsAppend(x: string, y: string)
    requires |x| % 6 == 0
    ensures Sextets(x + y) == Sextets(x) + Sextets(y)
    decreases |x|
  {
    if x == [] {
      assert x + y == y;
    } else {
      assert (x + y)[..6] == x[..6];
      assert (x + y)[6..] == x[6..] + y;
      SextetsAppend(x[6..], y);
    }
  }

  /** Cutting the next whole group off the bits still to be split. */
  lemma SextetsStep(bits: string, i: nat)
    requires i + 6 <= |bits|
    ensures Sextets(bits[i..]) == [bits[i..i + 6]] + Sextets(bits[i + 6..])
  {
    assert bits[i..][..6] == bits[i..i + 6];
    assert bits[i..][6..] == bits[i + 6..];
  }

  /** The whole groups of n bits take n - n % 6 bits. */
  lemma WholeGroupsLength(n: nat)
    ensures n - n % 6 == 6 * (n / 6) && 0 <= n % 6 < 6
  {
  }

  /** The state of splitInto6bit after the whole groups before i: those
      groups followed by the groups of the bits from i on are all groups. */
  ghost predicate SplitState(bits: string, i: nat, arr: seq<string>, all: seq<string>)
  {
    i <= |bits| && arr + Sextets(bits[i..]) == all
  }

  /** Taking the next six bits as a group keeps the state. */
  lemma SplitStep(bits: string, i: nat, arr: seq<string>, all: seq<string>)
    requires i + 6 <= |bits| && SplitState(bits, i, arr, all)
    ensures SplitState(bits, i + 6, arr + [bits[i..i + 6]], all)
  {
    SextetsStep(bits, i);
    ConcatAssoc(arr, [bits[i..i + 6]], Sextets(bits[i + 6..]));
  }

  /** Fewer than six bits left, filled up with '0', make the last group. */
  lemma LastSextet(bits: string, i: nat, arr: seq<string>, all: seq<string>, k: nat, g: string)
    requires SplitState(bits, i, arr, all)
    requires 0 < |bits| - i < 6 && k == 6 - (|bits| - i) && g == bits[i..] + Repeat('0', k)
    ensures arr + [g] == all
  {
    assert Sextets(bits[i..]) == [g];
  }

  /** No bits left add no group. */
  lemma NoLastSextet(bits: string, i: nat, arr: seq<string>, all: seq<string>)
    requires SplitState(bits, i, arr, all) && i == |bits|
    ensures arr == all
  {
    assert bits[i..] == [];
    assert arr + [] == arr;
  }

  /** Every group denotes an index into Alphabet, as charAt demands. */
  predicate ValuesBelow64(gs: seq<string>)
  {
    forall k :: 0 <= k < |gs| ==> Value(gs[k]) < 64
  }

  /** A 6-character group has a value in [0, 63]. */
  lemma SextetsBelow64(gs: seq<string>)
    requires forall k :: 0 <= k < |gs| ==> |gs[k]| == 6
    ensures ValuesBelow64(gs)
  {
    assert Pow(2, 6) == 64;
  }

  /** The character each group selects. */
  function Symbols(gs: seq<string>): (r: string)
    requires ValuesBelow64(gs)
    ensures |r| == |gs|
    ensures forall k :: 0 <= k < |gs| ==> r[k] == Alphabet[Value(gs[k])]
  {
    seq(|gs|, k requires 0 <= k < |gs| => Alphabet[Value(gs[k])])
  }

  /** The characters of consecutive group runs are concatenated. */
  lemma SymbolsAppend(g1: seq<string>, g2: seq<string>)
    requires ValuesBelow64(g1) && ValuesBelow64(g2)
    ensures ValuesBelow64(g1 + g2)
    ensures Symbols(g1 + g2) == Symbols(g1) + Symbols(g2)
  {
    var gs := g1 + g2;
    forall k | 0 <= k < |gs|
      ensures gs[k] == if k < |g1| then g1[k] else g2[k - |g1|]
    {
    }
    assert ValuesBelow64(gs);
    var r := Symbols(g1) + Symbols(g2);
    forall k | 0 <= k < |gs|
      ensures Symbols(gs)[k] == r[k]
    {
      if k < |g1| {
        assert r[k] == Symbols(g1)[k];
      } else {
        assert r[k] == Symbols(g2)[k - |g1|];
      }
    }
  }

  /** The '=' characters appendPaddingCharacter adds to a text of length
      len: none when len is a multiple of 4, otherwise just enough to reach
      the next multiple of 4. */
  function PaddingFor(len: nat): (p: string)
    ensures forall i :: 0 <= i < |p| ==> p[i] == PaddingChar
    ensures (len + |p|) % 4 == 0 && |p| < 4
  {
    if len % 4 == 0 then [] else Repeat(PaddingChar, 4 - len % 4)
  }

  /** Four more characters need the same padding. */
  lemma PaddingAfterGroup(len: nat)
    ensures PaddingFor(4 + len) == PaddingFor(len)
  {
    assert (4 + len) % 4 == len % 4;
  }

  /** The text binaryToBase64 builds from the groups: one character per
      group, then the padding when the encoder pads. */
  function Text(gs: seq<string>, isPadding: bool): (r: string)
    requires ValuesBelow64(gs)
    ensures |gs| <= |r| && r[..|gs|] == Symbols(gs)
    ensures isPadding ==> |r| % 4 == 0
    ensures !isPadding ==> |r| == |gs|
  {
    Symbols(gs) + (if isPadding then PaddingFor(|gs|) else [])
  }

  /** The base-64 text the encoder returns for the bytes `input`. */
  function Encoded(input: seq<JByte>, isPadding: bool): (r: string)
    ensures isPadding ==> |r| % 4 == 0
    ensures !isPadding ==> |r| == (8 * |input| + 5) / 6
  {
    var gs := Sextets(Bitstream(input));
    SextetsShape(Bitstream(input));
    SextetsBelow64(gs);
    Text(gs, isPadding)
  }

  /** Three leading bytes are 24 bits: exactly four whole groups, followed
      by the groups of the remaining bytes. */
  lemma GroupsAfterGroup(c: seq<JByte>, rest: seq<JByte>)
    requires |c| == 3
    ensures Sextets(Bitstream(c + rest)) == Sextets(Bitstream(c)) + Sextets(Bitstream(rest))
    ensures |Sextets(Bitstream(c))| == 4
  {
    var b := Bitstream(c);
    assert |b| == 24;
    BitstreamAppend(c, rest);
    SextetsAppend(b, Bitstream(rest));
    SextetsShape(b);
  }

  /** Four leading groups are written on their own; the padding is decided
      by the groups that follow. */
  lemma TextAfterGroup(gx: seq<string>, gy: seq<string>, isPadding: bool)
    requires |gx| == 4 && ValuesBelow64(gx) && ValuesBelow64(gy)
    ensures ValuesBelow64(gx + gy)
    ensures Text(gx + gy, isPadding) == Text(gx, false) + Text(gy, isPadding)
  {
    SymbolsAppend(gx, gy);
    PaddingAfterGroup(|gy|);
    var tail := if isPadding then PaddingFor(|gy|) else [];
    assert Text(gx + gy, isPadding) == (Symbols(gx) + Symbols(gy)) + tail;
  }

  /** Three leading bytes encode on their own, without padding. */
  lemma EncodedAfterGroup(c: seq<JByte>, rest: seq<JByte>, isPadding: bool)
    requires |c| == 3
    ensures Encoded(c + rest, isPadding) == Encoded(c, false) + Encoded(rest, isPadding)
  {
    var gx, gy := Sextets(Bitstream(c)), Sextets(Bitstream(rest));
    GroupsAfterGroup(c, rest);
    SextetsShape(Bitstream(c));
    SextetsShape(Bitstream(rest));
    SextetsBelow64(gx);
    SextetsBelow64(gy);
    TextAfterGroup(gx, gy, isPadding);
  }

  /** The unpadded text has one character per group: ceil(8n / 6) for n
      bytes. */
  lemma EncodedLength(input: seq<JByte>)
    ensures |Encoded(input, false)| == (8 * |input| + 5) / 6
  {
    SextetsShape(Bitstream(input));
  }

  /** Every character of the text is an alphabet character, or the padding
      character in the padded tail. */
  lemma EncodedInAlphabet(input: seq<JByte>, isPadding: bool)
    ensures forall i :: 0 <= i < |Encoded(input, false)| ==> Encoded(input, isPadding)[i] in Alphabet
    ensures forall i :: |Encoded(input, false)| <= i < |Encoded(input, isPadding)| ==> Encoded(input, isPadding)[i] == PaddingChar
  {
    var gs := Sextets(Bitstream(input));
    SextetsShape(Bitstream(input));
    SextetsBelow64(gs);
    forall i | 0 <= i < |gs| ensures Symbols(gs)[i] in Alphabet {
      assert Symbols(gs)[i] == Alphabet[Value(gs[i])];
    }
  }

  /** The number of '=' the padded text ends with for n bytes: none, two
      or one for n mod 3 = 0, 1, 2. */
  function PadCount(n: nat): (k: nat)
    ensures k <= 2
  {
    if n % 3 == 0 then 0 else if n % 3 == 1 then 2 else 1
  }

  /** ceil(8n / 6) is 4 (n / 3) plus 0, 2 or 3 characters for the last
      partial group of bytes. */
  lemma GroupCount(n: nat)
    ensures (8 * n + 5) / 6 == 4 * (n / 3) + (if n % 3 == 0 then 0 else n % 3 + 1)
  {
    var m, r := n / 3, n % 3;
    assert 8 * n + 5 == 6 * (4 * m) + (8 * r + 5);
    var t := if r == 0 then 0 else r + 1;
    DivModUnique(8 * n + 5, 6, 4 * m + t, 8 * r + 5 - 6 * t);
  }

  /** The padding for a text of 4m + t characters is that for t. */
  lemma PaddingForRest(m: nat, t: nat)
    requires t < 4
    ensures PaddingFor(4 * m + t) == PaddingFor(t)
  {
    DivModOf(4 * m + t, m, 4, t);
  }

  /** The padding after the ceil(8n / 6) characters of n bytes. */
  lemma PaddingOfLength(n: nat)
    ensures PaddingFor((8 * n + 5) / 6) == Repeat(PaddingChar, PadCount(n))
  {
    GroupCount(n);
    var t := if n % 3 == 0 then 0 else n % 3 + 1;
    PaddingForRest(n / 3, t);
    if n % 3 == 1 {
      assert PaddingFor(2) == Repeat(PaddingChar, 2);
    } else if n % 3 == 2 {
      assert PaddingFor(3) == Repeat(PaddingChar, 1);
    }
  }

  /** Padding appends "", "==" or "=" to the unpadded text, as n mod 3 is
      0, 1 or 2: never more than two characters. */
  lemma PaddedByRemainder(input: seq<JByte>)
    ensures Encoded(input, true) == Encoded(input, false) + Repeat(PaddingChar, PadCount(|input|))
  {
    var gs := Sextets(Bitstream(input));
    SextetsShape(Bitstream(input));
    SextetsBelow64(gs);
    PaddingOfLength(|input|);
    assert Encoded(input, false) == Symbols(gs);
  }

  /** isRequiredPadFor6bits: whether a partial last group is left over. */
  predicate IsRequiredPadFor6Bits(remainder: int): (r: bool)
    ensures 0 <= remainder < 6 ==> (r <==> 6 - remainder < 6)
  {
    remainder != 0
  }

  /** The test adds a zero-filled group exactly when the whole groups
      leave bits over: otherwise there are just |bits| / 6 groups. */
  lemma PadTestAddsGroup(bits: string)
    ensures IsRequiredPadFor6Bits(|bits| % 6) <==> |Sextets(bits)| == |bits| / 6 + 1
    ensures !IsRequiredPadFor6Bits(|bits| % 6) <==> |Sextets(bits)| == |bits| / 6
  {
    var n := |bits|;
    DivModOf(n + 5, n / 6 + (if n % 6 == 0 then 0 else 1), 6, if n % 6 == 0 then 5 else n % 6 - 1);
  }

  /** splitInto6bit: the whole 6-character groups, then the rest padded
      with '0' to a sixth group when there is a rest. */
  method SplitInto6Bit(binaryStream: string) returns (arr: seq<string>)
    ensures arr == Sextets(binaryStream)
  {
    arr := [];
    var binaryStrLength := |binaryStream|;
    var remainder := binaryStrLength % 6;
    var loopCount := binaryStrLength - remainder;
    ghost var all := Sextets(binaryStream);
    WholeGroupsLength(binaryStrLength);
    var i := 0;
    ghost var groupsLeft: nat := binaryStrLength / 6;
    while i < loopCount
      invariant i + 6 * groupsLeft == loopCount
      invariant SplitState(binaryStream, i, arr, all)
    {
      SplitStep(binaryStream, i, arr, all);
      arr := arr + [binaryStream[i..i + 6]];
      i := i + 6;
      groupsLeft := groupsLeft - 1;
    }
    if IsRequiredPadFor6Bits(remainder) {
      var sb := binaryStream[loopCount..binaryStrLength];
      var j := 0;
      while j < 6 - remainder
        invariant 0 <= j <= 6 - remainder
        invariant sb == binaryStream[loopCount..] + Repeat('0', j)
      {
        assert sb + "0" == binaryStream[loopCount..] + Repeat('0', j + 1) by {
          RepeatSnoc('0', j);
          ConcatAssoc(binaryStream[loopCount..], Repeat('0', j), "0");
        }
        sb := sb + "0";
        j := j + 1;
      }
      assert i == loopCount && |binaryStream[loopCount..]| == remainder;
      LastSextet(binaryStream, i, arr, all, j, sb);
      arr := arr + [sb];
    } else {
      NoLastSextet(binaryStream, i, arr, all);
    }
  }

  /** binaryToDecimal on one group: adds 2^j for every '1', where j is the
      character's distance from the end. */
  method BinaryToDecimal(charArray: string) returns (decimal: int)
    ensures decimal == Value(charArray)
  {
    decimal := 0;
    var n := |charArray|;
    var i, j := 0, n - 1;
    while i < n
      invariant 0 <= i <= n && j == n - 1 - i
      invariant decimal == Value(charArray[..i]) * Pow(2, n - i)
    {
      var c := charArray[i];
      if c == '1' {
        decimal := decimal + Pow(2, j);
      }
      AccumulateBit(charArray, i, j);
      i, j := i + 1, j - 1;
    }
    assert charArray[..i] == charArray;
  }

  /** appendPaddingCharacter: extends the caller's builder with '=' up to
      the next multiple of 4, keeping what it held. */
  method AppendPaddingCharacter(sb: StringBuilder)
    modifies sb
    ensures sb.content == old(sb.content) + PaddingFor(|old(sb.content)|)
  {
    var mod := |sb.content| % 4;
    if mod == 0 {
      return;
    }
    ghost var start := sb.content;
    var i := 0;
    while i < 4 - mod
      invariant 0 <= i <= 4 - mod
      invariant sb.content == start + Repeat(PaddingChar, i)
    {
      RepeatSnoc(PaddingChar, i);
      sb.Append([PaddingChar]);
      i := i + 1;
    }
  }

  /** binaryToBase64: one character per group, then the padding when the
      encoder pads. */
  method BinaryToBase64(list: seq<string>, isPadding: bool) returns (r: string)
    requires ValuesBelow64(list)
    ensures r == Text(list, isPadding)
  {
    var sb := new StringBuilder();
    for k := 0 to |list|
      invariant sb.content == Symbols(list)[..k]
    {
      var decimal := BinaryToDecimal(list[k]);
      assert Symbols(list)[..k + 1] == Symbols(list)[..k] + [Alphabet[decimal]];
      sb.Append([Alphabet[decimal]]);
    }
    assert Symbols(list)[..|list|] == Symbols(list);
    if isPadding {
      AppendPaddingCharacter(sb);
    }
    r := sb.content;
  }

  /** Base64Encoding.encode. */
  method Encode(input: seq<JByte>, isPadding: bool) returns (r: string)
    ensures r == Encoded(input, isPadding)
  {
    var bits := StringToBinaryStream(input);
    var groups := SplitInto6Bit(bits);
    SextetsShape(bits);
    SextetsBelow64(groups);
    r := BinaryToBase64(groups, isPadding);
  }
}
