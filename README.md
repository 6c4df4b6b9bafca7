# BaseEncoding in Dafny

A model of `BaseEncoding`, a small one-way text encoder with three entry
points: `toBase62`, `toBase64` and `toBase64WithPadding`. All three run the
same pipeline:

1. The input's UTF-8 bytes become a string of `'0'`/`'1'` characters, eight
   per byte, most significant bit first (`stringToBinaryStream`,
   `byteToBinaryStream`, `padTo8bits`).
2. For base 62, that bitstream is read as one unsigned integer by adding
   2^i for every `'1'` (`binaryToDecimal`). The integer is then written in
   base 62 by repeated division (`decimalToBase62`).
3. For base 64, the bitstream is cut into 6-bit groups, the last one filled
   up with `'0'` (`splitInto6bit`). Each group selects one alphabet
   character (`binaryToBase64`, `binaryToDecimal`). `'='` is optionally
   appended up to a multiple of four characters (`appendPaddingCharacter`).

The loops of the source are `method`s with loop invariants. Each one is
proved against a specification function:

- `Bits.Value` is the big-endian value of a bit string.
- `BitStream.Bitstream` is the bitstream of a byte sequence.
- `Base62.Emitted` gives the digits the base-62 loop appends.
- `Base64.Sextets` gives the 6-bit groups.
- `Base64.PaddingFor` gives the padding.

Three reference definitions serve as partners for those functions:

- `Base62.Numeral` is the standard base-62 numeral.
- `Base62.LowDigits` gives the k low digits of a number.
- Module `Rfc4648` is the base64 of section 4 of RFC 4648, computed
  independently by masking and shifting bytes.

The lemmas connect the source's pipeline to these definitions.

The base-62 loop runs while the value is `> 62` and adds the last digit only
when the quotient is `< 62`. A value or quotient of exactly 62 therefore
falls between the two tests. The model keeps this behaviour exactly as
written. `Base62.EncodedQuirk` and `Base62.EmittedDropsLeading10` say what
comes out in that case. `BaseEncoding.QuotientOf62` gives a two-byte input
for which the output is `"0"`, where the base-62 numeral is `"100"`.

Modules, one file each:

| module | contents |
|---|---|
| `Arith` | `Pow` and facts about division |
| `Sequences` | repetition, reversal, concatenation |
| `Bits` | bit strings and their values |
| `BitStream` | the first stage |
| `Base62` | the base-62 stage |
| `Base64` | the base-64 stage |
| `Rfc4648` | the reference encoding |
| `BaseEncoding` | the entry points and the test vectors |

## Model

| member | source | states |
|---|---|---|
| BitStream.Unsigned | src/main/java/BaseEncoding.java:45 | `b & 0xFF` is the byte's unsigned value: `b` for a non-negative byte, `b + 256` for a negative one, always below 256 |
| BitStream.BinaryString | src/main/java/BaseEncoding.java:45 | `Integer.toBinaryString` gives binary digits worth the argument, starting with '1' unless the argument is 0 (then "0"), at most k digits for a value below 2^k |
| BitStream.PadTo8Bits | src/main/java/BaseEncoding.java:48-55 | prepends exactly `8 - length` zeros (none when the string is already 8 long), keeps the value, and gives length 8 for inputs of at most 8 characters |
| BitStream.ByteToBinaryStream | src/main/java/BaseEncoding.java:44-46 | the result is the 8-bit big-endian numeral of `b & 0xFF` |
| BitStream.StringToBinaryStream | src/main/java/BaseEncoding.java:35-42 | the loop appends one 8-bit block per byte, in byte order, giving the bitstream of the bytes |
| BitStream.Bitstream | src/main/java/BaseEncoding.java:35-42 | the bitstream is exactly 8 characters per byte long |
| BitStream.BigEndian | src/main/java/BaseEncoding.java:69-80 | the bytes read as one big-endian unsigned integer, the number `binaryToDecimal` sums up, are below 256^n for n bytes |
| BitStream.BitstreamBinary | src/main/java/BaseEncoding.java:35-55 | the bitstream holds only '0' and '1' |
| BitStream.BitstreamBlock | src/main/java/BaseEncoding.java:38-46 | characters 8k to 8k+7 of the bitstream are the 8-bit numeral of byte k |
| BitStream.BitstreamAppend | src/main/java/BaseEncoding.java:38-40 | the bitstream of two byte runs is the concatenation of their bitstreams |
| BitStream.BitstreamValue | src/main/java/BaseEncoding.java:35-46 | the bitstream denotes the bytes read as one big-endian unsigned integer, which is below 2^(8n) |
| Bits.BitsOf | src/main/java/BaseEncoding.java:44-55 | the w-bit numeral has length w and denotes v whenever v < 2^w |
| Bits.BitsOfBinary | src/main/java/BaseEncoding.java:44-55 | the fixed-width numeral holds only '0' and '1' |
| Bits.Value | src/main/java/BaseEncoding.java:159-168 | the big-endian value of a bit string, the sum of 2^j over its '1's, is below 2^length |
| Bits.BinaryCanonical | src/main/java/BaseEncoding.java:44-55 | a binary string is the fixed-width numeral of its own value, so padding a binary string and reading it back loses nothing |
| Bits.ValueLeadingZeros | src/main/java/BaseEncoding.java:51-53 | inserting '0's in front leaves the value unchanged |
| Bits.ValueAppend | src/main/java/BaseEncoding.java:73-78 | the value of a concatenation shifts the front part left by the length of the back part |
| Bits.ValueCut | src/main/java/BaseEncoding.java:159-168 | cutting a bit string splits its value into quotient and remainder by a power of two |
| Bits.AccumulateBit | src/main/java/BaseEncoding.java:73-78 | one accumulator step: adding 2^i for a '1' at distance i from the end extends the value by that bit |
| Sequences.RepeatSnoc | src/main/java/BaseEncoding.java:134-136 | appending one more copy of a character gives one more copy |
| Sequences.Reverse | src/main/java/BaseEncoding.java:96 | `reverse` keeps the length and puts character k at position length - 1 - k |
| Sequences.ReverseAppend | src/main/java/BaseEncoding.java:96 | reversing a concatenation reverses the order of the parts |
| Base62.DigitChar | src/main/java/BaseEncoding.java:20 | digit v is '0'-'9' for 0-9, 'A'-'Z' for 10-35 and 'a'-'z' for 36-61 |
| Base62.Numeral | src/main/java/BaseEncoding.java:82-97 | reference: the standard base-62 numeral has digits below 62, denotes n, is empty only for 0 and has no leading zero |
| Base62.LowDigits | src/main/java/BaseEncoding.java:87-95 | reference: the k low digits of n are k digits below 62 that denote n mod 62^k |
| Base62.Emitted | src/main/java/BaseEncoding.java:87-95 | the digits the loop appends are all below 62, and there are none exactly when the value is at most 62 |
| Base62.Render | src/main/java/BaseEncoding.java:89-93 | character i of the text is the alphabet character of digit i |
| Base62.IsGreaterThan62 | src/main/java/BaseEncoding.java:99-101 | a value that passes the loop test has a quotient by 62 that is at least 1 and below the value, so each pass makes progress |
| Base62.IsLessThan62 | src/main/java/BaseEncoding.java:103-105 | a value that passes the test is a valid alphabet index, and a value fails both this test and `isGreaterDecimalThan62` exactly when it is 62 |
| Base62.BinaryToDecimal | src/main/java/BaseEncoding.java:69-80 | the sum of 2^i over the '1's is the big-endian value of the bitstream; the loop keeps the prefix value weighted by its final position |
| Base62.PassState | src/main/java/BaseEncoding.java:87-95 | one pass on a value above 62 appends the remainder's character, and the quotient's when the quotient is below 62; the digits appended so far plus those still to come from the quotient remain the whole output |
| Base62.LoopDone | src/main/java/BaseEncoding.java:87-96 | once the value is at most 62 the builder holds the characters of the whole output |
| Base62.DecimalToBase62 | src/main/java/BaseEncoding.java:82-97 | the text is the emitted digits' characters, reversed, and every character is an alphabet character |
| Base62.OutputInAlphabet | src/main/java/BaseEncoding.java:89-96 | every character of the reversed text is an alphabet character |
| Base62.Encode | src/main/java/BaseEncoding.java:65-67 | the encoder returns the reversed characters of the digits emitted for the bitstream's value |
| Base62.Encoded | src/main/java/BaseEncoding.java:65-105 | every character of the base-62 text of any input is a base-62 alphabet character |
| Base62.EncodedSmall | src/main/java/BaseEncoding.java:87-101 | a value of at most 62, the empty input included, gives the empty text |
| Base62.EmittedStandard | src/main/java/BaseEncoding.java:87-95 | for a value n above 62 of which no quotient n / 62^k equals 62, the loop emits the standard numeral of n and loses no digit |
| Base62.EncodedStandard | src/main/java/BaseEncoding.java:65-105 | above 62 and with no quotient equal to 62, the text is the standard base-62 numeral of the input's value, most significant digit first |
| Base62.EmittedAtQuotient62 | src/main/java/BaseEncoding.java:87-105 | if the k-th quotient is exactly 62, the loop emits only the k low digits, which denote n mod 62^k |
| Base62.EncodedQuirk | src/main/java/BaseEncoding.java:65-105 | if the k-th quotient is exactly 62, the text is the k low digits of the input's value and has length k |
| Base62.EmittedOfNumeral | src/main/java/BaseEncoding.java:87-95 | a numeral of two or more digits whose leading digits are not "10" is reproduced exactly |
| Base62.EmittedDropsLeading10 | src/main/java/BaseEncoding.java:87-105 | a numeral that begins with the digits "10" comes out with those two digits lost |
| Base62.EncodedOfNumeral | src/main/java/BaseEncoding.java:65-105 | the text of an input whose value has such a numeral is that numeral |
| Base62.EncodedDropsLeading10 | src/main/java/BaseEncoding.java:65-105 | the text of an input whose numeral is "10" followed by ds is ds alone |
| Base62.EncodedInAlphabet | src/main/java/BaseEncoding.java:89-96 | every character of the base-62 text is in the base-62 alphabet |
| Base62.LsdAppend | src/main/java/BaseEncoding.java:87-95 | the value of consecutive digit runs weighs the higher run by 62 to the length of the lower one |
| Base64.StringBuilder.constructor | src/main/java/BaseEncoding.java:147 | a new builder is empty |
| Base64.StringBuilder.Append | src/main/java/BaseEncoding.java:148-152 | `append` keeps the content and adds the string at the end |
| Base64.SplitInto6Bit | src/main/java/BaseEncoding.java:123-140 | the loop's groups, plus the zero-filled last group when there is a remainder, are the 6-bit groups of the bitstream |
| Base64.Sextets | src/main/java/BaseEncoding.java:123-140 | every 6-bit group is exactly six characters long, the last one included |
| Base64.IsRequiredPadFor6Bits | src/main/java/BaseEncoding.java:142-144 | for a remainder in 0-5 the test holds exactly when the 6 - remainder fill characters make less than a whole group; what the test means for the grouping is the contract of `Base64.PadTestAddsGroup` |
| Base64.PadTestAddsGroup | src/main/java/BaseEncoding.java:126-144 | the test on len % 6 holds exactly when the grouping has len / 6 + 1 groups, and fails exactly when it has len / 6 |
| Base64.SextetsShape | src/main/java/BaseEncoding.java:123-140 | there are ceil(len / 6) groups of exactly 6 characters, and together they are the bitstream followed by (6 - len % 6) % 6 zeros |
| Base64.SextetsAppend | src/main/java/BaseEncoding.java:129-131 | bits that fill whole groups are grouped independently of what follows |
| Base64.LastSextet | src/main/java/BaseEncoding.java:132-137 | fewer than six bits left make one last group, filled up with '0' |
| Base64.SextetsBelow64 | src/main/java/BaseEncoding.java:150-151 | every 6-character group has a value below 64, so `charAt` gets a valid index |
| Base64.BinaryToDecimal | src/main/java/BaseEncoding.java:159-168 | the sum of 2^j over the '1's is the big-endian value of the group |
| Base64.Symbols | src/main/java/BaseEncoding.java:148-152 | one character per group, character k being the alphabet character of group k's value |
| Base64.SymbolsAppend | src/main/java/BaseEncoding.java:148-152 | the characters of consecutive group runs are concatenated |
| Base64.Text | src/main/java/BaseEncoding.java:146-157 | the text starts with one character per group; with padding its length is a multiple of 4, without it has exactly one character per group |
| Base64.PaddingFor | src/main/java/BaseEncoding.java:170-176 | the padding is only '=', fewer than four, and brings the length to a multiple of 4 |
| Base64.AppendPaddingCharacter | src/main/java/BaseEncoding.java:170-176 | the builder keeps its content and gains exactly the padding for its length |
| Base64.BinaryToBase64 | src/main/java/BaseEncoding.java:146-157 | the text is one character per group, followed by the padding when the encoder pads |
| Base64.Encode | src/main/java/BaseEncoding.java:119-121 | the encoder returns the text of the 6-bit groups of the bitstream |
| Base64.Encoded | src/main/java/BaseEncoding.java:119-176 | the padded text has a length that is a multiple of 4; the unpadded text has ceil(8n / 6) characters for n bytes |
| Base64.EncodedLength | src/main/java/BaseEncoding.java:146-152 | the unpadded text has ceil(8n / 6) characters for n bytes |
| Base64.EncodedInAlphabet | src/main/java/BaseEncoding.java:146-176 | every character is in the base-64 alphabet, except the padding tail, which is all '=' |
| Base64.EncodedAfterGroup | src/main/java/BaseEncoding.java:119-157 | three leading bytes are written as four characters of their own, and the padding depends only on the bytes after them |
| Base64.PadCount | src/main/java/BaseEncoding.java:170-176 | at most two '=' follow the text of whole bytes |
| Base64.PaddingOfLength | src/main/java/BaseEncoding.java:170-176 | after the ceil(8n / 6) characters of n bytes, padding adds nothing, "==" or "=" as n mod 3 is 0, 1 or 2 |
| Base64.PaddedByRemainder | src/main/java/BaseEncoding.java:153-155 | the padded text is the unpadded text followed by nothing, "==" or "=" as n mod 3 is 0, 1 or 2 |
| Rfc4648.AlphabetIsTable1 | src/main/java/BaseEncoding.java:21 | the base-64 alphabet constant is Table 1 of RFC 4648 |
| Rfc4648.Encode | src/main/java/BaseEncoding.java:119-176 | reference: the RFC 4648 text has four characters for every group of up to three bytes |
| Rfc4648.QuantumText | src/main/java/BaseEncoding.java:123-168 | the four groups of three bytes' 24 bits give the four characters RFC 4648 computes by masking and shifting |
| Rfc4648.WholeGroup | src/main/java/BaseEncoding.java:119-168 | three bytes encode, unpadded, to the RFC 4648 quantum of those bytes |
| Rfc4648.OneByteGroup | src/main/java/BaseEncoding.java:132-176 | a single byte encodes, padded, to two characters and "==" as RFC 4648 prescribes |
| Rfc4648.TwoByteGroup | src/main/java/BaseEncoding.java:132-176 | two bytes encode, padded, to three characters and "=" as RFC 4648 prescribes |
| Rfc4648.PaddedIsRfc4648 | src/main/java/BaseEncoding.java:119-176 | the padded encoder computes exactly the base64 of section 4 of RFC 4648, for every input |
| BaseEncoding.ToBase62 | src/main/java/BaseEncoding.java:8-10 | the base-62 text uses only alphabet characters, is empty for values up to 62, and, for a value above 62 of which no quotient is 62, is the standard numeral |
| BaseEncoding.ToBase64 | src/main/java/BaseEncoding.java:11-13 | the unpadded text has ceil(8n / 6) alphabet characters and, followed by the right number of '=', is the RFC 4648 text |
| BaseEncoding.ToBase64WithPadding | src/main/java/BaseEncoding.java:14-16 | the padded text is the RFC 4648 text, four characters per group of up to three bytes, and is the unpadded text plus at most two '=' |
| BaseEncoding.EmptyInput | src/main/java/BaseEncoding.java:8-16 | empty input gives empty text from all three entry points |
| BaseEncoding.HelloWorldValue | src/test/java/BaseEncodingTest.java:9 | the bytes of "Hello World!" read as the big-endian integer 22405534230753928650781647905 |
| BaseEncoding.HelloWorldNumeral | src/test/java/BaseEncodingTest.java:8-13 | the 16 digits of "T8dgcjRGkZ3aysdN", least significant first, denote that value |
| BaseEncoding.HelloWorldBase62 | src/test/java/BaseEncodingTest.java:8-13 | toBase62("Hello World!") is "T8dgcjRGkZ3aysdN" |
| BaseEncoding.IfElseIfRfc4648 | src/test/java/BaseEncodingTest.java:23-29 | the RFC 4648 text of "if-else-if" is "aWYtZWxzZS1pZg==" |
| BaseEncoding.IfElseIfPadded | src/test/java/BaseEncodingTest.java:23-29 | toBase64WithPadding("if-else-if") is "aWYtZWxzZS1pZg==" |
| BaseEncoding.TenBytesUnpadded | src/main/java/BaseEncoding.java:153-155 | for ten bytes the unpadded text is the padded text without its last two characters |
| BaseEncoding.IfElseIfUnpadded | src/test/java/BaseEncodingTest.java:15-21 | toBase64("if-else-if") is "aWYtZWxzZS1pZg" |
| BaseEncoding.StandardNumerals | src/main/java/BaseEncoding.java:82-97 | the standard numerals of 62 and 62^2 are "10" and "100" |
| BaseEncoding.QuotientOf62 | src/main/java/BaseEncoding.java:87-95 | the bytes 0x0F 0x04 denote 3844 = 62^2, and the encoder returns "0" for them |
| BaseEncoding.ValueOf62 | src/main/java/BaseEncoding.java:87-101 | the single byte 62 gives the empty text |

## Left out

- UTF-8 conversion (`getBytes(UTF_8)`, line 37) is not modelled. The input is the byte sequence it returns, as Java's signed bytes.
- `Integer.toBinaryString` is a library call. `BitStream.BinaryString` stands for it on the values 0-255 that `b & 0xFF` yields.
- `BigInteger` (lines 32-33, 69-105) is the unbounded `nat`. The cost of `BASE_NUMBER.pow(i)` is not modelled.
- Base64.BinaryToDecimal: does not model `Math.pow` as a double cast to `int`, nor 32-bit `int` overflow. It is only applied to 6-character groups, where 2^j is exact and the sum stays below 64.
- The abstract class, its `encode` dispatch and the three static singletons (lines 6, 18, 24-26, 57-62, 108-116) are not modelled as objects. They become the three entry-point methods, with the padding flag passed in. The base-64 steps read the module constant `Base64.Alphabet` instead of an `alphabetChars` field, because the only base-64 encoders (lines 25-26) are built with that constant.
- `Base62.DecimalToBase62` takes the encoder's `alphabetChars` field as a parameter. It is stated for any 62-character alphabet, and the encoder always passes the base-62 alphabet constant.
- The builders local to one method (lines 36, 49, 84, 133) are local `string` variables. Only the builder that `appendPaddingCharacter` extends for its caller is an object (`Base64.StringBuilder`).
- `sb.insert(0, "0")` in `padTo8bits` is modelled as prepending to the string, not as shifting characters in a buffer.
- The JUnit test harness contributes only its three vectors, stated as lemmas.
- There is no decoding in the source, and none in the model.
