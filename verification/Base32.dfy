/**
 The unpadded Base32 codec of `totp.ts`. The reference definition is that of section 6 of
 RFC 4648 read as numbers: a byte string is one big-endian number, and its encoding is that
 number, followed by enough zero bits to fill the last letter, written in base 32. The loops
 below instead push bits through a 32-bit shift register whose upper bits are never cleared.
 */
module Base32 {
  import opened Words

  const ALPHABET := "ABCDEFGHIJKLMNOPQRSTUVWXYZ234567"

  type Digit = x: int | 0 <= x < 32

  // ----- positional notation -----

  /** The number that `s` writes with `width` bits a digit, most significant first. */
  function Number(s: seq<nat>, width: nat): nat
  {
    if s == [] then 0 else Scale(Number(s[..|s| - 1], width), width) + s[|s| - 1]
  }

  /** The last `k` digits of `n`, of `width` bits each. */
  function Expand(n: nat, k: nat, width: nat): (s: seq<nat>)
    ensures |s| == k && InWidth(s, width)
  {
    if k == 0 then [] else Expand(Shr(n, width), k - 1, width) + [LowBits(n, width)]
  }

  predicate InWidth(s: seq<nat>, width: nat) { forall i | 0 <= i < |s| :: s[i] < Pow2(width) }

  lemma {:induction false} AppendToNumber(s: seq<nat>, d: nat, width: nat)
    ensures Number(s + [d], width) == Scale(Number(s, width), width) + d
  {
    assert (s + [d])[..|s|] == s;
  }

  lemma {:induction false} ExpandNumber(s: seq<nat>, width: nat)
    requires InWidth(s, width)
    ensures Expand(Number(s, width), |s|, width) == s
  {
    if s != [] {
      var front, last := s[..|s| - 1], s[|s| - 1];
      ExpandNumber(front, width);
      JoinAt(Number(front, width), last, width);
    }
  }

  lemma {:induction false} OneMoreDigit(k: nat, width: nat)
    requires k > 0
    ensures (k - 1) * width >= 0 && (k - 1) * width + width == k * width
  {
  }

  /** A number of `k` digits, less its last one, is a number of `k - 1` digits. */
  lemma {:induction false} FewerDigits(n: nat, k: nat, width: nat)
    requires k > 0 && n < Pow2(k * width)
    ensures (k - 1) * width >= 0 && Shr(n, width) < Pow2((k - 1) * width)
  {
    hide Scale, Shr, LowBits, Pow2;
    OneMoreDigit(k, width);
    var bits: nat := (k - 1) * width;
    SplitAt(n, width);
    Pow2Scale(bits, width);
    ScaleMonotone(Pow2(bits), Shr(n, width), width);
  }

  lemma {:induction false} NumberExpand(n: nat, k: nat, width: nat)
    requires n < Pow2(k * width)
    ensures Number(Expand(n, k, width), width) == n
  {
    hide Scale, Shr, LowBits, Pow2;
    if k == 0 {
      PowersUsed();
    } else {
      SplitAt(n, width);
      FewerDigits(n, k, width);
      NumberExpand(Shr(n, width), k - 1, width);
      AppendToNumber(Expand(Shr(n, width), k - 1, width), LowBits(n, width), width);
    }
  }

  lemma {:induction false} NumberBound(s: seq<nat>, width: nat)
    requires InWidth(s, width)
    ensures Number(s, width) < Pow2(|s| * width)
  {
    if s == [] {
      assert Pow2(|s| * width) == 1;
    } else {
      var k := |s| - 1;
      NumberBound(s[..k], width);
      OneMoreDigit(|s|, width);
      Pow2Scale(k * width, width);
      ScaleRoom(Number(s[..k], width), Pow2(k * width), s[k], width);
    }
  }

  // ----- the alphabet -----

  /** `s.indexOf(c)` */
  function IndexOf(s: string, c: char): (i: int)
    ensures -1 <= i < |s|
    ensures i >= 0 ==> s[i] == c && c !in s[..i]
    ensures i == -1 ==> c !in s
  {
    if s == "" then -1
    else if s[0] == c then 0
    else
      var j := IndexOf(s[1..], c);
      if j == -1 then -1 else assert s[..j + 1] == [s[0]] + s[1..][..j]; j + 1
  }

  predicate InAlphabet(c: char) { 'A' <= c <= 'Z' || '2' <= c <= '7' }

  lemma {:induction false} LetterAt(d: Digit)
    ensures ALPHABET[d] == if d < 26 then 'A' + d as char else '2' + (d - 26) as char
  {
  }

  lemma {:induction false} LetterOfIndex(d: Digit)
    ensures InAlphabet(ALPHABET[d]) && IndexOf(ALPHABET, ALPHABET[d]) == d
  {
    var i := IndexOf(ALPHABET, ALPHABET[d]);
    LetterAt(d);
    if i >= 0 {
      LetterAt(i);
    }
  }

  lemma {:induction false} IndexOfLetter(c: char)
    requires InAlphabet(c)
    ensures 0 <= IndexOf(ALPHABET, c) < 32
  {
    LetterAt(if c >= 'A' then (c - 'A') as int else (c - '2') as int + 26);
  }

  lemma {:induction false} DigitsOfAt(clean: string, i: nat)
    requires (forall c | c in clean :: InAlphabet(c)) && i < |clean|
    ensures DigitsOf(clean)[i] == IndexOf(ALPHABET, clean[i])
  {
  }

  function Letters(digits: seq<Digit>): (s: string)
    ensures |s| == |digits|
  {
    seq(|digits|, i requires 0 <= i < |digits| => ALPHABET[digits[i]])
  }

  /**
   The letters of the alphabet in `c.toUpperCase()`. Beyond the ASCII letters there are seventeen
   characters whose upper case, in the full mapping of the Unicode standard, has such a letter.
   */
  function UpperLetters(c: char): (r: string)
    ensures forall u | u in r :: InAlphabet(u)
    ensures InAlphabet(c) ==> r == [c]
  {
    if InAlphabet(c) then [c]
    else if 'a' <= c <= 'z' then [c - 'a' + 'A']
    else
      match c
      case '\U{DF}' => "SS"
      case '\U{131}' => "I"
      case '\U{149}' => "N"
      case '\U{17F}' => "S"
      case '\U{1F0}' => "J"
      case '\U{1E96}' => "H"
      case '\U{1E97}' => "T"
      case '\U{1E98}' => "W"
      case '\U{1E99}' => "Y"
      case '\U{1E9A}' => "A"
      case '\U{FB00}' => "FF"
      case '\U{FB01}' => "FI"
      case '\U{FB02}' => "FL"
      case '\U{FB03}' => "FFI"
      case '\U{FB04}' => "FFL"
      case '\U{FB05}' => "ST"
      case '\U{FB06}' => "ST"
      case _ => ""
  }

  /** `input.toUpperCase().replace(/[^A-Z2-7]/g, "")` */
  function Clean(s: string): (r: string)
    ensures forall c | c in r :: InAlphabet(c)
  {
    if s == "" then "" else UpperLetters(s[0]) + Clean(s[1..])
  }

  function DigitOf(c: char): Digit
    requires InAlphabet(c)
  {
    IndexOfLetter(c);
    IndexOf(ALPHABET, c)
  }

  function DigitsOf(clean: string): (digits: seq<Digit>)
    requires forall c | c in clean :: InAlphabet(c)
    ensures |digits| == |clean|
  {
    seq(|clean|, i requires 0 <= i < |clean| => DigitOf(clean[i]))
  }

  // ----- the codec as a relation between numbers -----

  /** ceil(8 * n / 5), the number of letters for `n` bytes. */
  function EncodedLength(n: nat): nat { (8 * n + 4) / 5 }

  function Padding(n: nat): (p: nat)
    ensures p < 5
  {
    5 * EncodedLength(n) - 8 * n
  }

  function EncodeDigits(bytes: Bytes): (digits: seq<Digit>)
    ensures |digits| == EncodedLength(|bytes|)
  {
    PowersUsed();
    Expand(Scale(Number(bytes, 8), Padding(|bytes|)), EncodedLength(|bytes|), 5)
  }

  function Encode(bytes: Bytes): (s: string) { Letters(EncodeDigits(bytes)) }

  /** All whole bytes in the digits' bits; up to seven bits at the end are dropped. */
  function DecodeDigits(digits: seq<Digit>): (bytes: Bytes)
  {
    var bits := 5 * |digits|;
    PowersUsed();
    Expand(Shr(Number(digits, 5), bits % 8), bits / 8, 8)
  }

  function Decode(s: string): (bytes: Bytes) { DecodeDigits(DigitsOf(Clean(s))) }

  // ----- one step of the register, as numbers -----

  /** `bits` live bits behind the digits, and `s` more shifted in. */
  lemma {:induction false} ShiftedIn(n: nat, bits: nat, live: nat, s: nat, x: nat, total: nat)
    requires Scale(n, bits) + live == total
    ensures Scale(n, bits + s) + (Scale(live, s) + x) == Scale(total, s) + x
  {
    ScaleTwice(n, bits, s);
    ScaleAdd(Scale(n, bits), live, s);
  }

  /** A digit of `s` bits moves from the register to the output. */
  lemma {:induction false} MovedOut(n: nat, bits: nat, s: nat, d: nat, live: nat, total: nat)
    requires s <= bits && Scale(n, bits) + (Scale(d, bits - s) + live) == total
    ensures Scale(Scale(n, s) + d, bits - s) + live == total
  {
    ScaleTwice(n, s, bits - s);
    ScaleAdd(Scale(n, s), d, bits - s);
  }

  lemma {:induction false} PadLast(value: Word, bits: nat)
    requires bits < 5
    ensures LowBits(Shl(value, 5 - bits), 5) == Scale(LowBits(value, bits), 5 - bits)
  {
    ShiftIn(value, bits, 0, 5 - bits);
  }

  lemma {:induction false} NoLiveBits(n: nat, value: Word)
    ensures Scale(n, 0) == n && LowBits(value, 0) == 0
    ensures Number([], 5) == Number([], 8) == 0
  {
  }

  lemma {:induction false} EncodingIsUnique(bytes: Bytes, digits: seq<Digit>)
    requires |digits| == EncodedLength(|bytes|)
    requires Number(digits, 5) == Scale(Number(bytes, 8), Padding(|bytes|))
    ensures digits == EncodeDigits(bytes)
  {
    PowersUsed();
    ExpandNumber(digits, 5);
  }

  lemma {:induction false} DecodeUnfolds(s: string)
    ensures Decode(s) == DecodeDigits(DigitsOf(Clean(s)))
  {
  }

  lemma {:induction false} DecodingIsUnique(digits: seq<Digit>, bytes: Bytes, live: nat, bits: nat)
    requires bits < 8 && 8 * |bytes| + bits == 5 * |digits| && live < Pow2(bits)
    requires Scale(Number(bytes, 8), bits) + live == Number(digits, 5)
    ensures bytes == DecodeDigits(digits)
  {
    PowersUsed();
    JoinAt(Number(bytes, 8), live, bits);
    ExpandNumber(bytes, 8);
  }

  // ----- the source's loops; `n` and `total` are the numbers written out and read so far -----

  method Base32Encode(buf: Bytes) returns (out: string)
    ensures out == Encode(buf)
  {
    hide Scale, Shr, LowBits, Shl, Or, Number, Pow2, Expand;
    var bits: nat, value: Word := 0, 0;
    out := "";
    ghost var digits: seq<Digit>, n: nat, total: nat := [], 0, 0;
    PowersUsed();
    NoLiveBits(0, 0);
    for i := 0 to |buf|
      invariant bits < 5 && 5 * |digits| + bits == 8 * i
      invariant Scale(n, bits) + LowBits(value, bits) == total
      invariant n == Number(digits, 5) && total == Number(buf[..i], 8)
      invariant out == Letters(digits)
    {
      ShiftIn(value, bits, buf[i], 8);
      ShiftedIn(n, bits, LowBits(value, bits), 8, buf[i], total);
      assert buf[..i + 1] == buf[..i] + [buf[i]];
      AppendToNumber(buf[..i], buf[i], 8);
      total := Scale(total, 8) + buf[i];
      value := Or(Shl(value, 8), buf[i], 8);
      bits := bits + 8;
      while bits >= 5
        invariant bits <= 12 && 5 * |digits| + bits == 8 * (i + 1)
        invariant Scale(n, bits) + LowBits(value, bits) == total
        invariant n == Number(digits, 5)
        invariant out == Letters(digits)
      {
        var d: Digit := LowBits(Shr(value, bits - 5), 5);
        TakeTop(value, bits, 5);
        MovedOut(n, bits, 5, d, LowBits(value, bits - 5), total);
        AppendToNumber(digits, d, 5);
        out := out + [ALPHABET[d]];
        n := Scale(n, 5) + d;
        digits := digits + [d];
        bits := bits - 5;
      }
    }
    assert buf[..|buf|] == buf;
    if bits > 0 {
      var d: Digit := LowBits(Shl(value, 5 - bits), 5);
      PadLast(value, bits);
      ShiftedIn(n, bits, LowBits(value, bits), 5 - bits, 0, total);
      AppendToNumber(digits, d, 5);
      out := out + [ALPHABET[d]];
      digits := digits + [d];
    } else {
      NoLiveBits(n, value);
    }
    EncodingIsUnique(buf, digits);
  }

  method Base32Decode(input: string) returns (out: Bytes)
    ensures out == Decode(input)
  {
    hide *;
    var clean := Clean(input);
    var bits: nat, value: Word := 0, 0;
    out := [];
    ghost var digits, n: nat, total: nat := DigitsOf(clean), 0, 0;
    PowersUsed();
    NoLiveBits(0, 0);
    for i := 0 to |clean|
      invariant bits < 8 && 8 * |out| + bits == 5 * i
      invariant Scale(n, bits) + LowBits(value, bits) == total
      invariant n == Number(out, 8) && total == Number(digits[..i], 5)
    {
      IndexOfLetter(clean[i]);
      var d: Digit := IndexOf(ALPHABET, clean[i]);
      ShiftIn(value, bits, d, 5);
      ShiftedIn(n, bits, LowBits(value, bits), 5, d, total);
      DigitsOfAt(clean, i);
      assert digits[..i + 1] == digits[..i] + [d];
      AppendToNumber(digits[..i], d, 5);
      total := Scale(total, 5) + d;
      value := Or(Shl(value, 5), d, 5);
      bits := bits + 5;
      if bits >= 8 {
        var b: Byte := LowBits(Shr(value, bits - 8), 8);
        TakeTop(value, bits, 8);
        MovedOut(n, bits, 8, b, LowBits(value, bits - 8), total);
        AppendToNumber(out, b, 8);
        n := Scale(n, 8) + b;
        out := out + [b];
        bits := bits - 8;
      }
    }
    assert digits[..|clean|] == digits;
    DecodingIsUnique(digits, out, LowBits(value, bits), bits);
    DecodeUnfolds(input);
  }

  // ----- what the codec is for -----

  lemma {:induction false} NumberOfEncoding(bytes: Bytes)
    ensures Number(EncodeDigits(bytes), 5) == Scale(Number(bytes, 8), Padding(|bytes|))
  {
    var n, pad, len := Number(bytes, 8), Padding(|bytes|), EncodedLength(|bytes|);
    PowersUsed();
    NumberBound(bytes, 8);
    assert |bytes| * 8 + pad == len * 5;
    ScaleBelow(n, Pow2(|bytes| * 8), pad);
    Pow2Scale(|bytes| * 8, pad);
    NumberExpand(Scale(n, pad), len, 5);
  }

  lemma {:induction false} DecodeOfEncodeDigits(bytes: Bytes)
    ensures DecodeDigits(EncodeDigits(bytes)) == bytes
  {
    PowersUsed();
    NumberOfEncoding(bytes);
    JoinAt(Number(bytes, 8), 0, Padding(|bytes|));
    ExpandNumber(bytes, 8);
  }

  lemma {:induction false} CleanKeeps(s: string)
    requires forall c | c in s :: InAlphabet(c)
    ensures Clean(s) == s
  {
    if s != "" {
      assert s[0] in s;
      CleanKeeps(s[1..]);
    }
  }

  lemma {:induction false} DigitsOfLetters(digits: seq<Digit>)
    ensures (forall c | c in Letters(digits) :: InAlphabet(c)) && DigitsOf(Letters(digits)) == digits
  {
    forall i | 0 <= i < |digits|
      ensures InAlphabet(Letters(digits)[i]) && IndexOf(ALPHABET, Letters(digits)[i]) == digits[i]
    {
      LetterOfIndex(digits[i]);
    }
  }

  /**
   Every byte string comes back, however its encoding was typed: in either case, and with any
   characters thrown in that upper-casing does not turn into letters, such as spaces and dashes.
   */
  lemma {:induction false} RoundTrip(bytes: Bytes, typed: string)
    requires Clean(typed) == Encode(bytes)
    ensures Decode(typed) == bytes
  {
    DigitsOfLetters(EncodeDigits(bytes));
    DecodeOfEncodeDigits(bytes);
  }

  const LOWER_CASE := "abcdefghijklmnopqrstuvwxyz234567"

  lemma {:induction false} LowerAt(d: Digit)
    ensures LOWER_CASE[d] == if d < 26 then 'a' + d as char else '2' + (d - 26) as char
  {
  }

  lemma {:induction false} EitherCase(d: Digit)
    ensures UpperLetters(ALPHABET[d]) == UpperLetters(LOWER_CASE[d]) == [ALPHABET[d]]
  {
    LetterAt(d);
    LowerAt(d);
  }

  /** An ASCII character that is no letter in either case and not 2 to 7. */
  predicate Filler(c: char) { c as int < 128 && c !in ALPHABET && c !in LOWER_CASE }

  lemma {:induction false} FillersAreDropped(c: char)
    requires Filler(c)
    ensures UpperLetters(c) == ""
  {
    if 'a' <= c <= 'z' {
      LowerAt((c - 'a') as int);
    } else if InAlphabet(c) {
      LetterAt(if c >= 'A' then (c - 'A') as int else (c - '2') as int + 26);
    }
  }

  /** `typed` spells `letters` in any mixture of cases and with any fillers put in. */
  ghost predicate Spells(typed: string, letters: string)
  {
    if typed == "" then letters == ""
    else
      || (Filler(typed[0]) && Spells(typed[1..], letters))
      || (letters != "" && Spells(typed[1..], letters[1..])
          && exists d: Digit :: letters[0] == ALPHABET[d] && typed[0] in [ALPHABET[d], LOWER_CASE[d]])
  }

  lemma {:induction false} SpellingIsClean(typed: string, letters: string)
    requires Spells(typed, letters)
    ensures Clean(typed) == letters
  {
    if typed != "" {
      hide Filler, UpperLetters, ALPHABET, LOWER_CASE;
      if Filler(typed[0]) && Spells(typed[1..], letters) {
        FillersAreDropped(typed[0]);
        SpellingIsClean(typed[1..], letters);
      } else {
        var d: Digit :| letters[0] == ALPHABET[d] && typed[0] in [ALPHABET[d], LOWER_CASE[d]];
        EitherCase(d);
        SpellingIsClean(typed[1..], letters[1..]);
        assert letters == [letters[0]] + letters[1..];
      }
    }
  }

  lemma {:induction false} SpellsItself(letters: string)
    requires forall c | c in letters :: InAlphabet(c)
    ensures Spells(letters, letters)
  {
    if letters != "" {
      var c := letters[0];
      assert c in letters;
      IndexOfLetter(c);
      var d: Digit := IndexOf(ALPHABET, c);
      assert ALPHABET[d] == c;
      hide ALPHABET, LOWER_CASE, Filler;
      assert c in [ALPHABET[d], LOWER_CASE[d]];
      SpellsItself(letters[1..]);
    }
  }

  /** So an encoding copied by hand decodes to the bytes. */
  lemma {:induction false} SpelledRoundTrip(bytes: Bytes, typed: string)
    requires Spells(typed, Encode(bytes))
    ensures Decode(typed) == bytes
  {
    hide *;
    SpellingIsClean(typed, Encode(bytes));
    RoundTrip(bytes, typed);
  }

  lemma {:induction false} EncodingShape(bytes: Bytes)
    ensures |Encode(bytes)| == EncodedLength(|bytes|) && 8 * |bytes| <= 5 * |Encode(bytes)| < 8 * |bytes| + 5
    ensures forall c | c in Encode(bytes) :: InAlphabet(c)
    ensures Decode(Encode(bytes)) == bytes
  {
    DigitsOfLetters(EncodeDigits(bytes));
    CleanKeeps(Encode(bytes));
    RoundTrip(bytes, Encode(bytes));
  }

  lemma {:induction false} NumberOfDecoding(digits: seq<Digit>)
    ensures Number(DecodeDigits(digits), 8) == Shr(Number(digits, 5), 5 * |digits| % 8)
  {
    var n, whole, spare := Number(digits, 5), 5 * |digits| / 8, 5 * |digits| % 8;
    PowersUsed();
    hide Scale, Shr, LowBits, Number, Pow2, Expand;
    NumberBound(digits, 5);
    SplitAt(n, spare);
    assert whole * 8 + spare == |digits| * 5;
    Pow2Scale(whole * 8, spare);
    ScaleMonotone(Pow2(whole * 8), Shr(n, spare), spare);
    NumberExpand(Shr(n, spare), whole, 8);
  }

  /**
   The decoder accepts more than the encoder writes. The strings the encoder writes are exactly
   those with fewer than five spare bits, all of them zero.
   */
  lemma {:induction false} CanonicalStrings(s: string)
    requires forall c | c in s :: InAlphabet(c)
    ensures Encode(Decode(s)) == s <==>
            5 * |s| % 8 < 5 && LowBits(Number(DigitsOf(s), 5), 5 * |s| % 8) == 0
  {
    hide Scale, Shr, LowBits, Number, Pow2, Expand, DigitsOf, Clean, Letters;
    CleanKeeps(s);
    var digits, bytes := DigitsOf(s), Decode(s);
    var spare, n := 5 * |s| % 8, Number(digits, 5);
    NumberOfDecoding(digits);
    NumberOfEncoding(bytes);
    SplitAt(n, spare);
    if spare >= 5 {
      assert |Encode(bytes)| < |s|;
    } else {
      assert EncodedLength(|bytes|) == |s| && Padding(|bytes|) == spare;
      LettersOfDigits(s);
      DigitsOfLetters(EncodeDigits(bytes));
      PowersUsed();
      ExpandNumber(digits, 5);
    }
  }

  lemma {:induction false} LettersOfDigits(s: string)
    requires forall c | c in s :: InAlphabet(c)
    ensures Letters(DigitsOf(s)) == s
  {
    forall i | 0 <= i < |s|
      ensures ALPHABET[DigitsOf(s)[i]] == s[i]
    {
      IndexOfLetter(s[i]);
    }
  }
}
