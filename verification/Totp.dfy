/** `hotp` and `verifyTotp` of `totp.ts`. HMAC-SHA1 is any function with a 20-byte result. */
module Totp {
  import opened Words
  import opened Base32
  import opened JsText

  const STEP_MS := 30_000
  const DIGITS := 6
  const VERIFY_WINDOW := 1

  type Hmac = (Bytes, Bytes) -> Bytes

  ghost predicate IsSha1(hmac: Hmac)
  {
    forall key, message :: |hmac(key, message)| == 20
  }

  predicate IsCode(s: string) { |s| == DIGITS && forall i | 0 <= i < |s| :: IsDigit(s[i]) }

  /** `s.padStart(width, "0")` */
  function PadStart(s: string, width: nat): (r: string)
    ensures |r| == if |s| < width then width else |s|
    ensures (forall c | c in s :: IsDigit(c)) ==> forall c | c in r :: IsDigit(c)
    decreases width - |s|
  {
    if |s| < width then PadStart("0" + s, width) else s
  }

  function Pow10(width: nat): (p: nat)
  {
    if width == 0 then 1 else 10 * Pow10(width - 1)
  }

  lemma {:induction false} DecimalWidth(n: nat, width: nat)
    requires 0 < width && n < Pow10(width)
    ensures |Decimal(n)| <= width
  {
    if n >= 10 {
      DecimalWidth(n / 10, width - 1);
    }
  }

  /** `writeBigUInt64BE` */
  function BigEndian64(n: nat): Bytes
  {
    PowersUsed();
    Expand(n, 8, 8)
  }

  /** The dynamic truncation of section 5.3 of RFC 4226, then six decimal digits. */
  function Hotp(hmac: Hmac, secret: Bytes, counter: nat): (code: string)
    requires IsSha1(hmac)
    ensures IsCode(code)
  {
    var digest: seq<int> := hmac(secret, BigEndian64(counter));
    var offset := digest[19] % 16;
    var truncated := (digest[offset] % 128) * 0x100_0000 + digest[offset + 1] * 0x1_0000
                     + digest[offset + 2] * 0x100 + digest[offset + 3];
    DecimalWidth(truncated % 1_000_000, DIGITS);
    PadStart(Decimal(truncated % 1_000_000), DIGITS)
  }

  /** The number a string of decimal digits writes. */
  function DecimalValue(s: string): nat
    requires forall c | c in s :: IsDigit(c)
  {
    if s == "" then 0
    else
      assert IsDigit(s[|s| - 1]);
      10 * DecimalValue(s[..|s| - 1]) + (s[|s| - 1] - '0') as int
  }

  lemma {:induction false} DecimalValueAppend(s: string, digit: nat)
    requires (forall c | c in s :: IsDigit(c)) && digit < 10
    ensures DecimalValue(s + ['0' + digit as char]) == 10 * DecimalValue(s) + digit
  {
    var c := '0' + digit as char;
    assert (s + [c])[..|s|] == s;
  }

  lemma {:induction false} DecimalReadsBack(n: nat)
    ensures DecimalValue(Decimal(n)) == n
  {
    var front := if n < 10 then "" else Decimal(n / 10);
    if n >= 10 {
      DecimalReadsBack(n / 10);
    } else {
      assert DecimalValue("") == 0;
    }
    assert Decimal(n) == front + ['0' + (n % 10) as char];
    hide DecimalValue, Decimal;
    DecimalValueAppend(front, n % 10);
  }

  lemma {:induction false} LeadingZero(s: string)
    requires forall c | c in s :: IsDigit(c)
    ensures DecimalValue("0" + s) == DecimalValue(s)
  {
    if s == "" {
      assert "0" + s == "0" && "0"[..0] == "";
    } else {
      LeadingZero(s[..|s| - 1]);
      assert ("0" + s)[..|s|] == "0" + s[..|s| - 1];
    }
  }

  lemma {:induction false} PaddingKeepsValue(s: string, width: nat)
    requires forall c | c in s :: IsDigit(c)
    ensures DecimalValue(PadStart(s, width)) == DecimalValue(s)
    decreases width - |s|
  {
    if |s| < width {
      LeadingZero(s);
      PaddingKeepsValue("0" + s, width);
    }
  }

  lemma {:induction false} FourBytes(a: Byte, b: Byte, c: Byte, d: Byte)
    ensures LowBits(Number([a, b, c, d], 8), 31) == (a % 128) * 0x100_0000 + b * 0x1_0000 + c * 0x100 + d
  {
    hide Number, LowBits, Pow2;
    NoLiveBits(0, 0);
    NumberStep([], a);
    NumberStep([a], b);
    NumberStep([a, b], c);
    NumberStep([a, b, c], d);
    assert [] + [a] == [a] && [a] + [b] == [a, b] && [a, b] + [c] == [a, b, c] && [a, b, c] + [d] == [a, b, c, d];
    var n := Number([a, b, c, d], 8);
    var low := (a % 128) * 0x100_0000 + b * 0x1_0000 + c * 0x100 + d;
    assert n == a * 0x100_0000 + b * 0x1_0000 + c * 0x100 + d;
    assert a == 128 * (a / 128) + a % 128;
    LowBitsIsMod(n, 31);
    TwoTo31();
    DivModUnique(n, a / 128, low, 0x8000_0000);
  }

  lemma {:induction false} TwoTo31()
    ensures Pow2(31) == 0x8000_0000
  {
    Pow2Is32();
    assert Pow2(32) == 2 * Pow2(31);
  }

  lemma {:induction false} NumberStep(s: seq<nat>, d: nat)
    ensures Number(s + [d], 8) == 256 * Number(s, 8) + d
  {
    AppendToNumber(s, d, 8);
    ScaleIsMul(Number(s, 8), 8);
    PowersUsed();
  }

  lemma {:induction false} LowNibble(b: Byte)
    ensures LowBits(b, 4) == b % 16
  {
    LowBitsIsMod(b, 4);
    assert Pow2(4) == 16;
  }

  /**
   Section 5.3 of RFC 4226 in its own words: the code is, as a decimal number, the low 31 bits of
   the four digest bytes from the offset on, read most significant first, modulo 10^6; and the
   digest is of the counter as one eight-byte number.
   */
  lemma {:induction false} HotpIsDynamicTruncation(hmac: Hmac, secret: Bytes, counter: nat)
    requires IsSha1(hmac) && counter < Pow2(64)
    ensures |BigEndian64(counter)| == 8 && Number(BigEndian64(counter), 8) == counter
    ensures var digest := hmac(secret, BigEndian64(counter));
            var offset := LowBits(digest[19], 4);
            && |Hotp(hmac, secret, counter)| == 6 && (forall c | c in Hotp(hmac, secret, counter) :: IsDigit(c))
            && DecimalValue(Hotp(hmac, secret, counter))
               == LowBits(Number(digest[offset..offset + 4], 8), 31) % 1_000_000
  {
    hide Number, LowBits, Pow2, Decimal, DecimalValue, PadStart;
    NumberExpand(counter, 8, 8);
    var digest := hmac(secret, BigEndian64(counter));
    LowNibble(digest[19]);
    var o := digest[19] % 16;
    FourBytes(digest[o], digest[o + 1], digest[o + 2], digest[o + 3]);
    assert digest[o..o + 4] == [digest[o], digest[o + 1], digest[o + 2], digest[o + 3]];
    var value := LowBits(Number(digest[o..o + 4], 8), 31) % 1_000_000;
    DecimalReadsBack(value);
    PaddingKeepsValue(Decimal(value), DIGITS);
  }

  /** `code.replace(/[\s-]/g, "")` */
  function Normalize(code: string): string
  {
    if code == "" then ""
    else if IsSpace(code[0]) || code[0] == '-' then Normalize(code[1..])
    else [code[0]] + Normalize(code[1..])
  }

  predicate Separator(c: char) { c == '-' || c in WHITE_SPACE }

  /** A code without separators is taken as typed. */
  lemma {:induction false} NormalizeKeeps(code: string)
    requires forall c | c in code :: !Separator(c)
    ensures Normalize(code) == code
  {
    if code != "" {
      assert code[0] in code;
      SpacesAreListed(code[0]);
      NormalizeKeeps(code[1..]);
    }
  }

  /** A space or dash typed anywhere changes nothing. */
  lemma {:induction false} NormalizeIgnores(before: string, separator: char, after: string)
    requires Separator(separator)
    ensures Normalize(before + [separator] + after) == Normalize(before + after)
  {
    if before == "" {
      SpacesAreListed(separator);
      assert ([separator] + after)[1..] == after && before + [separator] + after == [separator] + after;
      assert before + after == after;
    } else {
      hide IsSpace;
      var rest := before[1..];
      NormalizeIgnores(rest, separator, after);
      assert (before + [separator] + after)[1..] == rest + [separator] + after && (before + after)[1..] == rest + after;
    }
  }

  function Without(s: string, i: nat): string
    requires i < |s|
  {
    s[..i] + s[i + 1..]
  }

  /** `typed` is `code` with spaces and dashes put in. */
  ghost predicate TypedAs(typed: string, code: string)
    decreases |typed|
  {
    typed == code || exists i: nat :: i < |typed| && Separator(typed[i]) && TypedAs(Without(typed, i), code)
  }

  lemma {:induction false} TypedWith(before: string, separator: char, after: string, code: string)
    requires Separator(separator) && TypedAs(before + after, code)
    ensures TypedAs(code, code) && TypedAs(before + [separator] + after, code)
  {
    var typed := before + [separator] + after;
    hide Separator;
    assert Without(typed, |before|) == before + after;
    assert typed[|before|] == separator;
  }

  lemma {:induction false} NormalizeWithout(typed: string, i: nat)
    requires i < |typed| && Separator(typed[i])
    ensures Normalize(typed) == Normalize(Without(typed, i))
  {
    hide Separator, Normalize;
    NormalizeIgnores(typed[..i], typed[i], typed[i + 1..]);
    assert typed == typed[..i] + [typed[i]] + typed[i + 1..];
  }

  lemma {:induction false} NormalizeTyped(typed: string, code: string)
    requires TypedAs(typed, code) && forall c | c in code :: !Separator(c)
    ensures Normalize(typed) == code
    decreases |typed|
  {
    if typed == code {
      NormalizeKeeps(code);
    } else {
      hide Separator, Normalize;
      var i: nat :| i < |typed| && Separator(typed[i]) && TypedAs(Without(typed, i), code);
      NormalizeTyped(Without(typed, i), code);
      NormalizeWithout(typed, i);
    }
  }

  datatype Verdict = Accepted | Rejected | Threw

  /** Some authenticator clock within one time step of ours shows this code. */
  ghost predicate ShownNear(hmac: Hmac, secret: Bytes, code: string, now: nat)
    requires IsSha1(hmac)
  {
    exists t: nat :: Near(t, now) && Hotp(hmac, secret, t / STEP_MS) == code
  }

  ghost predicate Near(t: nat, now: nat) { now - STEP_MS <= t <= now + STEP_MS }

  /** What `verifyTotp` answers. */
  ghost function Expected(hmac: Hmac, unsealed: Option<string>, code: string, now: nat): Verdict
    requires IsSha1(hmac)
  {
    if !IsCode(Normalize(code)) || unsealed.None? || Decode(unsealed.value) == [] then Rejected
    else if now < STEP_MS then Threw
    else if ShownNear(hmac, Decode(unsealed.value), Normalize(code), now) then Accepted
    else Rejected
  }

  /**
   `unsealed` is the stored secret after decryption, or nothing when decryption throws.
   The three tries around the current counter accept exactly the codes shown by a clock at most
   30 s off. In the first 30 s of 1970 the earlier counter is negative and the write throws.
   */
  method VerifyTotp(hmac: Hmac, unsealed: Option<string>, code: string, now: nat) returns (verdict: Verdict)
    requires IsSha1(hmac)
    ensures verdict == Expected(hmac, unsealed, code, now)
    ensures var usable := IsCode(Normalize(code)) && unsealed.Some? && Decode(unsealed.value) != [];
            && (verdict == Threw <==> usable && now < STEP_MS)
            && (verdict == Accepted <==>
                (usable && now >= STEP_MS && ShownNear(hmac, Decode(unsealed.value), Normalize(code), now)))
  {
    hide Hotp, Decode, Normalize, IsCode;
    var normalized := Normalize(code);
    if !IsCode(normalized) || unsealed.None? {
      return Rejected;
    }
    var secret := Base32Decode(unsealed.value);
    if secret == [] {
      return Rejected;
    }
    var counter := now / STEP_MS;
    var offset := -VERIFY_WINDOW;
    while offset <= VERIFY_WINDOW
      invariant -VERIFY_WINDOW <= offset <= VERIFY_WINDOW + 1
      invariant offset > -VERIFY_WINDOW ==> counter >= 1
      invariant forall c: nat | counter - VERIFY_WINDOW <= c < counter + offset :: Hotp(hmac, secret, c) != normalized
    {
      if counter + offset < 0 {
        return Threw;
      }
      if Hotp(hmac, secret, counter + offset) == normalized {
        var t := now + offset * STEP_MS;
        assert t / STEP_MS == counter + offset && Near(t, now);
        return Accepted;
      }
      offset := offset + 1;
    }
    forall t: nat | Near(t, now)
      ensures Hotp(hmac, secret, t / STEP_MS) != normalized
    {
      assert counter - 1 <= t / STEP_MS <= counter + 1;
    }
    return Rejected;
  }

  /** The stored secret could be decrypted and gives some bytes, and `code` is six digits. */
  ghost predicate Usable(unsealed: Option<string>, code: string)
  {
    && unsealed.Some? && Decode(unsealed.value) != []
    && |code| == 6 && forall i | 0 <= i < 6 :: '0' <= code[i] <= '9'
  }

  /**
   A code typed with any spaces and dashes is accepted exactly when it is usable and a clock at most
   30 s off shows it, and the check throws exactly for usable codes in the first 30 s of 1970.
   */
  lemma {:induction false} AcceptedExactlyWhen(
    hmac: Hmac, unsealed: Option<string>, typed: string, code: string, now: nat)
    requires IsSha1(hmac) && TypedAs(typed, code) && forall c | c in code :: !Separator(c)
    ensures Expected(hmac, unsealed, typed, now) == Threw <==> Usable(unsealed, code) && now < 30_000
    ensures Expected(hmac, unsealed, typed, now) == Accepted <==>
            && Usable(unsealed, code) && now >= 30_000
            && exists t: nat :: now - 30_000 <= t <= now + 30_000
                 && Hotp(hmac, Decode(unsealed.value), t / 30_000) == code
  {
    NormalizeTyped(typed, code);
    hide Hotp, Decode, Normalize;
    if unsealed.Some? {
      forall t: nat
        ensures Near(t, now) && Hotp(hmac, Decode(unsealed.value), t / STEP_MS) == code <==>
                now - 30_000 <= t <= now + 30_000 && Hotp(hmac, Decode(unsealed.value), t / 30_000) == code
      {
      }
    }
  }

  lemma {:induction false} CodesAreCodes(hmac: Hmac, secret: Bytes, counter: nat)
    requires IsSha1(hmac)
    ensures IsCode(Hotp(hmac, secret, counter))
    ensures forall c | c in Hotp(hmac, secret, counter) :: !Separator(c)
  {
    assert forall c | IsDigit(c) :: !IsSpace(c);
    forall c | c in Hotp(hmac, secret, counter)
      ensures !Separator(c)
    {
      SpacesAreListed(c);
    }
  }

  /**
   End to end: a secret handed out in Base32 and typed into an authenticator in any layout gives
   codes the panel accepts, typed with any spaces and dashes, as long as the two clocks differ by at
   most one step. `copied` is what the user typed of the secret, in either case and with any fillers.
   */
  lemma {:induction false} ProvisionedCodesVerify(
    hmac: Hmac, secret: Bytes, copied: string, shownAt: nat, typed: string, now: nat)
    requires IsSha1(hmac) && secret != [] && Spells(copied, Encode(secret))
    requires now - 30_000 <= shownAt <= now + 30_000 && now >= 30_000
    requires TypedAs(typed, Hotp(hmac, Decode(copied), shownAt / 30_000))
    ensures Expected(hmac, Some(Encode(secret)), typed, now) == Accepted
    ensures Decode(copied) == secret
  {
    SpelledRoundTrip(secret, copied);
    EncodingShape(secret);
    var code := Hotp(hmac, secret, shownAt / 30_000);
    CodesAreCodes(hmac, secret, shownAt / 30_000);
    hide Hotp, Decode, Encode;
    AcceptedExactlyWhen(hmac, Some(Encode(secret)), typed, code, now);
  }
}
