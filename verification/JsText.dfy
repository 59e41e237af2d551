/** The pieces of JavaScript's standard library that the modelled code relies on. */
module JsText {

  datatype Option<+T> = None | Some(value: T)

  /** `Math.max(a, b)` */
  function Max(a: int, b: int): int { if a < b then b else a }

  /** `Math.min(a, b)` */
  function Min(a: int, b: int): int { if a < b then a else b }

  /** The white space and line terminators of the ECMAScript standard, one by one. */
  const WHITE_SPACE := "\t\n\U{B}\U{C}\r \U{A0}\U{1680}\U{2000}\U{2001}\U{2002}\U{2003}\U{2004}\U{2005}\U{2006}\U{2007}"
                       + "\U{2008}\U{2009}\U{200A}\U{2028}\U{2029}\U{202F}\U{205F}\U{3000}\U{FEFF}"

  lemma {:induction false} SpacesAreListed(c: char)
    ensures IsSpace(c) <==> c in WHITE_SPACE
  {
    assert '\U{2000}' <= c <= '\U{200A}' ==> c as int - 0x2000 in {0, 1, 2, 3, 4, 5, 6, 7, 8, 9, 10};
  }

  /** What `\s` matches and what `trim` removes. */
  predicate IsSpace(c: char) {
    || '\t' <= c <= '\r'
    || c in " \U{A0}\U{1680}\U{2028}\U{2029}\U{202F}\U{205F}\U{3000}\U{FEFF}"
    || '\U{2000}' <= c <= '\U{200A}'
  }

  predicate IsDigit(c: char) { '0' <= c <= '9' }

  /** `String(n)` */
  function Decimal(n: nat): (s: string)
    ensures s != "" && forall c | c in s :: IsDigit(c)
  {
    (if n < 10 then "" else Decimal(n / 10)) + ['0' + (n % 10) as char]
  }

  function TrimStart(s: string): (r: string)
    ensures r == "" || !IsSpace(r[0])
    ensures |r| <= |s| && r == s[|s| - |r|..] && forall i | 0 <= i < |s| - |r| :: IsSpace(s[i])
  {
    if s == "" || !IsSpace(s[0]) then s else TrimStart(s[1..])
  }

  function TrimEnd(s: string): (r: string)
    ensures r == "" || !IsSpace(r[|r| - 1])
    ensures r <= s && forall i | |r| <= i < |s| :: IsSpace(s[i])
  {
    if s == "" || !IsSpace(s[|s| - 1]) then s else TrimEnd(s[..|s| - 1])
  }

  /** `s.trim()` */
  function Trim(s: string): string { TrimEnd(TrimStart(s)) }

  predicate AllSpace(s: string) { forall i | 0 <= i < |s| :: IsSpace(s[i]) }

  predicate Trimmed(s: string) { s != "" ==> !IsSpace(s[0]) && !IsSpace(s[|s| - 1]) }

  lemma {:induction false} TrimStartMeans(before: string, rest: string)
    requires AllSpace(before) && (rest != "" ==> !IsSpace(rest[0]))
    ensures TrimStart(before + rest) == rest
  {
    if before == "" {
      assert before + rest == rest;
    } else {
      assert (before + rest)[1..] == before[1..] + rest;
      TrimStartMeans(before[1..], rest);
    }
  }

  lemma {:induction false} TrimEndMeans(rest: string, after: string)
    requires AllSpace(after) && (rest != "" ==> !IsSpace(rest[|rest| - 1]))
    ensures TrimEnd(rest + after) == rest
  {
    if after == "" {
      assert rest + after == rest;
    } else {
      var n := |after| - 1;
      assert (rest + after)[..|rest| + n] == rest + after[..n];
      TrimEndMeans(rest, after[..n]);
    }
  }

  /** Trimming removes exactly the white space around a text. */
  lemma {:induction false} TrimMeans(before: string, s: string, after: string)
    requires AllSpace(before) && AllSpace(after) && Trimmed(s)
    ensures Trim(before + s + after) == s
  {
    hide TrimStart, TrimEnd, IsSpace;
    if s == "" {
      assert before + s + after == (before + after) + "";
      TrimStartMeans(before + after, "");
      TrimEndMeans("", "");
      assert "" + "" == "";
    } else {
      assert before + s + after == before + (s + after);
      TrimStartMeans(before, s + after);
      TrimEndMeans(s, after);
    }
  }
}
