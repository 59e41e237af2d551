/**
 Shell quoting in `remote-install.ts`, read back by a lexer for the quoting rules of sections
 2.2.1 (backslash) and 2.2.2 (single quotes) of the POSIX Shell Command Language. The lexer gives
 up on anything else a shell might treat specially, so a successful lexing leaves no doubt.
 */
module ShellQuote {
  import opened JsText

  /** `'` inside the quotes becomes `'\''`. */
  function Escaped(s: string): string
  {
    if s == "" then ""
    else (if s[0] == '\'' then "'\\''" else [s[0]]) + Escaped(s[1..])
  }

  /** `shellQuote` */
  function Quote(s: string): string { "'" + Escaped(s) + "'" }

  // ----- the lexer -----

  datatype Token = Word(text: string) | AndIf

  datatype Mode = Plain | AfterBackslash | InQuotes | AfterAmpersand

  /** `word` is the word being read, if one has begun; an empty quoted string begins one. */
  datatype Lexer = Lexer(tokens: seq<Token>, word: Option<string>, mode: Mode)

  predicate Literal(c: char)
  {
    'a' <= c <= 'z' || 'A' <= c <= 'Z' || '0' <= c <= '9' || c in "-_./:"
  }

  function WordSoFar(l: Lexer): string { if l.word.Some? then l.word.value else "" }

  function Flush(l: Lexer): seq<Token> { if l.word.Some? then l.tokens + [Word(l.word.value)] else l.tokens }

  function Feed(l: Lexer, c: char): Option<Lexer>
  {
    match l.mode
    case Plain =>
      if c == ' ' || c == '\t' then Some(Lexer(Flush(l), None, Plain))
      else if c == '\'' then Some(Lexer(l.tokens, Some(WordSoFar(l)), InQuotes))
      else if c == '\\' then Some(l.(mode := AfterBackslash))
      else if c == '&' then Some(Lexer(Flush(l), None, AfterAmpersand))
      else if Literal(c) then Some(l.(word := Some(WordSoFar(l) + [c])))
      else None
    case AfterBackslash =>
      if c == '\n' then Some(l.(mode := Plain)) else Some(Lexer(l.tokens, Some(WordSoFar(l) + [c]), Plain))
    case InQuotes =>
      if c == '\'' then Some(l.(mode := Plain)) else Some(l.(word := Some(WordSoFar(l) + [c])))
    case AfterAmpersand =>
      if c == '&' then Some(Lexer(l.tokens + [AndIf], None, Plain)) else None
  }

  function FeedAll(l: Lexer, s: string): Option<Lexer>
    decreases |s|
  {
    if s == "" then Some(l)
    else
      var next := Feed(l, s[0]);
      if next.None? then None else FeedAll(next.value, s[1..])
  }

  /** The tokens of a command line, or nothing if it is unfinished or uses other shell syntax. */
  function Lex(s: string): Option<seq<Token>>
  {
    var end := FeedAll(Lexer([], None, Plain), s);
    if end.Some? && end.value.mode.Plain? then Some(Flush(end.value)) else None
  }

  // ----- reading the pieces back -----

  lemma {:induction false} FeedConcat(l: Lexer, a: string, b: string)
    ensures FeedAll(l, a + b) == var mid := FeedAll(l, a); if mid.None? then None else FeedAll(mid.value, b)
    decreases |a|
  {
    if a == "" {
      assert a + b == b;
    } else {
      assert (a + b)[1..] == a[1..] + b;
      if Feed(l, a[0]).Some? {
        FeedConcat(Feed(l, a[0]).value, a[1..], b);
      }
    }
  }

  lemma {:induction false} FeedOne(l: Lexer, c: char)
    ensures FeedAll(l, [c]) == Feed(l, c)
  {
    assert [c][1..] == "";
  }

  /** The four characters of an escaped quote close the quotes, add a quote, and open them again. */
  lemma {:induction false} FeedEscapedQuote(l: Lexer)
    requires l.mode.InQuotes? && l.word.Some?
    ensures FeedAll(l, "'\\''") == Some(l.(word := Some(l.word.value + "'")))
  {
    var s := "'\\''";
    var l1 := l.(mode := Plain);
    var l2 := l.(mode := AfterBackslash);
    var l3 := Lexer(l.tokens, Some(l.word.value + "'"), Plain);
    assert s[1..][1..][1..] == "'" && s[1..][1..] == "''" && s[1..] == "\\''";
    FeedOne(l3, '\'');
    assert FeedAll(l2, "''") == FeedAll(l3, "'");
    assert FeedAll(l1, "\\''") == FeedAll(l2, "''");
  }

  lemma {:induction false} FeedEscaped(l: Lexer, s: string)
    requires l.mode.InQuotes? && l.word.Some?
    ensures FeedAll(l, Escaped(s)) == Some(l.(word := Some(l.word.value + s)))
    decreases |s|
  {
    if s == "" {
      assert l.word.value + s == l.word.value;
    } else {
      var next := l.(word := Some(l.word.value + [s[0]]));
      var head := if s[0] == '\'' then "'\\''" else [s[0]];
      FeedConcat(l, head, Escaped(s[1..]));
      if s[0] == '\'' {
        FeedEscapedQuote(l);
        assert "'" == [s[0]];
      } else {
        FeedOne(l, s[0]);
      }
      FeedEscaped(next, s[1..]);
      assert l.word.value + [s[0]] + s[1..] == l.word.value + s;
    }
  }


  /** A quotation that is not closed is not read at all. */
  lemma {:induction false} OpenQuoteIsUnfinished(s: string)
    ensures Lex("'" + Escaped(s)) == None
  {
    FeedConcat(Lexer([], None, Plain), "'", Escaped(s));
    FeedOne(Lexer([], None, Plain), '\'');
    FeedEscaped(Lexer([], Some(""), InQuotes), s);
  }
  lemma {:induction false} FeedQuoted(l: Lexer, s: string)
    requires l.mode.Plain?
    ensures FeedAll(l, Quote(s)) == Some(l.(word := Some(WordSoFar(l) + s)))
  {
    hide FeedAll;
    var inside := Lexer(l.tokens, Some(WordSoFar(l)), InQuotes);
    FeedOne(l, '\'');
    FeedConcat(l, "'" + Escaped(s), "'");
    FeedConcat(l, "'", Escaped(s));
    FeedEscaped(inside, s);
    FeedOne(inside.(word := Some(WordSoFar(l) + s)), '\'');
  }

  predicate PlainWord(w: string) { w != "" && forall i | 0 <= i < |w| :: Literal(w[i]) }

  lemma {:induction false} FeedLiterals(l: Lexer, w: string)
    requires l.mode.Plain? && forall i | 0 <= i < |w| :: Literal(w[i])
    ensures FeedAll(l, w) == Some(if w == "" then l else l.(word := Some(WordSoFar(l) + w)))
    decreases |w|
  {
    if |w| == 1 {
      assert w == [w[0]];
      FeedOne(l, w[0]);
    } else if w != "" {
      var next := l.(word := Some(WordSoFar(l) + [w[0]]));
      FeedLiterals(next, w[1..]);
      assert WordSoFar(l) + [w[0]] + w[1..] == WordSoFar(l) + w;
    }
  }

  // ----- command lines -----

  datatype Piece = Bare(w: string) | Quoted(s: string) | And

  predicate WellFormed(p: Piece) { p.Bare? ==> PlainWord(p.w) }

  function Text(p: Piece): string
  {
    match p
    case Bare(w) => w
    case Quoted(s) => Quote(s)
    case And => "&&"
  }

  function Meaning(p: Piece): Token
  {
    match p
    case Bare(w) => Word(w)
    case Quoted(s) => Word(s)
    case And => AndIf
  }

  /** `parts.join(" ")` */
  function Join(parts: seq<string>): string
  {
    if parts == [] then "" else if |parts| == 1 then parts[0] else Join(parts[..|parts| - 1]) + " " + parts[|parts| - 1]
  }

  function Render(pieces: seq<Piece>): string
  {
    if pieces == [] then ""
    else if |pieces| == 1 then Text(pieces[0])
    else Render(pieces[..|pieces| - 1]) + " " + Text(pieces[|pieces| - 1])
  }

  function Meanings(pieces: seq<Piece>): seq<Token>
  {
    seq(|pieces|, i requires 0 <= i < |pieces| => Meaning(pieces[i]))
  }

  lemma {:induction false} FeedPiece(l: Lexer, p: Piece)
    requires l.mode.Plain? && l.word.None? && WellFormed(p)
    ensures var end := FeedAll(l, Text(p));
            end.Some? && end.value.mode.Plain? && Flush(end.value) == l.tokens + [Meaning(p)]
  {
    match p
    case Bare(w) =>
      FeedLiterals(l, w);
      assert "" + w == w;
    case Quoted(s) =>
      FeedQuoted(l, s);
      assert "" + s == s;
    case And =>
      assert "&&"[1..] == "&";
      FeedOne(Lexer(l.tokens, None, AfterAmpersand), '&');
  }

  /** The lexer stands after a complete word or operator, with these tokens. */
  predicate Fed(end: Option<Lexer>, tokens: seq<Token>)
  {
    end.Some? && end.value.mode.Plain? && Flush(end.value) == tokens
  }

  lemma {:induction false} FeedNext(start: Lexer, text: string, tokens: seq<Token>, p: Piece)
    requires Fed(FeedAll(start, text), tokens) && WellFormed(p)
    ensures Fed(FeedAll(start, text + " " + Text(p)), tokens + [Meaning(p)])
  {
    hide FeedAll, Text, Meaning, WellFormed;
    var mid := FeedAll(start, text).value;
    FeedConcat(start, text + " ", Text(p));
    FeedConcat(start, text, " ");
    FeedOne(mid, ' ');
    FeedPiece(Lexer(tokens, None, Plain), p);
  }

  lemma {:induction false} FeedRendered(pieces: seq<Piece>)
    requires forall i | 0 <= i < |pieces| :: WellFormed(pieces[i])
    ensures Fed(FeedAll(Lexer([], None, Plain), Render(pieces)), Meanings(pieces))
  {
    var start := Lexer([], None, Plain);
    if |pieces| == 1 {
      FeedPiece(start, pieces[0]);
      assert [] + [Meaning(pieces[0])] == Meanings(pieces);
    } else if |pieces| > 1 {
      hide FeedAll, Text, Meaning, Fed;
      var n := |pieces| - 1;
      FeedRendered(pieces[..n]);
      FeedNext(start, Render(pieces[..n]), Meanings(pieces[..n]), pieces[n]);
      assert Meanings(pieces) == Meanings(pieces[..n]) + [Meaning(pieces[n])];
    }
  }

  /** A shell splits any space-separated list of bare words, quoted strings and `&&` back into itself. */
  lemma {:induction false} RenderedLexes(pieces: seq<Piece>)
    requires forall i | 0 <= i < |pieces| :: WellFormed(pieces[i])
    ensures Lex(Render(pieces)) == Some(Meanings(pieces))
  {
    FeedRendered(pieces);
  }

  lemma {:induction false} RenderIsJoin(pieces: seq<Piece>, parts: seq<string>)
    requires |parts| == |pieces| && forall i | 0 <= i < |pieces| :: parts[i] == Text(pieces[i])
    ensures Join(parts) == Render(pieces)
  {
    if |parts| > 1 {
      RenderIsJoin(pieces[..|pieces| - 1], parts[..|parts| - 1]);
    }
  }

  /** Quoting any strings whatever and joining them with spaces loses nothing and adds nothing. */
  lemma {:induction false} QuotedListRoundTrip(strings: seq<string>)
    ensures Lex(Join(seq(|strings|, i requires 0 <= i < |strings| => Quote(strings[i]))))
            == Some(seq(|strings|, i requires 0 <= i < |strings| => Word(strings[i])))
  {
    var pieces := seq(|strings|, i requires 0 <= i < |strings| => Quoted(strings[i]));
    RenderIsJoin(pieces, seq(|strings|, i requires 0 <= i < |strings| => Quote(strings[i])));
    RenderedLexes(pieces);
    assert Meanings(pieces) == seq(|strings|, i requires 0 <= i < |strings| => Word(strings[i]));
  }

  // ----- the install command -----

  datatype Options = Options(
    token: string, nodeId: string, fqdn: string, daemonPort: nat, panelUrl: string, sftpPort: nat,
    repoUrl: Option<string>)

  const SCRIPT_FILE := "/tmp/guartrix-daemon.sh"

  /** An option with its value, as the source writes it. */
  datatype Flag = Flag(name: string, value: Piece)

  function FlagText(f: Flag): string { f.name + " " + Text(f.value) }

  function FlagPieces(flags: seq<Flag>): seq<Piece>
  {
    if flags == [] then []
    else FlagPieces(flags[..|flags| - 1]) + [Bare(flags[|flags| - 1].name), flags[|flags| - 1].value]
  }

  /** The name and the value of each option, as separate words. */
  function FlagWords(flags: seq<Flag>): seq<Token>
  {
    if flags == [] then []
    else FlagWords(flags[..|flags| - 1]) + [Word(flags[|flags| - 1].name), Meaning(flags[|flags| - 1].value)]
  }

  lemma {:induction false} FlagMeanings(flags: seq<Flag>)
    requires forall i | 0 <= i < |flags| :: PlainWord(flags[i].name) && WellFormed(flags[i].value)
    ensures Meanings(FlagPieces(flags)) == FlagWords(flags)
    ensures forall i | 0 <= i < |FlagPieces(flags)| :: WellFormed(FlagPieces(flags)[i])
  {
    if flags != [] {
      hide PlainWord;
      FlagMeanings(flags[..|flags| - 1]);
      var f := flags[|flags| - 1];
      MeaningsConcat(FlagPieces(flags[..|flags| - 1]), [Bare(f.name), f.value]);
    }
  }

  lemma {:induction false} MeaningsConcat(a: seq<Piece>, b: seq<Piece>)
    ensures Meanings(a + b) == Meanings(a) + Meanings(b)
  {
  }

  lemma {:induction false} RenderAppend(pieces: seq<Piece>, p: Piece)
    ensures Render(pieces + [p]) == if pieces == [] then Text(p) else Render(pieces) + " " + Text(p)
  {
    assert (pieces + [p])[..|pieces|] == pieces;
  }

  lemma {:induction false} RenderConcat(a: seq<Piece>, b: seq<Piece>)
    requires a != [] && b != []
    ensures Render(a + b) == Render(a) + " " + Render(b)
  {
    hide Render, Text;
    var n := |b| - 1;
    var front, last := b[..n], b[n];
    assert b == front + [last];
    RenderAppend(a + front, last);
    RenderAppend(front, last);
    assert a + b == (a + front) + [last];
    if front == [] {
      assert a + front == a;
    } else {
      RenderConcat(a, front);
      Regroup(Render(a), Render(front), Text(last));
    }
  }

  lemma {:induction false} Regroup(a: string, b: string, c: string)
    ensures (a + " " + b) + " " + c == a + " " + (b + " " + c)
  {
  }

  lemma {:induction false} TextOfBare(w: string)
    ensures Text(Bare(w)) == w
  {
  }

  lemma {:induction false} FlagsRender(flags: seq<Flag>, parts: seq<string>)
    requires flags != [] && |parts| == |flags| && forall i | 0 <= i < |flags| :: parts[i] == FlagText(flags[i])
    ensures FlagPieces(flags) != [] && Join(parts) == Render(FlagPieces(flags))
  {
    hide Text, Render, FlagText;
    var n := |flags| - 1;
    var f := flags[n];
    OneFlagRenders(f);
    if n == 0 {
      assert FlagPieces(flags[..0]) + [Bare(f.name), f.value] == [Bare(f.name), f.value];
    } else {
      FlagsRender(flags[..n], parts[..n]);
      RenderConcat(FlagPieces(flags[..n]), [Bare(f.name), f.value]);
    }
  }

  lemma {:induction false} OneFlagRenders(f: Flag)
    ensures Render([Bare(f.name), f.value]) == FlagText(f)
  {
    hide Text;
    TextOfBare(f.name);
    RenderAppend([], Bare(f.name));
    RenderAppend([Bare(f.name)], f.value);
    assert [] + [Bare(f.name)] == [Bare(f.name)] && [Bare(f.name)] + [f.value] == [Bare(f.name), f.value];
  }

  function Flags(o: Options): seq<Flag>
  {
    [Flag("--token", Quoted(o.token)), Flag("--node-id", Quoted(o.nodeId)), Flag("--fqdn", Quoted(o.fqdn)),
     Flag("--port", Bare(Decimal(o.daemonPort))), Flag("--panel", Quoted(o.panelUrl)),
     Flag("--bundle-url", Quoted(o.panelUrl + "/install-daemon-bundle.zip")),
     Flag("--sftp-port", Bare(Decimal(o.sftpPort)))]
    + (if o.repoUrl.Some? && Trim(o.repoUrl.value) != "" then [Flag("--repo", Quoted(Trim(o.repoUrl.value)))] else [])
  }

  /** The two commands the script is meant to be, word by word. */
  function Intended(o: Options): seq<Token>
  {
    [Word("curl"), Word("-Lo"), Word(SCRIPT_FILE), Word(o.panelUrl + "/install-daemon.sh"), AndIf, Word("bash"),
     Word(SCRIPT_FILE)]
    + FlagWords(Flags(o))
  }

  function Download(o: Options): seq<Piece>
  {
    [Bare("curl"), Bare("-Lo"), Bare(SCRIPT_FILE), Quoted(o.panelUrl + "/install-daemon.sh")]
  }

  const EXECUTE := [And, Bare("bash"), Bare(SCRIPT_FILE)]

  /** Whatever the options contain, a shell runs exactly the two intended commands. */
  method BuildDaemonInstallScript(o: Options) returns (script: string)
    ensures Lex(script) == Some(Intended(o))
  {
    hide *;
    var scriptUrl, bundleUrl := o.panelUrl + "/install-daemon.sh", o.panelUrl + "/install-daemon-bundle.zip";
    var args := ["--token " + Quote(o.token), "--node-id " + Quote(o.nodeId), "--fqdn " + Quote(o.fqdn),
                 "--port " + Decimal(o.daemonPort), "--panel " + Quote(o.panelUrl), "--bundle-url " + Quote(bundleUrl),
                 "--sftp-port " + Decimal(o.sftpPort)];
    if o.repoUrl.Some? && Trim(o.repoUrl.value) != "" {
      args := args + ["--repo " + Quote(Trim(o.repoUrl.value))];
    } else {
      assert args == args + [];
    }
    ArgsAreFlags(o, args);
    script := ("curl -Lo /tmp/guartrix-daemon.sh " + Quote(scriptUrl)) + " && "
      + ("bash /tmp/guartrix-daemon.sh " + Join(args));
    ScriptRenders(o, args, script);
    ScriptMeans(o);
  }

  lemma {:induction false} ArgsAreFlags(o: Options, args: seq<string>)
    requires args == ["--token " + Quote(o.token), "--node-id " + Quote(o.nodeId), "--fqdn " + Quote(o.fqdn),
                      "--port " + Decimal(o.daemonPort), "--panel " + Quote(o.panelUrl),
                      "--bundle-url " + Quote(o.panelUrl + "/install-daemon-bundle.zip"),
                      "--sftp-port " + Decimal(o.sftpPort)]
                     + (if o.repoUrl.Some? && Trim(o.repoUrl.value) != ""
                        then ["--repo " + Quote(Trim(o.repoUrl.value))] else [])
    ensures |args| == |Flags(o)| && forall i | 0 <= i < |args| :: args[i] == FlagText(Flags(o)[i])
  {
    hide Quote, Trim, Decimal;
    assert "--token" + " " == "--token " && "--node-id" + " " == "--node-id " && "--fqdn" + " " == "--fqdn ";
    assert "--port" + " " == "--port " && "--panel" + " " == "--panel " && "--bundle-url" + " " == "--bundle-url ";
    assert "--sftp-port" + " " == "--sftp-port " && "--repo" + " " == "--repo ";
  }

  lemma {:induction false} ThreeRender(a: string, b: string, p: Piece)
    ensures Render([Bare(a), Bare(b), p]) == a + " " + b + " " + Text(p)
  {
    hide Render, Text;
    TextOfBare(a);
    TextOfBare(b);
    OneRenders(Bare(a));
    RenderAppend([Bare(a)], Bare(b));
    RenderAppend([Bare(a)] + [Bare(b)], p);
    assert [Bare(a)] + [Bare(b)] + [p] == [Bare(a), Bare(b), p];
  }

  lemma {:induction false} OneRenders(p: Piece)
    ensures Render([p]) == Text(p)
  {
  }

  lemma {:induction false} DownloadText(o: Options)
    ensures Render(Download(o)) == "curl -Lo /tmp/guartrix-daemon.sh " + Quote(o.panelUrl + "/install-daemon.sh")
  {
    hide Quote, Render;
    var three, url := [Bare("curl"), Bare("-Lo"), Bare(SCRIPT_FILE)], Quoted(o.panelUrl + "/install-daemon.sh");
    ThreeRender("curl", "-Lo", Bare(SCRIPT_FILE));
    RenderAppend(three, url);
    assert Download(o) == three + [url];
    CurlText();
  }

  lemma {:induction false} CurlText()
    ensures "curl" + " " + "-Lo" + " " + SCRIPT_FILE + " " == "curl -Lo /tmp/guartrix-daemon.sh "
  {
    assert "curl" + " " + "-Lo" + " " == "curl -Lo ";
    assert SCRIPT_FILE + " " == "/tmp/guartrix-daemon.sh ";
    assert "curl -Lo " + "/tmp/guartrix-daemon.sh " == "curl -Lo /tmp/guartrix-daemon.sh ";
    assert "curl -Lo " + SCRIPT_FILE + " " == "curl -Lo " + (SCRIPT_FILE + " ");
  }

  lemma {:induction false} ExecuteText()
    ensures Render(EXECUTE) == "&& bash /tmp/guartrix-daemon.sh"
  {
    hide Render;
    OneRenders(And);
    RenderAppend([And], Bare("bash"));
    RenderAppend([And] + [Bare("bash")], Bare(SCRIPT_FILE));
    assert [And] + [Bare("bash")] + [Bare(SCRIPT_FILE)] == EXECUTE;
    BashText();
  }

  lemma {:induction false} BashText()
    ensures "&&" + " " + "bash" + " " + SCRIPT_FILE == "&& bash /tmp/guartrix-daemon.sh"
  {
    assert "&&" + " " + "bash" + " " == "&& bash ";
  }

  lemma {:induction false} FlagsAreWellFormed(o: Options)
    ensures forall i | 0 <= i < |Flags(o)| :: PlainWord(Flags(o)[i].name) && WellFormed(Flags(o)[i].value)
  {
    hide Decimal, Trim;
    DecimalIsPlain(o.daemonPort);
    DecimalIsPlain(o.sftpPort);
    assert PlainWord("--token") && PlainWord("--node-id") && PlainWord("--fqdn") && PlainWord("--port");
    assert PlainWord("--panel") && PlainWord("--bundle-url") && PlainWord("--sftp-port") && PlainWord("--repo");
  }

  lemma {:induction false} DecimalIsPlain(n: nat)
    ensures PlainWord(Decimal(n))
  {
    forall i | 0 <= i < |Decimal(n)|
      ensures Literal(Decimal(n)[i])
    {
      assert IsDigit(Decimal(n)[i]);
    }
  }

  lemma {:induction false} FixedPartsAreWellFormed(o: Options)
    ensures forall i | 0 <= i < |Download(o) + EXECUTE| :: WellFormed((Download(o) + EXECUTE)[i])
  {
    PlainLiterals();
    hide PlainWord;
  }

  lemma {:induction false} PlainLiterals()
    ensures PlainWord("curl") && PlainWord("-Lo") && PlainWord(SCRIPT_FILE) && PlainWord("bash")
  {
  }

  lemma {:induction false} FixedPartsMeanings(o: Options)
    ensures Meanings(Download(o) + EXECUTE) + FlagWords(Flags(o)) == Intended(o)
  {
    hide FlagWords, Flags;
    assert Download(o) + EXECUTE
      == [Bare("curl"), Bare("-Lo"), Bare(SCRIPT_FILE), Quoted(o.panelUrl + "/install-daemon.sh"),
          And, Bare("bash"), Bare(SCRIPT_FILE)];
  }

  /** The script is the rendered list of its pieces. */
  lemma {:induction false} ScriptRenders(o: Options, args: seq<string>, script: string)
    requires |args| == |Flags(o)| && forall i | 0 <= i < |args| :: args[i] == FlagText(Flags(o)[i])
    requires script == ("curl -Lo /tmp/guartrix-daemon.sh " + Quote(o.panelUrl + "/install-daemon.sh")) + " && "
                       + ("bash /tmp/guartrix-daemon.sh " + Join(args))
    ensures script == Render(Download(o) + EXECUTE + FlagPieces(Flags(o)))
  {
    assert Flags(o) != [];
    hide *;
    FlagsRender(Flags(o), args);
    PartsNotEmpty(o);
    DownloadText(o);
    ExecuteText();
    RenderConcat(Download(o), EXECUTE);
    RenderConcat(Download(o) + EXECUTE, FlagPieces(Flags(o)));
    ScriptSplit(Render(Download(o)), Join(args));
  }

  lemma {:induction false} ScriptMeans(o: Options)
    ensures Lex(Render(Download(o) + EXECUTE + FlagPieces(Flags(o)))) == Some(Intended(o))
  {
    hide *;
    FlagsAreWellFormed(o);
    FlagMeanings(Flags(o));
    FixedPartsMeanings(o);
    FixedPartsAreWellFormed(o);
    MeaningsConcat(Download(o) + EXECUTE, FlagPieces(Flags(o)));
    RenderedLexes(Download(o) + EXECUTE + FlagPieces(Flags(o)));
  }

  lemma {:induction false} PartsNotEmpty(o: Options)
    ensures Download(o) != [] && EXECUTE != [] && Download(o) + EXECUTE != []
  {
  }

  lemma {:induction false} ScriptSplit(download: string, args: string)
    ensures download + " && " + ("bash /tmp/guartrix-daemon.sh " + args)
            == download + " " + "&& bash /tmp/guartrix-daemon.sh" + " " + args
  {
    var execute := "&& bash /tmp/guartrix-daemon.sh";
    assert " && " + "bash /tmp/guartrix-daemon.sh " == " " + execute + " ";
    Middle(download, " && ", "bash /tmp/guartrix-daemon.sh ", args);
    Middle(download, " " + execute, " ", args);
    Middle(download, " ", execute, "");
  }

  lemma {:induction false} Middle(a: string, x: string, y: string, b: string)
    ensures a + x + (y + b) == a + (x + y) + b == a + (x + y + b)
    ensures b == "" ==> a + x + y == a + (x + y)
  {
  }
}
