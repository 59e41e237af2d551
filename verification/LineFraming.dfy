/** The newline framing of the Docker stats stream in `docker-engine.ts`. */
module LineFraming {
  import opened JsText

  const NEWLINE := '\n'

  /** `s.indexOf("\n")` */
  function IndexOfNewline(s: string): (i: int)
    ensures -1 <= i < |s|
    ensures i >= 0 ==> s[i] == NEWLINE && forall j | 0 <= j < i :: s[j] != NEWLINE
    ensures i == -1 ==> NEWLINE !in s
  {
    if s == "" then -1
    else if s[0] == NEWLINE then 0
    else
      var j := IndexOfNewline(s[1..]);
      if j == -1 then -1 else j + 1
  }

  /** The newline-terminated lines of a text, and what follows the last of them. */
  datatype Cut = Cut(lines: seq<string>, tail: string)

  function CutLines(s: string): Cut
    decreases |s|
  {
    var nl := IndexOfNewline(s);
    if nl == -1 then Cut([], s)
    else
      var rest := CutLines(s[nl + 1..]);
      Cut([s[..nl]] + rest.lines, rest.tail)
  }

  lemma {:induction false} CutStep(s: string)
    ensures var nl := IndexOfNewline(s);
            CutLines(s) == if nl == -1 then Cut([], s)
                           else Cut([s[..nl]] + CutLines(s[nl + 1..]).lines, CutLines(s[nl + 1..]).tail)
  {
  }

  /** The frames the consumer sees: blank lines are dropped, and lines that do not parse are skipped. */
  function Frames<F>(lines: seq<string>, parse: string -> Option<F>): seq<F>
  {
    if lines == [] then []
    else
      var line := Trim(lines[0]);
      (if line != "" && parse(line).Some? then [parse(line).value] else []) + Frames(lines[1..], parse)
  }

  lemma {:induction false} FramesStep<F>(line: string, rest: seq<string>, parse: string -> Option<F>)
    ensures Frames([line] + rest, parse)
            == (if Trim(line) != "" && parse(Trim(line)).Some? then [parse(Trim(line)).value] else [])
              + Frames(rest, parse)
    ensures Frames([], parse) == []
  {
    assert ([line] + rest)[1..] == rest;
  }

  lemma {:induction false} Regroup<F>(a: seq<F>, b: seq<F>, c: seq<F>)
    ensures a + (b + c) == (a + b) + c && a + [] == a && [] + c == c
  {
  }

  class StatsStream<F> {
    var buf: string

    constructor ()
      ensures buf == ""
    {
      buf := "";
    }

    /** The `data` handler; `frames` are the calls of `onFrame` it makes, in order. */
    method OnData(chunk: string, parse: string -> Option<F>) returns (frames: seq<F>)
      modifies this
      ensures frames == Frames(CutLines(old(buf) + chunk).lines, parse)
      ensures buf == CutLines(old(buf) + chunk).tail
    {
      hide CutLines, Frames, Trim, IndexOfNewline;
      buf := buf + chunk;
      frames := [];
      var nl := IndexOfNewline(buf);
      ghost var whole := CutLines(buf);
      while nl >= 0
        invariant nl == IndexOfNewline(buf)
        invariant frames + Frames(CutLines(buf).lines, parse) == Frames(whole.lines, parse)
        invariant CutLines(buf).tail == whole.tail
        decreases |buf|
      {
        var line := Trim(buf[..nl]);
        CutStep(buf);
        FramesStep(buf[..nl], CutLines(buf[nl + 1..]).lines, parse);
        ghost var before, rest := frames, Frames(CutLines(buf[nl + 1..]).lines, parse);
        buf := buf[nl + 1..];
        if line != "" {
          match parse(line)
          case Some(frame) =>
            frames := frames + [frame];
            Regroup(before, [frame], rest);
          case None => Regroup(before, [], rest);
        } else {
          Regroup(before, [], rest);
        }
        nl := IndexOfNewline(buf);
      }
      CutStep(buf);
      FramesStep("", [], parse);
    }
  }

  // ----- cutting is unique, and does not depend on the chunks -----

  function Unlines(lines: seq<string>): string
  {
    if lines == [] then "" else lines[0] + [NEWLINE] + Unlines(lines[1..])
  }

  predicate NoNewline(s: string) { NEWLINE !in s }

  /** Putting the lines back together gives the text, so nothing is lost, added or reordered. */
  lemma {:induction false} CutRestores(s: string)
    ensures var cut := CutLines(s);
            && Unlines(cut.lines) + cut.tail == s && NoNewline(cut.tail)
            && forall line | line in cut.lines :: NoNewline(line)
    decreases |s|
  {
    hide CutLines, IndexOfNewline;
    var nl := IndexOfNewline(s);
    CutStep(s);
    if nl >= 0 {
      var line, rest := s[..nl], CutLines(s[nl + 1..]);
      CutRestores(s[nl + 1..]);
      assert ([line] + rest.lines)[1..] == rest.lines;
      assert s == line + [NEWLINE] + s[nl + 1..];
      assert Unlines([line] + rest.lines) + rest.tail == line + [NEWLINE] + (Unlines(rest.lines) + rest.tail);
    }
  }

  /** And there is no other way to write a text as lines followed by an unfinished one. */
  lemma {:induction false} CutIsUnique(lines: seq<string>, tail: string)
    requires NoNewline(tail) && forall line | line in lines :: NoNewline(line)
    ensures CutLines(Unlines(lines) + tail) == Cut(lines, tail)
  {
    if lines == [] {
      assert Unlines(lines) + tail == tail;
    } else {
      var first, others := lines[0], lines[1..];
      assert lines == [first] + others && NoNewline(first);
      assert Unlines(lines) == first + [NEWLINE] + Unlines(others);
      hide *;
      assert Unlines(lines) + tail == first + [NEWLINE] + (Unlines(others) + tail);
      CutIsUnique(others, tail);
      CutCons(first, Unlines(others) + tail);
    }
  }

  lemma {:induction false} CutCons(first: string, rest: string)
    requires NoNewline(first)
    ensures CutLines(first + [NEWLINE] + rest) == Cut([first] + CutLines(rest).lines, CutLines(rest).tail)
  {
    hide CutLines, IndexOfNewline;
    var s := first + [NEWLINE] + rest;
    FirstNewline(first, rest);
    CutStep(s);
    assert s[..|first|] == first && s[|first| + 1..] == rest;
  }

  lemma {:induction false} FirstNewline(first: string, rest: string)
    requires NoNewline(first)
    ensures IndexOfNewline(first + [NEWLINE] + rest) == |first|
  {
    hide IndexOfNewline;
    var s := first + [NEWLINE] + rest;
    var nl := IndexOfNewline(s);
    assert s[|first|] == NEWLINE;
    assert forall i | 0 <= i < |first| :: s[i] == first[i] && s[i] != NEWLINE;
  }

  lemma {:induction false} UnlinesConcat(a: seq<string>, b: seq<string>)
    ensures Unlines(a + b) == Unlines(a) + Unlines(b)
  {
    if a == [] {
      assert a + b == b;
    } else {
      assert (a + b)[1..] == a[1..] + b;
      UnlinesConcat(a[1..], b);
    }
  }

  lemma {:induction false} CutConcat(a: string, b: string)
    ensures CutLines(a + b)
            == Cut(CutLines(a).lines + CutLines(CutLines(a).tail + b).lines, CutLines(CutLines(a).tail + b).tail)
  {
    hide CutLines, Unlines;
    var first := CutLines(a);
    var second := CutLines(first.tail + b);
    CutRestores(a);
    CutRestores(first.tail + b);
    UnlinesConcat(first.lines, second.lines);
    var lines := first.lines + second.lines;
    assert Unlines(lines) + second.tail == Unlines(first.lines) + (Unlines(second.lines) + second.tail);
    assert Unlines(first.lines) + (first.tail + b) == (Unlines(first.lines) + first.tail) + b;
    CutIsUnique(lines, second.tail);
  }

  lemma {:induction false} FramesConcat<F>(a: seq<string>, b: seq<string>, parse: string -> Option<F>)
    ensures Frames(a + b, parse) == Frames(a, parse) + Frames(b, parse)
  {
    hide *;
    if a == [] {
      FramesStep("", [], parse);
      assert a + b == b;
    } else {
      var first, rest := a[0], a[1..];
      FramesConcat(rest, b, parse);
      FramesStep(first, rest, parse);
      FramesStep(first, rest + b, parse);
      assert a == [first] + rest && a + b == [first] + (rest + b);
    }
  }

  function Join(chunks: seq<string>): string
  {
    if chunks == [] then "" else Join(chunks[..|chunks| - 1]) + chunks[|chunks| - 1]
  }

  /** All the frames handed on, and the buffer left, after the handler has run on each chunk. */
  function Deliver<F>(chunks: seq<string>, parse: string -> Option<F>): (seq<F>, string)
  {
    if chunks == [] then ([], "")
    else
      var (frames, buf) := Deliver(chunks[..|chunks| - 1], parse);
      var cut := CutLines(buf + chunks[|chunks| - 1]);
      (frames + Frames(cut.lines, parse), cut.tail)
  }

  /** However the stream is cut into chunks, the same frames arrive in the same order. */
  lemma {:induction false} ChunkingDoesNotMatter<F>(chunks: seq<string>, parse: string -> Option<F>)
    ensures Deliver(chunks, parse) == (Frames(CutLines(Join(chunks)).lines, parse), CutLines(Join(chunks)).tail)
  {
    if chunks != [] {
      var front, last := chunks[..|chunks| - 1], chunks[|chunks| - 1];
      ChunkingDoesNotMatter(front, parse);
      CutConcat(Join(front), last);
      var cut := CutLines(CutLines(Join(front)).tail + last);
      FramesConcat(CutLines(Join(front)).lines, cut.lines, parse);
    }
  }
}
