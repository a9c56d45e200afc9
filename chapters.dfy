/**
 * The heading-delimited chapter splitter. The repository carries it three
 * times, line for line the same: `parse_chapters_from_text` in migrate_data.py
 * and in app.py, and the nested `parse` of build_static.py's
 * `load_books_from_raw`. It is modelled once here.
 *
 * A line starting with "## " is a marker: it closes the chapter being
 * collected and opens a new one titled by the rest of the line, trimmed.
 * Every other line is a body line of the open chapter.
 */
module Chapters {
  import opened Text

  datatype Chapter = Chapter(title: string, content: string)

  /** `line.startswith('## ')`. */
  predicate IsMarker(line: string) {
    |line| >= 3 && line[0] == '#' && line[1] == '#' && line[2] == ' '
  }

  function MarkerTitle(line: string): string
    requires IsMarker(line)
  {
    Strip(line[3..])
  }

  /** The run of body lines at the front of `lines`: it stops at the first
      marker line or at the end, and holds no marker line. */
  function Body(lines: seq<string>): (b: seq<string>)
    ensures |b| <= |lines| && b == lines[..|b|]
    ensures forall k :: 0 <= k < |b| ==> !IsMarker(b[k])
    ensures |b| < |lines| ==> IsMarker(lines[|b|])
  {
    if lines == [] || IsMarker(lines[0]) then [] else [lines[0]] + Body(lines[1..])
  }

  /** What closing an open chapter contributes: nothing when it has neither a
      title nor a single body line, one trimmed chapter otherwise. */
  function Section(title: string, body: seq<string>): (r: seq<Chapter>)
    ensures |r| == if body != [] || title != "" then 1 else 0
  {
    if body != [] || title != "" then [Chapter(Strip(title), Strip(Join(body, "\n")))] else []
  }

  /** The chapters of the sections that make up `lines`, the first of them
      opened with `title`: each section runs from its marker to the next. */
  function SectionsFrom(title: string, lines: seq<string>): (r: seq<Chapter>)
    decreases |lines|
  {
    var b := Body(lines);
    Section(title, b) + (if |b| == |lines| then [] else SectionsFrom(MarkerTitle(lines[|b|]), lines[|b| + 1..]))
  }

  /** The chapters of `text`: the sections of its lines, or, when they yield
      none, one untitled chapter holding the whole text trimmed. */
  function Parse(text: string): (r: seq<Chapter>)
  {
    var cs := SectionsFrom("", Lines(text));
    if cs == [] then [Chapter("", Strip(text))] else cs
  }

  lemma {:induction false} BodyAppend(cur: seq<string>, rest: seq<string>)
    requires forall k :: 0 <= k < |cur| ==> !IsMarker(cur[k])
    ensures Body(cur + rest) == cur + Body(rest)
    decreases |cur|
  {
    if cur == [] {
      assert cur + rest == rest;
    } else {
      var s := cur + rest;
      assert s[0] == cur[0] && !IsMarker(s[0]);
      assert Body(s) == [cur[0]] + Body(s[1..]);
      assert s[1..] == cur[1..] + rest;
      BodyAppend(cur[1..], rest);
      assert [cur[0]] + cur[1..] == cur;
    }
  }

  /** A marker line after a run of body lines closes the section they belong to. */
  lemma {:induction false} SectionsAtMarker(title: string, cur: seq<string>, rest: seq<string>)
    requires forall k :: 0 <= k < |cur| ==> !IsMarker(cur[k])
    requires rest != [] && IsMarker(rest[0])
    ensures SectionsFrom(title, cur + rest) == Section(title, cur) + SectionsFrom(MarkerTitle(rest[0]), rest[1..])
  {
    var lines := cur + rest;
    BodyAppend(cur, rest);
    assert Body(rest) == [];
    assert cur + [] == cur;
    var b := Body(lines);
    assert b == cur;
    assert |b| < |lines|;
    assert lines[|b|] == rest[0];
    assert lines[|b| + 1..] == rest[1..];
  }

  lemma {:induction false} SectionsAtEnd(title: string, cur: seq<string>)
    requires forall k :: 0 <= k < |cur| ==> !IsMarker(cur[k])
    ensures SectionsFrom(title, cur) == Section(title, cur)
  {
    BodyAppend(cur, []);
    assert cur + [] == cur;
  }

  lemma ConcatAssoc<T>(a: seq<T>, b: seq<T>, c: seq<T>)
    ensures (a + b) + c == a + (b + c)
  {
  }

  /** What the scanner holds after some lines: the chapters closed so far and
      the title and body lines of the open one. */
  datatype ScanState = ScanState(done: seq<Chapter>, title: string, body: seq<string>)

  /** Closing the open chapter: it is kept when it has a title or a body line. */
  function Close(st: ScanState): seq<Chapter>
  {
    if st.body != [] || st.title != "" then st.done + [Chapter(Strip(st.title), Strip(Join(st.body, "\n")))]
    else st.done
  }

  function Step(st: ScanState, line: string): ScanState
  {
    if IsMarker(line) then ScanState(Close(st), Strip(line[3..]), [])
    else ScanState(st.done, st.title, st.body + [line])
  }

  /** The scanner's state after the given lines. */
  function Scan(lines: seq<string>): ScanState
  {
    if lines == [] then ScanState([], "", [])
    else Step(Scan(lines[..|lines| - 1]), lines[|lines| - 1])
  }

  /** One marker line: the open chapter is closed and a new one is opened. */
  lemma {:induction false} MarkerStep(st: ScanState, lines: seq<string>, i: nat)
    requires i < |lines| && IsMarker(lines[i])
    requires forall k :: 0 <= k < |st.body| ==> !IsMarker(st.body[k])
    ensures Close(st) + SectionsFrom(Strip(lines[i][3..]), lines[i + 1..])
            == st.done + SectionsFrom(st.title, st.body + lines[i..])
  {
    var todo := lines[i..];
    assert todo[0] == lines[i] && todo[1..] == lines[i + 1..];
    SectionsAtMarker(st.title, st.body, todo);
    var closed := Section(st.title, st.body);
    var next := SectionsFrom(MarkerTitle(lines[i]), lines[i + 1..]);
    assert SectionsFrom(st.title, st.body + todo) == closed + next;
    ConcatAssoc(st.done, closed, next);
    assert Close(st) == st.done + closed by {
      if st.body == [] && st.title == "" {
        assert st.done + [] == st.done;
      }
    }
    assert MarkerTitle(lines[i]) == Strip(lines[i][3..]);
  }

  /** A marker line: the open chapter is closed, a new one with no body
      lines yet is opened, and the sections still to come are unchanged. */
  lemma MarkerStepState(st: ScanState, lines: seq<string>, i: nat)
    requires i < |lines| && IsMarker(lines[i])
    requires forall k :: 0 <= k < |st.body| ==> !IsMarker(st.body[k])
    ensures Step(st, lines[i]).body == []
    ensures Step(st, lines[i]).done + SectionsFrom(Step(st, lines[i]).title, lines[i + 1..])
            == st.done + SectionsFrom(st.title, st.body + lines[i..])
  {
    MarkerStep(st, lines, i);
  }

  /** A body line joins the open chapter; the sections still to come are
      unchanged. */
  lemma BodyStep(body: seq<string>, lines: seq<string>, i: nat)
    requires i < |lines| && !IsMarker(lines[i])
    requires forall k :: 0 <= k < |body| ==> !IsMarker(body[k])
    ensures forall k :: 0 <= k < |body + [lines[i]]| ==> !IsMarker((body + [lines[i]])[k])
    ensures (body + [lines[i]]) + lines[i + 1..] == body + lines[i..]
  {
    assert lines[i..] == [lines[i]] + lines[i + 1..];
    ConcatAssoc(body, [lines[i]], lines[i + 1..]);
  }

  /** After the first `i` lines, the chapters closed so far followed by the
      sections of the open chapter and of the remaining lines are the
      sections of all the lines. */
  lemma {:induction false} ScanInvariant(lines: seq<string>, i: nat)
    requires i <= |lines|
    ensures var st := Scan(lines[..i]);
            && (forall k :: 0 <= k < |st.body| ==> !IsMarker(st.body[k]))
            && st.done + SectionsFrom(st.title, st.body + lines[i..]) == SectionsFrom("", lines)
  {
    if i == 0 {
      assert lines[..0] == [];
      assert [] + lines[0..] == lines;
    } else {
      ScanInvariant(lines, i - 1);
      var st := Scan(lines[..i - 1]);
      assert lines[..i][..i - 1] == lines[..i - 1];
      assert Scan(lines[..i]) == Step(st, lines[i - 1]);
      if IsMarker(lines[i - 1]) {
        MarkerStepState(st, lines, i - 1);
        assert Step(st, lines[i - 1]).body + lines[i..] == lines[i..];
      } else {
        BodyStep(st.body, lines, i - 1);
        assert Step(st, lines[i - 1]) == ScanState(st.done, st.title, st.body + [lines[i - 1]]);
      }
    }
  }

  /** Scanning all the lines and closing the last chapter yields their sections. */
  lemma ScanMatchesSections(lines: seq<string>)
    ensures Close(Scan(lines)) == SectionsFrom("", lines)
  {
    ScanInvariant(lines, |lines|);
    var st := Scan(lines);
    assert lines[..|lines|] == lines;
    assert st.body + lines[|lines|..] == st.body;
    SectionsAtEnd(st.title, st.body);
    assert Close(st) == st.done + Section(st.title, st.body) by {
      if st.body == [] && st.title == "" {
        assert st.done + [] == st.done;
      }
    }
  }

  /** The scanner of the source: one pass over `text.splitlines()`, with the
      open chapter's title and body lines in `curTitle` and `curLines`. It
      computes exactly the chapters `Parse` describes. */
  method ParseChapters(text: string) returns (chapters: seq<Chapter>)
    ensures chapters == Parse(text)
  {
    var lines := Lines(text);
    chapters := [];
    var curTitle := "";
    var curLines: seq<string> := [];
    var i := 0;
    while i < |lines|
      invariant 0 <= i <= |lines|
      invariant ScanState(chapters, curTitle, curLines) == Scan(lines[..i])
    {
      var line := lines[i];
      assert lines[..i + 1][..i] == lines[..i];
      if IsMarker(line) {
        if curLines != [] || curTitle != "" {
          chapters := chapters + [Chapter(Strip(curTitle), Strip(Join(curLines, "\n")))];
        }
        curTitle := Strip(line[3..]);
        curLines := [];
      } else {
        curLines := curLines + [line];
      }
      i := i + 1;
    }
    assert lines[..i] == lines;
    if curLines != [] || curTitle != "" {
      chapters := chapters + [Chapter(Strip(curTitle), Strip(Join(curLines, "\n")))];
    }
    ScanMatchesSections(lines);
    if chapters == [] {
      chapters := [Chapter("", Strip(text))];
    }
  }

  /** The parser never returns an empty list of chapters. */
  lemma ParseNonEmpty(text: string)
    ensures |Parse(text)| >= 1
  {
  }

  lemma {:induction false} SectionsTrimmed(title: string, lines: seq<string>)
    ensures forall c <- SectionsFrom(title, lines) :: IsStripped(c.title) && IsStripped(c.content)
    decreases |lines|
  {
    var b := Body(lines);
    StripStripped(title);
    StripStripped(Join(b, "\n"));
    if |b| < |lines| {
      SectionsTrimmed(MarkerTitle(lines[|b|]), lines[|b| + 1..]);
    }
  }

  /** Every title and every content the parser returns is trimmed. */
  lemma ParseTrimmed(text: string)
    ensures forall c <- Parse(text) :: IsStripped(c.title) && IsStripped(c.content)
  {
    SectionsTrimmed("", Lines(text));
    StripStripped(text);
    StripStripped("");
  }

  /** Whether the marker at the head of `lines` opens a chapter: it does when
      its title is not blank or a body line follows it. */
  predicate OpensChapter(lines: seq<string>)
    requires lines != [] && IsMarker(lines[0])
  {
    MarkerTitle(lines[0]) != "" || (|lines| > 1 && !IsMarker(lines[1]))
  }

  /** The number of marker lines in `lines` that open a chapter. */
  function KeptMarkers(lines: seq<string>): nat
  {
    if lines == [] then 0
    else (if IsMarker(lines[0]) && OpensChapter(lines) then 1 else 0) + KeptMarkers(lines[1..])
  }

  lemma {:induction false} KeptMarkersSkipBody(cur: seq<string>, rest: seq<string>)
    requires forall k :: 0 <= k < |cur| ==> !IsMarker(cur[k])
    ensures KeptMarkers(cur + rest) == KeptMarkers(rest)
    decreases |cur|
  {
    if cur == [] {
      assert cur + rest == rest;
    } else {
      var s := cur + rest;
      assert s[0] == cur[0] && !IsMarker(s[0]);
      assert s[1..] == cur[1..] + rest;
      KeptMarkersSkipBody(cur[1..], rest);
    }
  }

  /** How many chapters the sections of `lines` yield: one for the section
      opened with `title` if it has a title or a body line, plus one per marker
      line that opens a chapter. */
  lemma {:induction false} SectionsCount(title: string, lines: seq<string>)
    ensures |SectionsFrom(title, lines)| ==
            (if title != "" || (lines != [] && !IsMarker(lines[0])) then 1 else 0) + KeptMarkers(lines)
    decreases |lines|
  {
    var b := Body(lines);
    var rest := lines[|b|..];
    assert lines == b + rest;
    KeptMarkersSkipBody(b, rest);
    assert b != [] <==> (lines != [] && !IsMarker(lines[0]));
    if |b| < |lines| {
      assert rest[1..] == lines[|b| + 1..];
      SectionsCount(MarkerTitle(rest[0]), rest[1..]);
    }
  }

  /** The number of chapters: one for the lines before the first marker, if
      there are any (a blank line counts), plus one per marker line whose title
      is not blank or that a body line follows; at least one in all. */
  lemma ParseCount(text: string)
    ensures var lines := Lines(text);
            var n := (if lines != [] && !IsMarker(lines[0]) then 1 else 0) + KeptMarkers(lines);
            |Parse(text)| == if n == 0 then 1 else n
  {
    SectionsCount("", Lines(text));
  }

  /** A text without marker lines is one untitled chapter whose content is its
      lines rejoined with "\n" and trimmed. */
  lemma {:induction false} ParseWithoutMarkers(text: string)
    requires forall k :: 0 <= k < |Lines(text)| ==> !IsMarker(Lines(text)[k])
    ensures Parse(text) == [Chapter("", Strip(Join(Lines(text), "\n")))]
  {
    var lines := Lines(text);
    SectionsAtEnd("", lines);
    if lines == [] {
      assert text == [];
    }
  }

  /** When "\n" is the only line boundary in the text, that content is simply
      the whole text trimmed. */
  lemma {:induction false} ParseWithoutMarkersNewlineOnly(text: string)
    requires forall k :: 0 <= k < |Lines(text)| ==> !IsMarker(Lines(text)[k])
    requires forall i :: 0 <= i < |text| && IsLineBreak(text[i]) ==> text[i] == '\n'
    ensures Parse(text) == [Chapter("", Strip(text))]
  {
    ParseWithoutMarkers(text);
    LinesJoin(text);
    StripChopNewline(text);
  }

  /** "\r" is a line boundary of its own: "a\rb" splits into two lines. */
  lemma CarriageReturnLines()
    ensures Lines("a\rb") == ["a", "b"]
  {
    LinesOfLastLine("b");
    var t := "\rb";
    assert IsLineBreak(t[0]) && t[1] != '\n';
    assert t[1..] == "b";
    assert Lines(t) == [""] + ["b"];
    var s := "a\rb";
    assert !IsLineBreak(s[0]) && s[1..] == t;
    assert ['a'] + "" == "a";
    assert Lines(s) == ConsFirst('a', ["", "b"]);
  }

  /** With another line boundary the rejoined content differs from the whole
      text trimmed: "a\rb" is kept as "a\nb". */
  lemma CarriageReturnRejoined()
    ensures Parse("a\rb") == [Chapter("", "a\nb")]
    ensures Parse("a\rb")[0].content != Strip("a\rb")
  {
    CarriageReturnLines();
    ParseWithoutMarkers("a\rb");
    CarriageReturnJoin();
    StrippedTwoLetters('\n');
    StrippedTwoLetters('\r');
  }

  lemma CarriageReturnJoin()
    ensures Join(["a", "b"], "\n") == "a\nb"
  {
  }

  lemma StrippedTwoLetters(c: char)
    ensures Strip(['a', c, 'b']) == ['a', c, 'b']
  {
    StripIdempotent(['a', c, 'b']);
  }

  /** A single line that reads "## ..." only after leading whitespace is no
      marker: it is the content of the one untitled chapter, and trimming
      brings the "## " to the front of that content. */
  lemma IndentedMarkerIsContent(line: string)
    requires line != [] && NoLineBreak(line)
    requires !IsMarker(line) && IsMarker(Strip(line))
    ensures Parse(line) == [Chapter("", Strip(line))]
    ensures IsMarker(Parse(line)[0].content)
  {
    LinesOfLastLine(line);
    ParseWithoutMarkers(line);
  }

  /** A blank-title marker, a line feed and another: two marker lines. */
  lemma BlankMarkersLines()
    ensures Lines("## \n## ") == ["## ", "## "]
  {
    LinesOfLastLine("## ");
    LinesOfLine("## ", "## ");
    assert "## " + "\n" + "## " == "## \n## ";
  }

  /** Blank-title markers with no body line after them open no chapter. */
  lemma BlankMarkersSections()
    ensures SectionsFrom("", ["## ", "## "]) == []
  {
    var m := "## ";
    StripEmpty("");
    assert MarkerTitle(m) == "" by {
      assert m[3..] == "";
    }
    var tail: seq<string> := [m];
    assert Body(tail) == [];
    assert tail[1..] == [];
    assert SectionsFrom("", tail) == [];
    var lines: seq<string> := [m, m];
    assert Body(lines) == [];
    assert lines[1..] == tail;
  }

  lemma BlankMarkersStrip()
    ensures Strip("## \n## ") == "## \n##"
  {
    var core := "## \n##";
    assert "## \n## " == core + [' '];
    StripSnocSpace(core, ' ');
    assert IsStripped(core);
    StripIdempotent(core);
  }

  /** Two markers with blank titles and nothing else open no chapter, so the
      fall-back keeps the whole text trimmed, and its content begins with a
      marker line. */
  lemma BlankMarkersFallBack()
    ensures Parse("## \n## ") == [Chapter("", "## \n##")]
    ensures IsMarker(Parse("## \n## ")[0].content)
  {
    BlankMarkersLines();
    BlankMarkersSections();
    BlankMarkersStrip();
  }

}
