/**
  * Generated regions of a document: finding one between its markers, reading its
  * lines and replacing them. A document is its text split at newlines; no marker
  * spans two lines. What is done here to lines is tied to what the program does to the
  * text: the pieces before, between and after the markers are the text, the body read
  * is the strip and split of the middle one, and splitting the text written gives the
  * lines spliced here.
  */
module DocRegions {
  import opened Prelude
  import opened Splitting

  type Doc = seq<string>

  const ARROW := "-->"

  function BeginPrefix(name: string): string {
    "<!-- BEGIN GENERATED " + name
  }

  function EndPrefix(name: string): string {
    "<!-- END GENERATED " + name
  }

  // ---------------------------------------------------------------- one marker in one line

  predicate At(s: string, pat: string, i: int) {
    0 <= i && i + |pat| <= |s| && s[i..i + |pat|] == pat
  }

  function First(s: string, pat: string, from: nat): (r: Option<nat>)
    ensures r.Some? ==> from <= r.value && At(s, pat, r.value) && forall i :: from <= i < r.value ==> !At(s, pat, i)
    ensures r.None? ==> forall i :: from <= i ==> !At(s, pat, i)
    decreases |s| - from
  {
    if from > |s| then None else if At(s, pat, from) then Some(from) else First(s, pat, from + 1)
  }

  function Last(s: string, pat: string, from: nat): (r: Option<nat>)
    ensures r.Some? ==> from <= r.value && At(s, pat, r.value) && forall i :: r.value < i ==> !At(s, pat, i)
    ensures r.None? ==> forall i :: from <= i ==> !At(s, pat, i)
    decreases |s| - from
  {
    if from > |s| then None
    else
      var later := Last(s, pat, from + 1);
      if later.Some? then later else if At(s, pat, from) then Some(from) else None
  }

  datatype Span = Span(start: nat, end: nat)

  /** `prefix[^\n]*-->`: from the first place it can start to the last arrow of the line. */
  function Marker(line: string, prefix: string): (r: Option<Span>)
    ensures r.Some? ==> r.value.start <= r.value.end <= |line|
  {
    var i := First(line, prefix, 0);
    if i.None? then None
    else
      var j := Last(line, ARROW, i.value + |prefix|);
      if j.None? then None else Some(Span(i.value, j.value + |ARROW|))
  }

  ghost predicate Marks(line: string, prefix: string, i: int, j: int) {
    At(line, prefix, i) && i + |prefix| <= j && At(line, ARROW, j)
  }

  lemma MarkerIff(line: string, prefix: string)
    ensures Marker(line, prefix).Some? <==> exists i, j :: Marks(line, prefix, i, j)
  {
    var f := First(line, prefix, 0);
    if i, j :| Marks(line, prefix, i, j) {
      assert f.Some? && f.value <= i;
      assert Last(line, ARROW, f.value + |prefix|).Some?;
    }
    if Marker(line, prefix).Some? {
      assert Marks(line, prefix, f.value, Last(line, ARROW, f.value + |prefix|).value);
    }
  }

  lemma AtInPart(line: string, lo: nat, hi: nat, pat: string, i: int)
    requires lo <= hi <= |line|
    ensures At(line[lo..hi], pat, i) <==> 0 <= i && lo + i + |pat| <= hi && At(line, pat, lo + i)
  {
    if 0 <= i && lo + i + |pat| <= hi {
      var part, whole := line[lo..hi][i..i + |pat|], line[lo + i..lo + i + |pat|];
      forall k | 0 <= k < |pat| ensures part[k] == whole[k] {
      }
      assert part == whole;
    }
  }

  /** Part of a line has no marker the line does not have. */
  lemma PartHasNoNewMarker(line: string, lo: nat, hi: nat, prefix: string)
    requires lo <= hi <= |line| && Marker(line, prefix).None?
    ensures Marker(line[lo..hi], prefix).None?
  {
    MarkerIff(line, prefix);
    MarkerIff(line[lo..hi], prefix);
    if i, j :| Marks(line[lo..hi], prefix, i, j) {
      AtInPart(line, lo, hi, prefix, i);
      AtInPart(line, lo, hi, ARROW, j);
      assert Marks(line, prefix, lo + i, lo + j);
    }
  }

  /** What is before the end of a marker still holds that marker. */
  lemma CutAfterMarker(line: string, prefix: string)
    requires Marker(line, prefix).Some?
    ensures var m := Marker(line, prefix).value; Marker(line[..m.end], prefix) == Some(m)
  {
    var m := Marker(line, prefix).value;
    var cut := line[..m.end];
    assert cut == line[0..m.end];
    forall i ensures At(cut, prefix, i) ==> At(line, prefix, i) {
      AtInPart(line, 0, m.end, prefix, i);
    }
    var j := m.end - |ARROW|;
    assert First(cut, prefix, 0) == Some(m.start) by {
      AtInPart(line, 0, m.end, prefix, m.start);
      assert At(cut, prefix, m.start);
    }
    assert Last(cut, ARROW, m.start + |prefix|) == Some(j) by {
      AtInPart(line, 0, m.end, ARROW, j);
      assert At(cut, ARROW, j);
    }
  }

  /** What is from the start of a marker on begins with that marker. */
  lemma CutBeforeMarker(line: string, prefix: string)
    requires Marker(line, prefix).Some?
    ensures var m := Marker(line, prefix).value; Marker(line[m.start..], prefix) == Some(Span(0, m.end - m.start))
  {
    var m := Marker(line, prefix).value;
    var cut := line[m.start..];
    assert cut == line[m.start..|line|];
    forall i ensures At(cut, ARROW, i) ==> At(line, ARROW, m.start + i) {
      AtInPart(line, m.start, |line|, ARROW, i);
    }
    AtInPart(line, m.start, |line|, prefix, 0);
    AtInPart(line, m.start, |line|, ARROW, m.end - |ARROW| - m.start);
    var j := m.end - |ARROW| - m.start;
    assert At(cut, prefix, 0) && At(cut, ARROW, j);
    assert First(cut, prefix, 0) == Some(0);
    assert Last(cut, ARROW, |prefix|) == Some(j);
  }

  // ---------------------------------------------------------------- locating a region

  /** The lines, in order, that carry a marker. */
  function Marked(doc: Doc, prefix: string, from: nat): (r: seq<nat>)
    requires from <= |doc|
    ensures forall k :: 0 <= k < |r| ==> from <= r[k] < |doc| && Marker(doc[r[k]], prefix).Some?
    ensures forall i :: from <= i < |doc| && Marker(doc[i], prefix).Some? ==> i in r
    ensures forall k, l :: 0 <= k < l < |r| ==> r[k] < r[l]
    decreases |doc| - from
  {
    if from == |doc| then []
    else
      var rest := Marked(doc, prefix, from + 1);
      if Marker(doc[from], prefix).Some? then [from] + rest else rest
  }

  datatype Missing = NoBegin | NoEnd | SeveralBegins | SeveralEnds | Inverted

  /** The body starts in line `first` at column `from` and stops in line `last` at column `to`. */
  datatype Place = Place(first: nat, from: nat, last: nat, to: nat)

  datatype Located = Found(at: Place) | Lost(why: Missing)

  function Locate(doc: Doc, name: string): (r: Located)
    ensures r.Found? ==> r.at.first <= r.at.last < |doc| && r.at.from <= |doc[r.at.first]| && r.at.to <= |doc[r.at.last]|
  {
    var begins, ends := Marked(doc, BeginPrefix(name), 0), Marked(doc, EndPrefix(name), 0);
    if begins == [] then Lost(NoBegin)
    else if ends == [] then Lost(NoEnd)
    else if |begins| > 1 then Lost(SeveralBegins)
    else if |ends| > 1 then Lost(SeveralEnds)
    else
      var b, e := begins[0], ends[0];
      var from, to := Marker(doc[b], BeginPrefix(name)).value.end, Marker(doc[e], EndPrefix(name)).value.start;
      if e < b || (e == b && to < from) then Lost(Inverted) else Found(Place(b, from, e, to))
  }

  predicate OnlyAt(doc: Doc, prefix: string, line: nat) {
    && line < |doc| && Marker(doc[line], prefix).Some?
    && forall i :: 0 <= i < |doc| && i != line ==> Marker(doc[i], prefix).None?
  }

  lemma OneMarked(doc: Doc, prefix: string, line: nat)
    ensures OnlyAt(doc, prefix, line) <==> Marked(doc, prefix, 0) == [line]
  {
    var m := Marked(doc, prefix, 0);
    if OnlyAt(doc, prefix, line) {
      assert line in m;
      assert forall k :: 0 <= k < |m| ==> m[k] == line;
      assert m != [] ==> m[|m| - 1] == m[0];
    }
    if m == [line] {
      assert line in m;
      forall i | 0 <= i < |doc| && i != line ensures Marker(doc[i], prefix).None? {
        assert i !in m;
      }
    }
  }

  /** Both markers on one line: the BEGIN marker runs over the END marker, so that is never a region. */
  lemma MarkersShareNoLine(doc: Doc, name: string)
    requires Locate(doc, name).Found?
    ensures Locate(doc, name).at.first < Locate(doc, name).at.last
  {
  }

  /** The two markers are each the only ones, one below the other, with `p` between them. */
  predicate StandsAt(doc: Doc, name: string, p: Place) {
    && p.first < p.last && OnlyAt(doc, BeginPrefix(name), p.first) && OnlyAt(doc, EndPrefix(name), p.last)
    && Marker(doc[p.first], BeginPrefix(name)).value.end == p.from
    && Marker(doc[p.last], EndPrefix(name)).value.start == p.to
  }

  lemma LocateIff(doc: Doc, name: string, p: Place)
    ensures Locate(doc, name) == Found(p) <==> StandsAt(doc, name, p)
  {
    OneMarked(doc, BeginPrefix(name), p.first);
    OneMarked(doc, EndPrefix(name), p.last);
    if Locate(doc, name) == Found(p) {
      MarkersShareNoLine(doc, name);
    }
  }

  // ---------------------------------------------------------------- reading and replacing

  function DropLeading(lines: seq<string>): seq<string> {
    if lines != [] && lines[0] == "" then DropLeading(lines[1..]) else lines
  }

  function DropTrailing(lines: seq<string>): seq<string> {
    if lines != [] && lines[|lines| - 1] == "" then DropTrailing(lines[..|lines| - 1]) else lines
  }

  /** The lines `strip("\n")` leaves of a text, `[""]` for an empty one. */
  function Stripped(lines: seq<string>): seq<string> {
    var kept := DropTrailing(DropLeading(lines));
    if kept == [] then [""] else kept
  }

  predicate Fits(doc: Doc, p: Place) {
    p.first < p.last < |doc| && p.from <= |doc[p.first]| && p.to <= |doc[p.last]|
  }

  /** What lies between the markers, line by line; the lines of the markers only in part. */
  function Between(doc: Doc, p: Place): seq<string>
    requires Fits(doc, p)
  {
    [doc[p.first][p.from..]] + doc[p.first + 1..p.last] + [doc[p.last][..p.to]]
  }

  function BodyOf(doc: Doc, name: string): seq<string>
    requires Locate(doc, name).Found?
  {
    MarkersShareNoLine(doc, name);
    Stripped(Between(doc, Locate(doc, name).at))
  }

  function Spliced(doc: Doc, p: Place, lines: seq<string>): Doc
    requires Fits(doc, p)
  {
    doc[..p.first] + [doc[p.first][..p.from]] + lines + [doc[p.last][p.to..]] + doc[p.last + 1..]
  }

  /** The lines a text of these lines has. */
  function Rendered(lines: seq<string>): (r: seq<string>)
    ensures r != [] && forall l :: l in r ==> '\n' !in l
  {
    Split(Join(lines, '\n'), '\n')
  }

  function ReplaceBody(doc: Doc, name: string, lines: seq<string>): Doc
    requires Locate(doc, name).Found?
  {
    MarkersShareNoLine(doc, name);
    Spliced(doc, Locate(doc, name).at, Rendered(lines))
  }

  // ---------------------------------------------------------------- over the text itself

  predicate OneLined(lines: seq<string>) {
    forall l :: l in lines ==> '\n' !in l
  }

  lemma RenderedIsLines(lines: seq<string>)
    requires lines != [] && OneLined(lines)
    ensures Rendered(lines) == lines
  {
    SplitOfJoin(lines, '\n');
  }

  /** `text[:a]`, `text[a:b]` and `text[b:]` for the region at `p` of a text of these lines. */
  function Before(doc: Doc, p: Place): string
    requires Fits(doc, p)
  {
    Join(doc[..p.first] + [doc[p.first][..p.from]], '\n')
  }

  function Body(doc: Doc, p: Place): string
    requires Fits(doc, p)
  {
    Join(Between(doc, p), '\n')
  }

  function After(doc: Doc, p: Place): string
    requires Fits(doc, p)
  {
    Join([doc[p.last][p.to..]] + doc[p.last + 1..], '\n')
  }

  lemma {:induction false} JoinAtColumn(a: seq<string>, x: string, y: string, b: seq<string>)
    ensures Join(a + [x], '\n') + Join([y] + b, '\n') == Join(a + [x + y] + b, '\n')
  {
    if a == [] {
      assert a + [x] == [x] && a + [x + y] + b == [x + y] + b;
      assert ([y] + b)[1..] == b == ([x + y] + b)[1..];
      if b != [] {
        ConcatAssociates(x, y, ['\n'] + Join(b, '\n'));
      }
    } else {
      JoinAtColumn(a[1..], x, y, b);
      assert (a + [x])[1..] == a[1..] + [x] && (a + [x + y] + b)[1..] == a[1..] + [x + y] + b;
      var rest := Join([y] + b, '\n');
      ConcatAssociates(['\n'], Join(a[1..] + [x], '\n'), rest);
      ConcatAssociates(a[0], ['\n'] + Join(a[1..] + [x], '\n'), rest);
    }
  }

  lemma BeforeAndBody(doc: Doc, p: Place)
    requires Fits(doc, p)
    ensures Before(doc, p) + Body(doc, p) == Join(doc[..p.last] + [doc[p.last][..p.to]], '\n')
  {
    var front, line, rest := doc[..p.first], doc[p.first], doc[p.first + 1..p.last] + [doc[p.last][..p.to]];
    JoinAtColumn(front, line[..p.from], line[p.from..], rest);
    assert line[..p.from] + line[p.from..] == line;
    assert [line[p.from..]] + rest == Between(doc, p);
    assert front + [line] + rest == doc[..p.last] + [doc[p.last][..p.to]];
  }

  /** The three pieces are the text. */
  lemma PiecesAreTheText(doc: Doc, p: Place)
    requires Fits(doc, p)
    ensures Before(doc, p) + Body(doc, p) + After(doc, p) == Join(doc, '\n')
  {
    var last := doc[p.last];
    BeforeAndBody(doc, p);
    JoinAtColumn(doc[..p.last], last[..p.to], last[p.to..], doc[p.last + 1..]);
    assert last[..p.to] + last[p.to..] == last;
    assert doc[..p.last] + [last] + doc[p.last + 1..] == doc;
  }

  lemma PartIsOneLine(doc: Doc, i: nat, lo: nat, hi: nat)
    requires OneLined(doc) && i < |doc| && lo <= hi <= |doc[i]|
    ensures '\n' !in doc[i][lo..hi]
  {
    assert doc[i] in doc;
  }

  lemma PartsAreOneLined(doc: Doc, p: Place)
    requires Fits(doc, p) && OneLined(doc)
    ensures OneLined(doc[..p.first] + [doc[p.first][..p.from]])
    ensures OneLined([doc[p.last][p.to..]] + doc[p.last + 1..])
    ensures OneLined(Between(doc, p))
  {
    var first, last := doc[p.first], doc[p.last];
    PartIsOneLine(doc, p.first, 0, p.from);
    PartIsOneLine(doc, p.first, p.from, |first|);
    PartIsOneLine(doc, p.last, 0, p.to);
    PartIsOneLine(doc, p.last, p.to, |last|);
    assert first[..p.from] == first[0..p.from] && first[p.from..] == first[p.from..|first|];
    assert last[..p.to] == last[0..p.to] && last[p.to..] == last[p.to..|last|];
    forall l | l in doc[..p.first] || l in doc[p.first + 1..p.last] || l in doc[p.last + 1..] ensures '\n' !in l {
      assert l in doc;
    }
  }

  /** `replace_body` on the text: what is before, a newline, the lines joined, a newline, what is after. */
  function ReplaceText(text: string, name: string, lines: seq<string>): string
    requires Locate(Split(text, '\n'), name).Found?
  {
    MarkersShareNoLine(Split(text, '\n'), name);
    var doc, p := Split(text, '\n'), Locate(Split(text, '\n'), name).at;
    Before(doc, p) + ("\n" + (Join(lines, '\n') + ("\n" + After(doc, p))))
  }

  lemma LinesReplaced(doc: Doc, p: Place, lines: seq<string>)
    requires Fits(doc, p) && OneLined(doc)
    ensures Split(Before(doc, p) + ("\n" + (Join(lines, '\n') + ("\n" + After(doc, p)))), '\n') == Spliced(doc, p, Rendered(lines))
  {
    var front, rear := doc[..p.first] + [doc[p.first][..p.from]], [doc[p.last][p.to..]] + doc[p.last + 1..];
    PartsAreOneLined(doc, p);
    SplitOfJoin(front, '\n');
    SplitOfJoin(rear, '\n');
    SplitThree(Before(doc, p), Join(lines, '\n'), After(doc, p));
    assert front + (Rendered(lines) + rear) == Spliced(doc, p, Rendered(lines));
  }

  lemma SplitThree(a: string, b: string, c: string)
    ensures Split(a + ("\n" + (b + ("\n" + c))), '\n') == Split(a, '\n') + (Split(b, '\n') + Split(c, '\n'))
  {
    SplitConcat(b, c, '\n');
    SplitConcat(a, b + ("\n" + c), '\n');
  }

  /** What is done to the lines is what the program does to the text. */
  lemma TextOfRegion(text: string, name: string, lines: seq<string>)
    requires Locate(Split(text, '\n'), name).Found?
    ensures var doc := Split(text, '\n');
            var p := Locate(doc, name).at;
            && Fits(doc, p)
            && Before(doc, p) + Body(doc, p) + After(doc, p) == text
            && BodyOf(doc, name) == Split(RightStrip(LeftStrip(Body(doc, p))), '\n')
            && Split(ReplaceText(text, name, lines), '\n') == ReplaceBody(doc, name, lines)
  {
    var doc := Split(text, '\n');
    var p := Locate(doc, name).at;
    MarkersShareNoLine(doc, name);
    PiecesAreTheText(doc, p);
    JoinOfSplit(text, '\n');
    PartsAreOneLined(doc, p);
    StrippedText(Between(doc, p));
    LinesReplaced(doc, p, lines);
  }

  /** Lines whose ends are not empty, or the one empty line: what stripping cannot shorten. */
  predicate FirmEnds(lines: seq<string>) {
    lines == [""] || (lines != [] && lines[0] != "" && lines[|lines| - 1] != "")
  }

  lemma StrippedHasNoNewLine(lines: seq<string>)
    requires OneLined(lines)
    ensures Stripped(lines) != [] && OneLined(Stripped(lines))
  {
    DroppedLeadingEnd(lines);
    DroppedTrailingEnd(DropLeading(lines));
  }

  lemma DropOneLeading(lines: seq<string>)
    ensures DropLeading([""] + lines) == DropLeading(lines)
  {
    assert ([""] + lines)[1..] == lines;
  }

  lemma DropOneTrailing(lines: seq<string>)
    ensures DropTrailing(lines + [""]) == DropTrailing(lines)
  {
    assert (lines + [""])[..|lines|] == lines;
  }

  lemma {:induction false} DroppedLeadingEnd(lines: seq<string>)
    ensures var r := DropLeading(lines); |r| <= |lines| && r == lines[|lines| - |r|..] && (r != [] ==> r[0] != "")
  {
    if lines != [] && lines[0] == "" {
      DroppedLeadingEnd(lines[1..]);
    }
  }

  lemma {:induction false} DroppedTrailingEnd(lines: seq<string>)
    ensures var r := DropTrailing(lines); |r| <= |lines| && r == lines[..|r|] && (r != [] ==> r[|r| - 1] != "")
  {
    if lines != [] && lines[|lines| - 1] == "" {
      DroppedTrailingEnd(lines[..|lines| - 1]);
    }
  }

  lemma {:induction false} DropLeadingSnoc(lines: seq<string>)
    ensures DropTrailing(DropLeading(lines + [""])) == DropTrailing(DropLeading(lines))
  {
    if lines == [] {
      assert lines + [""] == [""];
      assert DropLeading([""]) == [];
    } else if lines[0] == "" {
      assert (lines + [""])[1..] == lines[1..] + [""];
      DropLeadingSnoc(lines[1..]);
    } else {
      DropOneTrailing(lines);
    }
  }

  function LeftStrip(s: string): string {
    if s != "" && s[0] == '\n' then LeftStrip(s[1..]) else s
  }

  function RightStrip(s: string): string {
    if s != "" && s[|s| - 1] == '\n' then RightStrip(s[..|s| - 1]) else s
  }

  lemma {:induction false} LeftStripOfJoin(lines: seq<string>)
    requires forall l :: l in lines ==> '\n' !in l
    ensures LeftStrip(Join(lines, '\n')) == Join(DropLeading(lines), '\n')
  {
    if lines == [] {
    } else if lines[0] == "" {
      LeftStripOfJoin(lines[1..]);
      if |lines| > 1 {
        assert Join(lines, '\n') == "\n" + Join(lines[1..], '\n');
        assert Join(lines, '\n')[1..] == Join(lines[1..], '\n');
      }
    } else {
      assert lines[0] in lines;
    }
  }

  lemma {:induction false} RightStripOfJoin(lines: seq<string>)
    requires forall l :: l in lines ==> '\n' !in l
    ensures RightStrip(Join(lines, '\n')) == Join(DropTrailing(lines), '\n')
  {
    if lines == [] {
    } else if lines[|lines| - 1] == "" {
      var front := lines[..|lines| - 1];
      RightStripOfJoin(front);
      assert lines == front + [""];
      if front != [] {
        JoinSnocEmpty(front, '\n');
        assert (Join(front, '\n') + "\n")[..|Join(front, '\n')|] == Join(front, '\n');
      }
    } else {
      assert lines[|lines| - 1] in lines;
      JoinEndsAsLast(lines, '\n');
    }
  }

  /** Over the text itself: `text.strip("\n").split("\n")`, for a text of these lines. */
  lemma StrippedText(lines: seq<string>)
    requires forall l :: l in lines ==> '\n' !in l
    ensures Split(RightStrip(LeftStrip(Join(lines, '\n'))), '\n') == Stripped(lines)
  {
    DroppedLeadingEnd(lines);
    DroppedTrailingEnd(DropLeading(lines));
    LeftStripOfJoin(lines);
    RightStripOfJoin(DropLeading(lines));
    var kept := DropTrailing(DropLeading(lines));
    if kept != [] {
      SplitOfJoin(kept, '\n');
    }
  }

  /** Written lines read back as themselves exactly when their ends are firm. */
  lemma StrippedIff(lines: seq<string>)
    ensures Stripped([""] + lines + [""]) == lines <==> FirmEnds(lines)
  {
    assert [""] + lines + [""] == [""] + (lines + [""]);
    DropOneLeading(lines + [""]);
    DropLeadingSnoc(lines);
    DroppedLeadingEnd(lines);
    DroppedTrailingEnd(DropLeading(lines));
    var kept := DropTrailing(DropLeading(lines));
    assert |kept| == |lines| ==> kept == lines;
    if lines == [""] {
      assert DropLeading([""]) == [];
    } else if FirmEnds(lines) {
      assert DropLeading(lines) == lines && DropTrailing(lines) == lines;
    }
  }
}
