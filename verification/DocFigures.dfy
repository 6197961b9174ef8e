/**
  * Writing and checking the generated regions of the documents: one write makes every
  * check agree, touches nothing outside the regions, and a second write changes nothing.
  *
  * A write is followed from its own region, where the lines between the markers become
  * the lines written, and from any other region of the document, whose lines move with
  * their markers. Over a whole run each region agrees from its own turn on.
  */
module DocFigures {
  import opened Prelude
  import opened DocRegions
  import opened Splitting
  import JsonValues

  // ---------------------------------------------------------------- one write, seen from its own region

  /** None of the lines carries a marker of the region. */
  predicate FreeOf(lines: seq<string>, name: string) {
    forall k :: 0 <= k < |lines| ==> Marker(lines[k], BeginPrefix(name)).None? && Marker(lines[k], EndPrefix(name)).None?
  }

  /** Where the region is once `n` lines have been written into it. */
  function Rewritten(p: Place, n: nat): Place {
    Place(p.first, p.from, p.first + n + 1, 0)
  }

  /** Where a line outside the region moves to. */
  function Shift(p: Place, n: nat, i: nat): int {
    if i < p.first then i else i + n + 1 - (p.last - p.first)
  }

  lemma PartsOf<T>(a: seq<T>, x: T, m: seq<T>, y: T, b: seq<T>)
    ensures var s := a + [x] + m + [y] + b;
            && |s| == |a| + 1 + |m| + 1 + |b| && s[|a|] == x && s[|a| + 1 + |m|] == y
            && s[..|a|] == a && s[|a| + 1..|a| + 1 + |m|] == m && s[|a| + |m| + 2..] == b
  {
  }

  /** A marker that stands outside the written lines, once only, still does. */
  lemma MarkerMoves(doc: Doc, p: Place, lines: seq<string>, prefix: string, line: nat)
    requires Fits(doc, p) && OnlyAt(doc, prefix, line) && (line < p.first || p.last < line)
    requires forall k :: 0 <= k < |lines| ==> Marker(lines[k], prefix).None?
    ensures var out, to := Spliced(doc, p, lines), Shift(p, |lines|, line);
            to >= 0 && OnlyAt(out, prefix, to) && out[to] == doc[line]
  {
    var out := Spliced(doc, p, lines);
    CutLinesHaveNoNewMarker(doc, p, prefix);
  }

  lemma CutLinesHaveNoNewMarker(doc: Doc, p: Place, prefix: string)
    requires Fits(doc, p)
    ensures Marker(doc[p.first], prefix).None? ==> Marker(doc[p.first][..p.from], prefix).None?
    ensures Marker(doc[p.last], prefix).None? ==> Marker(doc[p.last][p.to..], prefix).None?
  {
    assert doc[p.last][p.to..] == doc[p.last][p.to..|doc[p.last]|] && doc[p.first][..p.from] == doc[p.first][0..p.from];
    if Marker(doc[p.first], prefix).None? {
      PartHasNoNewMarker(doc[p.first], 0, p.from, prefix);
    }
    if Marker(doc[p.last], prefix).None? {
      PartHasNoNewMarker(doc[p.last], p.to, |doc[p.last]|, prefix);
    }
  }

  lemma OwnMarkersStay(doc: Doc, name: string, p: Place, lines: seq<string>)
    requires StandsAt(doc, name, p) && FreeOf(lines, name)
    ensures Fits(doc, p) && StandsAt(Spliced(doc, p, lines), name, Rewritten(p, |lines|))
  {
    var b, e := BeginPrefix(name), EndPrefix(name);
    CutAfterMarker(doc[p.first], b);
    CutBeforeMarker(doc[p.last], e);
    CutLinesHaveNoNewMarker(doc, p, b);
    CutLinesHaveNoNewMarker(doc, p, e);
    MarkersOfParts(doc, p, lines);
  }

  /** Where each line of the rewritten document comes from. */
  lemma MarkersOfParts(doc: Doc, p: Place, lines: seq<string>)
    requires Fits(doc, p)
    ensures var out, last := Spliced(doc, p, lines), p.first + |lines| + 1;
            && |out| == |doc| + |lines| + 1 - (p.last - p.first)
            && out[p.first] == doc[p.first][..p.from] && out[last] == doc[p.last][p.to..]
            && (forall i :: 0 <= i < p.first ==> out[i] == doc[i])
            && (forall i :: p.first < i < last ==> out[i] == lines[i - p.first - 1])
            && (forall i :: last < i < |out| ==> out[i] == doc[i - last + p.last])
  {
  }

  lemma WrittenBetween(doc: Doc, p: Place, lines: seq<string>)
    requires Fits(doc, p)
    ensures var out, q := Spliced(doc, p, lines), Rewritten(p, |lines|);
            Fits(out, q) && Between(out, q) == [""] + lines + [""]
  {
    var out := Spliced(doc, p, lines);
    PartsOf(doc[..p.first], doc[p.first][..p.from], lines, doc[p.last][p.to..], doc[p.last + 1..]);
    assert out[p.first][p.from..] == "";
    assert out[p.first + 1..p.first + |lines| + 1] == lines;
  }

  /** The region is still there, and what lies between its markers is the lines written. */
  lemma WrittenRegion(doc: Doc, name: string, lines: seq<string>)
    requires Locate(doc, name).Found? && FreeOf(Rendered(lines), name)
    ensures var p, out, written := Locate(doc, name).at, ReplaceBody(doc, name, lines), Rendered(lines);
            Locate(out, name) == Found(Rewritten(p, |written|)) && BodyOf(out, name) == Stripped([""] + written + [""])
  {
    var p, out, written := Locate(doc, name).at, ReplaceBody(doc, name, lines), Rendered(lines);
    LocateIff(doc, name, p);
    OwnMarkersStay(doc, name, p, written);
    LocateIff(out, name, Rewritten(p, |written|));
    WrittenBetween(doc, p, written);
  }

  /** What was written is read back exactly when its ends are firm and no line of it holds a newline. */
  lemma ReadBackIff(doc: Doc, name: string, lines: seq<string>)
    requires Locate(doc, name).Found? && FreeOf(Rendered(lines), name)
    ensures Locate(ReplaceBody(doc, name, lines), name).Found?
    ensures BodyOf(ReplaceBody(doc, name, lines), name) == lines <==> FirmEnds(lines) && OneLined(lines)
  {
    var written := Rendered(lines);
    WrittenRegion(doc, name, lines);
    StrippedHasNoNewLine([""] + written + [""]);
    if lines != [] && OneLined(lines) {
      RenderedIsLines(lines);
      StrippedIff(lines);
    }
  }

  /** The same, of the text in the file. */
  lemma TextReadBackIff(text: string, name: string, lines: seq<string>)
    requires Locate(Split(text, '\n'), name).Found? && FreeOf(Rendered(lines), name)
    ensures Locate(Split(ReplaceText(text, name, lines), '\n'), name).Found?
    ensures BodyOf(Split(ReplaceText(text, name, lines), '\n'), name) == lines <==> FirmEnds(lines) && OneLined(lines)
  {
    TextOfRegion(text, name, lines);
    ReadBackIff(Split(text, '\n'), name, lines);
  }

  /** All text before and after the body is what it was. */
  lemma OutsideUntouched(doc: Doc, name: string, lines: seq<string>)
    requires Locate(doc, name).Found? && FreeOf(Rendered(lines), name)
    ensures Locate(ReplaceBody(doc, name, lines), name).Found?
    ensures var p, out := Locate(doc, name).at, ReplaceBody(doc, name, lines);
            var q := Locate(out, name).at;
            && out[..q.first] == doc[..p.first] && out[q.first][..q.from] == doc[p.first][..p.from]
            && out[q.last][q.to..] == doc[p.last][p.to..] && out[q.last + 1..] == doc[p.last + 1..]
  {
    var p, out, written := Locate(doc, name).at, ReplaceBody(doc, name, lines), Rendered(lines);
    assert Fits(doc, p) && out == Spliced(doc, p, written) by {
      MarkersShareNoLine(doc, name);
    }
    SplicedOutside(doc, p, written);
    assert Locate(out, name) == Found(Rewritten(p, |written|)) by {
      WrittenRegion(doc, name, lines);
    }
  }

  lemma SplicedOutside(doc: Doc, p: Place, written: seq<string>)
    requires Fits(doc, p)
    ensures var out, q := Spliced(doc, p, written), Rewritten(p, |written|);
            && q.last < |out| && q.from <= |out[q.first]| && q.to <= |out[q.last]|
            && out[..q.first] == doc[..p.first] && out[q.first][..q.from] == doc[p.first][..p.from]
            && out[q.last][q.to..] == doc[p.last][p.to..] && out[q.last + 1..] == doc[p.last + 1..]
  {
    PartsOf(doc[..p.first], doc[p.first][..p.from], written, doc[p.last][p.to..], doc[p.last + 1..]);
  }

  // ---------------------------------------------------------------- one write, seen from another region

  predicate Apart(p: Place, q: Place) {
    p.last < q.first || q.last < p.first
  }

  function Moved(p: Place, n: nat, q: Place): Place
    requires Apart(p, q) && p.first < p.last && q.first < q.last
  {
    if q.last < p.first then q
    else Place(q.first + n + 1 - (p.last - p.first), q.from, q.last + n + 1 - (p.last - p.first), q.to)
  }

  lemma OtherMarkersMove(doc: Doc, p: Place, other: string, q: Place, lines: seq<string>)
    requires Fits(doc, p) && StandsAt(doc, other, q) && FreeOf(lines, other) && Apart(p, q)
    ensures StandsAt(Spliced(doc, p, lines), other, Moved(p, |lines|, q))
  {
    MarkerMoves(doc, p, lines, BeginPrefix(other), q.first);
    MarkerMoves(doc, p, lines, EndPrefix(other), q.last);
  }

  /** The same stretch of two equal parts, which start at different places. */
  lemma SameStretch<T>(s: seq<T>, i: nat, t: seq<T>, j: nat, n: nat, x: nat, y: nat)
    requires i + n <= |s| && j + n <= |t| && s[i..i + n] == t[j..j + n] && x <= y <= n
    ensures s[i + x..i + y] == t[j + x..j + y]
  {
    SliceOfSlice(s, i, n, x, y);
    SliceOfSlice(t, j, n, x, y);
  }

  /** The lines of a region elsewhere, markers and all, are what they were, further up or down. */
  lemma RegionLinesMove(doc: Doc, p: Place, q: Place, lines: seq<string>)
    requires Fits(doc, p) && Fits(doc, q) && Apart(p, q)
    ensures var out, r := Spliced(doc, p, lines), Moved(p, |lines|, q);
            r.last < |out| && out[r.first..r.last + 1] == doc[q.first..q.last + 1]
  {
    var out := Spliced(doc, p, lines);
    var k, n := p.first + |lines| + 2, |doc| - p.last - 1;
    assert |out| == k + n && out[..p.first] == doc[..p.first] && out[k..] == doc[p.last + 1..] by {
      SplicedOutside(doc, p, lines);
      MarkersOfParts(doc, p, lines);
    }
    if q.last < p.first {
      assert out[0..0 + p.first] == out[..p.first] && doc[0..0 + p.first] == doc[..p.first];
      SameStretch(out, 0, doc, 0, p.first, q.first, q.last + 1);
    } else {
      assert out[k..k + n] == out[k..] && doc[p.last + 1..p.last + 1 + n] == doc[p.last + 1..];
      SameStretch(out, k, doc, p.last + 1, n, q.first - p.last - 1, q.last - p.last);
    }
  }

  lemma SameBetween(out: Doc, r: Place, doc: Doc, q: Place)
    requires r.first < r.last < |out| && Fits(doc, q) && r.from == q.from && r.to == q.to
    requires out[r.first..r.last + 1] == doc[q.first..q.last + 1]
    ensures Fits(out, r) && Between(out, r) == Between(doc, q)
  {
    var a, b := out[r.first..r.last + 1], doc[q.first..q.last + 1];
    var n := q.last - q.first;
    assert |a| == |b| == n + 1;
    assert a[0] == out[r.first] && a[n] == out[r.last] && b[0] == doc[q.first] && b[n] == doc[q.last];
    SliceOfSlice(out, r.first, n + 1, 1, n);
    SliceOfSlice(doc, q.first, n + 1, 1, n);
  }

  lemma SameLinesBetween(doc: Doc, p: Place, q: Place, lines: seq<string>)
    requires Fits(doc, p) && Fits(doc, q) && Apart(p, q)
    ensures var out, r := Spliced(doc, p, lines), Moved(p, |lines|, q);
            Fits(out, r) && Between(out, r) == Between(doc, q)
  {
    RegionLinesMove(doc, p, q, lines);
    SameBetween(Spliced(doc, p, lines), Moved(p, |lines|, q), doc, q);
  }

  lemma OtherRegionMoves(doc: Doc, name: string, other: string, lines: seq<string>)
    requires Locate(doc, name).Found? && Locate(doc, other).Found? && FreeOf(Rendered(lines), other)
    requires Apart(Locate(doc, name).at, Locate(doc, other).at)
    ensures var p, q, out := Locate(doc, name).at, Locate(doc, other).at, ReplaceBody(doc, name, lines);
            && p.first < p.last && q.first < q.last
            && Locate(out, other) == Found(Moved(p, |Rendered(lines)|, q)) && BodyOf(out, other) == BodyOf(doc, other)
  {
    var p, q, out := Locate(doc, name).at, Locate(doc, other).at, ReplaceBody(doc, name, lines);
    LocateIff(doc, name, p);
    LocateIff(doc, other, q);
    OtherMarkersMove(doc, p, other, q, Rendered(lines));
    LocateIff(out, other, Moved(p, |Rendered(lines)|, q));
    SameLinesBetween(doc, p, q, Rendered(lines));
  }

  // ---------------------------------------------------------------- the run

  type Path = string

  /** A region: its document, its name, and the lines the generator renders for it. */
  datatype Region = Region(path: Path, name: string, want: seq<string>)

  type Files = map<Path, Doc>

  function StripLines(lines: seq<string>): (r: seq<string>)
    ensures |r| == |lines|
  {
    seq(|lines|, i requires 0 <= i < |lines| => JsonValues.Strip(lines[i]))
  }

  predicate Readable(files: Files, r: Region) {
    r.path in files && Locate(files[r.path], r.name).Found?
  }

  /** The region's lines are those rendered, up to white space at their ends. */
  predicate Agrees(files: Files, r: Region) {
    Readable(files, r) && StripLines(BodyOf(files[r.path], r.name)) == StripLines(r.want)
  }

  predicate Disagrees(files: Files, r: Region) {
    Readable(files, r) && !Agrees(files, r)
  }

  function WriteOne(files: Files, r: Region): Files {
    if Disagrees(files, r) then files[r.path := ReplaceBody(files[r.path], r.name, r.want)] else files
  }

  function WriteAll(files: Files, regions: seq<Region>): Files {
    if regions == [] then files else WriteAll(WriteOne(files, regions[0]), regions[1..])
  }

  /** What a run counts as bad: a region it cannot read, or, when checking, one that disagrees. */
  function Problems(files: Files, regions: seq<Region>, write: bool): nat {
    if regions == [] then 0
    else
      var r := regions[0];
      (if (if write then Readable(files, r) else Agrees(files, r)) then 0 else 1)
      + Problems(if write then WriteOne(files, r) else files, regions[1..], write)
  }

  /** The loop over the regions, in either mode. */
  method Run(files: Files, regions: seq<Region>, write: bool) returns (after: Files, bad: nat)
    ensures after == if write then WriteAll(files, regions) else files
    ensures bad == Problems(files, regions, write)
  {
    after, bad := files, 0;
    for k := 0 to |regions|
      invariant if write then WriteAll(files, regions) == WriteAll(after, regions[k..]) else after == files
      invariant Problems(files, regions, write) == bad + Problems(after, regions[k..], write)
    {
      var r := regions[k];
      assert regions[k..][0] == r && regions[k..][1..] == regions[k + 1..];
      if !Readable(after, r) {
        bad := bad + 1;
      } else if !Agrees(after, r) {
        if write {
          after := after[r.path := ReplaceBody(after[r.path], r.name, r.want)];
        } else {
          bad := bad + 1;
        }
      }
    }
  }

  lemma {:induction false} ProblemsSnoc(files: Files, regions: seq<Region>, r: Region, write: bool)
    ensures var f := if write then WriteAll(files, regions) else files;
            Problems(files, regions + [r], write)
            == Problems(files, regions, write) + (if (if write then Readable(f, r) else Agrees(f, r)) then 0 else 1)
  {
    if regions == [] {
      assert regions + [r] == [r];
    } else {
      assert (regions + [r])[1..] == regions[1..] + [r];
      ProblemsSnoc(if write then WriteOne(files, regions[0]) else files, regions[1..], r, write);
    }
  }

  lemma {:induction false} NoProblemsIffAllAgree(files: Files, regions: seq<Region>)
    ensures Problems(files, regions, false) == 0 <==> forall k :: 0 <= k < |regions| ==> Agrees(files, regions[k])
  {
    if regions != [] {
      NoProblemsIffAllAgree(files, regions[1..]);
      assert regions == [regions[0]] + regions[1..];
    }
  }

  // ---------------------------------------------------------------- a whole run

  /** Two regions of one document lie apart, and neither's lines carry the other's markers. */
  ghost predicate Independent(files: Files, r: Region, s: Region)
    requires Readable(files, r) && Readable(files, s)
  {
    r.path == s.path ==> FreeOf(r.want, s.name) && Apart(Locate(files[r.path], r.name).at, Locate(files[s.path], s.name).at)
  }

  /** Lines that stay as they are when joined, written, split and stripped. */
  predicate Writable(r: Region) {
    FirmEnds(r.want) && OneLined(r.want)
  }

  /** Every region can be read, is independent of the others, and is rendered in whole lines with firm ends. */
  ghost predicate WellFormed(files: Files, regions: seq<Region>) {
    && (forall k :: 0 <= k < |regions| ==>
          Readable(files, regions[k]) && Writable(regions[k]) && FreeOf(regions[k].want, regions[k].name))
    && (forall k, l :: 0 <= k < |regions| && 0 <= l < |regions| && k != l ==> Independent(files, regions[k], regions[l]))
  }

  lemma WriteMakesItAgree(files: Files, r: Region)
    requires Readable(files, r) && Writable(r) && FreeOf(r.want, r.name)
    ensures var after := WriteOne(files, r);
            && Readable(after, r) && Agrees(after, r)
            && (Disagrees(files, r) ==>
                  && BodyOf(after[r.path], r.name) == r.want
                  && Locate(after[r.path], r.name).at == Rewritten(Locate(files[r.path], r.name).at, |r.want|))
  {
    RenderedIsLines(r.want);
    ReadBackIff(files[r.path], r.name, r.want);
    WrittenRegion(files[r.path], r.name, r.want);
  }

  lemma WriteKeepsOther(files: Files, r: Region, s: Region)
    requires Readable(files, r) && Readable(files, s) && Independent(files, r, s) && Writable(r)
    ensures var after := WriteOne(files, r);
            && Readable(after, s) && BodyOf(after[s.path], s.name) == BodyOf(files[s.path], s.name)
            && (!Disagrees(files, r) || r.path != s.path ==> Locate(after[s.path], s.name) == Locate(files[s.path], s.name))
            && (Disagrees(files, r) && r.path == s.path ==>
                  var p, q := Locate(files[r.path], r.name).at, Locate(files[s.path], s.name).at;
                  p.first < p.last && q.first < q.last && Locate(after[s.path], s.name) == Found(Moved(p, |r.want|, q)))
  {
    var after := WriteOne(files, r);
    RenderedIsLines(r.want);
    if Disagrees(files, r) && r.path == s.path {
      assert after[s.path] == ReplaceBody(files[r.path], r.name, r.want);
      OtherRegionMoves(files[r.path], r.name, s.name, r.want);
    } else {
      assert after[s.path] == files[s.path];
    }
  }

  lemma WriteKeepsPair(files: Files, r: Region, s: Region, t: Region)
    requires Readable(files, r) && Readable(files, s) && Readable(files, t) && Writable(r)
    requires Independent(files, r, s) && Independent(files, r, t) && Independent(files, s, t)
    ensures var after := WriteOne(files, r); Readable(after, s) && Readable(after, t) && Independent(after, s, t)
  {
    WriteKeepsOther(files, r, s);
    WriteKeepsOther(files, r, t);
    if s.path == t.path == r.path && Disagrees(files, r) {
    }
  }

  lemma WriteKeepsWithSelf(files: Files, r: Region, s: Region)
    requires Readable(files, r) && Readable(files, s) && Writable(r) && FreeOf(r.want, r.name)
    requires Independent(files, r, s) && Independent(files, s, r)
    ensures var after := WriteOne(files, r);
            Readable(after, r) && Readable(after, s) && Independent(after, r, s) && Independent(after, s, r)
  {
    WriteKeepsOther(files, r, s);
    WriteMakesItAgree(files, r);
    if s.path == r.path && Disagrees(files, r) {
      var q := Locate(files[s.path], s.name).at;
    }
  }

  lemma WriteKeepsWellFormed(files: Files, regions: seq<Region>, i: nat)
    requires WellFormed(files, regions) && i < |regions|
    ensures WellFormed(WriteOne(files, regions[i]), regions)
  {
    var r, after := regions[i], WriteOne(files, regions[i]);
    WriteMakesItAgree(files, r);
    forall k | 0 <= k < |regions| && k != i ensures Readable(after, regions[k]) {
      WriteKeepsOther(files, r, regions[k]);
    }
    forall k, l | 0 <= k < |regions| && 0 <= l < |regions| && k != l ensures Independent(after, regions[k], regions[l]) {
      if k == i {
        WriteKeepsWithSelf(files, r, regions[l]);
      } else if l == i {
        WriteKeepsWithSelf(files, r, regions[k]);
      } else {
        WriteKeepsPair(files, r, regions[k], regions[l]);
      }
    }
  }

  lemma {:induction false} WriteAllSnoc(files: Files, regions: seq<Region>, r: Region)
    ensures WriteAll(files, regions + [r]) == WriteOne(WriteAll(files, regions), r)
  {
    if regions == [] {
      assert regions + [r] == [r];
    } else {
      assert (regions + [r])[1..] == regions[1..] + [r];
      WriteAllSnoc(WriteOne(files, regions[0]), regions[1..], r);
    }
  }

  /** What a region holds after the first `n` turns: its lines from its own turn on, unless it held them all along. */
  ghost predicate HoldsAfter(files: Files, after: Files, r: Region, written: bool)
    requires Readable(files, r)
  {
    Readable(after, r)
    && BodyOf(after[r.path], r.name) == if written && !Agrees(files, r) then r.want else BodyOf(files[r.path], r.name)
  }

  /** One more turn, seen from the region `k`. */
  lemma HeldNext(files: Files, before: Files, regions: seq<Region>, i: nat, k: nat)
    requires WellFormed(files, regions) && WellFormed(before, regions) && i < |regions| && k < |regions|
    requires HoldsAfter(files, before, regions[k], k < i)
    ensures HoldsAfter(files, WriteOne(before, regions[i]), regions[k], k < i + 1)
  {
    if k == i {
      WriteMakesItAgree(before, regions[i]);
    } else {
      WriteKeepsOther(before, regions[i], regions[k]);
    }
  }

  lemma WriteAllNext(files: Files, regions: seq<Region>, i: nat)
    requires i < |regions|
    ensures WriteAll(files, regions[..i + 1]) == WriteOne(WriteAll(files, regions[..i]), regions[i])
  {
    WriteAllSnoc(files, regions[..i], regions[i]);
    assert regions[..i + 1] == regions[..i] + [regions[i]];
  }

  lemma {:induction false} KeptInTurns(good: Files -> bool, files: Files, regions: seq<Region>, n: nat)
    requires good(files) && n <= |regions|
    requires forall f: Files, i: nat {:trigger WriteOne(f, regions[i])} :: good(f) && i < |regions| ==> good(WriteOne(f, regions[i]))
    ensures good(WriteAll(files, regions[..n]))
  {
    if n > 0 {
      KeptInTurns(good, files, regions, n - 1);
      WriteAllNext(files, regions, n - 1);
    }
  }

  lemma WellFormedInTurns(files: Files, regions: seq<Region>, n: nat)
    requires WellFormed(files, regions) && n <= |regions|
    ensures WellFormed(WriteAll(files, regions[..n]), regions)
  {
    forall f: Files, i: nat | WellFormed(f, regions) && i < |regions| ensures WellFormed(WriteOne(f, regions[i]), regions) {
      WriteKeepsWellFormed(f, regions, i);
    }
    KeptInTurns(f => WellFormed(f, regions), files, regions, n);
  }

  lemma {:induction false} HeldInTurns(files: Files, regions: seq<Region>, n: nat, k: nat)
    requires WellFormed(files, regions) && n <= |regions| && k < |regions|
    ensures HoldsAfter(files, WriteAll(files, regions[..n]), regions[k], k < n)
  {
    if n > 0 {
      HeldInTurns(files, regions, n - 1, k);
      WellFormedInTurns(files, regions, n - 1);
      HeldNext(files, WriteAll(files, regions[..n - 1]), regions, n - 1, k);
      WriteAllNext(files, regions, n - 1);
    }
  }

  /** After a write every region holds its lines, and the very lines rendered where it did not hold them before. */
  lemma WrittenBodies(files: Files, regions: seq<Region>, k: nat)
    requires WellFormed(files, regions) && k < |regions|
    ensures HoldsAfter(files, WriteAll(files, regions), regions[k], true) && Agrees(WriteAll(files, regions), regions[k])
  {
    HeldInTurns(files, regions, |regions|, k);
    assert regions[..|regions|] == regions;
  }

  lemma {:induction false} AgreedIsLeftAlone(files: Files, regions: seq<Region>)
    requires forall k :: 0 <= k < |regions| ==> Agrees(files, regions[k])
    ensures WriteAll(files, regions) == files
  {
    if regions != [] {
      assert WriteOne(files, regions[0]) == files;
      AgreedIsLeftAlone(files, regions[1..]);
    }
  }

  /** One write, and every check agrees; a second write changes no file. */
  lemma OneWriteSettles(files: Files, regions: seq<Region>)
    requires WellFormed(files, regions)
    ensures Problems(WriteAll(files, regions), regions, false) == 0
    ensures WriteAll(WriteAll(files, regions), regions) == WriteAll(files, regions)
  {
    forall k | 0 <= k < |regions| ensures Agrees(WriteAll(files, regions), regions[k]) {
      WrittenBodies(files, regions, k);
    }
    NoProblemsIffAllAgree(WriteAll(files, regions), regions);
    AgreedIsLeftAlone(WriteAll(files, regions), regions);
  }
}
