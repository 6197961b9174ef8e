/** What a run over the generated regions does, read off the lines of the files. */
module FiguresOnDisk {
  import opened DocFigures
  import opened DocRegions
  import opened JsonValues
  import opened Splitting

  // ---------------------------------------------------------------- regions and their bodies

  /** `what` stands in the line from column `i` on. */
  ghost predicate Reads(line: string, what: string, i: int) {
    0 <= i && i + |what| <= |line| && line[i..i + |what|] == what
  }

  ghost predicate LastEndsAt(line: string, what: string, i: int) {
    Reads(line, what, i - |what|) && forall j :: Reads(line, what, j) ==> j <= i - |what|
  }

  ghost predicate FirstStartsAt(line: string, what: string, i: int) {
    Reads(line, what, i) && forall j :: Reads(line, what, j) ==> i <= j
  }

  ghost predicate HasMarker(line: string, lead: string, name: string) {
    exists i, j :: Reads(line, lead + name, i) && i + |lead + name| <= j && Reads(line, "-->", j)
  }

  ghost predicate HasBegin(line: string, name: string) {
    HasMarker(line, "<!-- BEGIN GENERATED ", name)
  }

  ghost predicate HasEnd(line: string, name: string) {
    HasMarker(line, "<!-- END GENERATED ", name)
  }

  /**
    * The only line with a BEGIN marker is above the only one with an END marker. The
    * body runs from behind the last arrow of the first to where the second begins.
    */
  ghost predicate RegionAt(doc: Doc, name: string, p: Place) {
    && p.first < p.last < |doc|
    && (forall i :: 0 <= i < |doc| ==> (HasBegin(doc[i], name) <==> i == p.first))
    && (forall i :: 0 <= i < |doc| ==> (HasEnd(doc[i], name) <==> i == p.last))
    && LastEndsAt(doc[p.first], "-->", p.from) && FirstStartsAt(doc[p.last], "<!-- END GENERATED " + name, p.to)
  }

  ghost predicate HasRegion(doc: Doc, name: string) {
    exists p :: RegionAt(doc, name, p)
  }

  /** The lines between the markers without the empty ones at both ends, one empty line when no other is there. */
  ghost predicate IsBody(doc: Doc, p: Place, body: seq<string>)
    requires p.first < p.last < |doc| && p.from <= |doc[p.first]| && p.to <= |doc[p.last]|
  {
    var all := [doc[p.first][p.from..]] + doc[p.first + 1..p.last] + [doc[p.last][..p.to]];
    exists a: nat, b: nat :: FromTo(all, a, b) && body == if a == b then [""] else all[a..b]
  }

  /** Empty lines before `a` and from `b` on, and none at the ends of what is between. */
  ghost predicate FromTo(all: seq<string>, a: nat, b: nat) {
    && a <= b <= |all| && (forall k :: 0 <= k < a || b <= k < |all| ==> all[k] == "")
    && (a < b ==> all[a] != "" && all[b - 1] != "")
  }

  ghost predicate Holds(doc: Doc, name: string, body: seq<string>) {
    exists p :: RegionAt(doc, name, p) && IsBody(doc, p, body)
  }

  /** What is left of two lines without the white space at their ends is the same. */
  ghost predicate SameLine(a: string, b: string) {
    exists i: nat, j: nat, k: nat, l: nat :: TrimmedAt(a, i, j) && TrimmedAt(b, k, l) && a[i..j] == b[k..l]
  }

  ghost predicate SameLines(a: seq<string>, b: seq<string>) {
    |a| == |b| && forall i :: 0 <= i < |a| ==> SameLine(a[i], b[i])
  }

  /** The figures rendered for the region are in its document. */
  ghost predicate OnDisk(files: Files, r: Region) {
    r.path in files && exists body :: Holds(files[r.path], r.name, body) && SameLines(body, r.want)
  }

  // ---------------------------------------------------------------- the two agree

  lemma BeginIff(line: string, name: string)
    ensures HasBegin(line, name) <==> Marker(line, BeginPrefix(name)).Some?
  {
    MarkerIff(line, BeginPrefix(name));
    if i, j :| Reads(line, BeginPrefix(name), i) && i + |BeginPrefix(name)| <= j && Reads(line, "-->", j) {
      assert Marks(line, BeginPrefix(name), i, j);
    }
    if i, j :| Marks(line, BeginPrefix(name), i, j) {
      assert Reads(line, BeginPrefix(name), i) && Reads(line, "-->", j);
    }
  }

  lemma EndIff(line: string, name: string)
    ensures HasEnd(line, name) <==> Marker(line, EndPrefix(name)).Some?
  {
    MarkerIff(line, EndPrefix(name));
    if i, j :| Reads(line, EndPrefix(name), i) && i + |EndPrefix(name)| <= j && Reads(line, "-->", j) {
      assert Marks(line, EndPrefix(name), i, j);
    }
    if i, j :| Marks(line, EndPrefix(name), i, j) {
      assert Reads(line, EndPrefix(name), i) && Reads(line, "-->", j);
    }
  }

  /** Where the marker of a line ends and where it starts. */
  lemma MarkerEnds(line: string, prefix: string, from: int)
    requires Marker(line, prefix).Some?
    ensures Marker(line, prefix).value.end == from <==> LastEndsAt(line, "-->", from)
    ensures Marker(line, prefix).value.start == from <==> FirstStartsAt(line, prefix, from)
  {
    var m := Marker(line, prefix).value;
    assert At(line, "-->", m.end - 3) && At(line, prefix, m.start);
    assert Reads(line, "-->", m.end - 3) && Reads(line, prefix, m.start);
    assert forall j :: Reads(line, "-->", j) ==> At(line, "-->", j);
    assert forall j :: Reads(line, prefix, j) ==> At(line, prefix, j);
  }

  lemma OnlyBeginIff(doc: Doc, name: string, line: nat)
    ensures OnlyAt(doc, BeginPrefix(name), line)
            <==> line < |doc| && forall i :: 0 <= i < |doc| ==> (HasBegin(doc[i], name) <==> i == line)
  {
    forall i | 0 <= i < |doc| ensures HasBegin(doc[i], name) <==> Marker(doc[i], BeginPrefix(name)).Some? {
      BeginIff(doc[i], name);
    }
  }

  lemma OnlyEndIff(doc: Doc, name: string, line: nat)
    ensures OnlyAt(doc, EndPrefix(name), line)
            <==> line < |doc| && forall i :: 0 <= i < |doc| ==> (HasEnd(doc[i], name) <==> i == line)
  {
    forall i | 0 <= i < |doc| ensures HasEnd(doc[i], name) <==> Marker(doc[i], EndPrefix(name)).Some? {
      EndIff(doc[i], name);
    }
  }

  /** A region is found exactly where it stands. */
  lemma FoundIff(doc: Doc, name: string, p: Place)
    ensures Locate(doc, name) == Found(p) <==> RegionAt(doc, name, p)
  {
    LocateIff(doc, name, p);
    OnlyBeginIff(doc, name, p.first);
    OnlyEndIff(doc, name, p.last);
    if OnlyAt(doc, BeginPrefix(name), p.first) && OnlyAt(doc, EndPrefix(name), p.last) {
      MarkerEnds(doc[p.first], BeginPrefix(name), p.from);
      MarkerEnds(doc[p.last], EndPrefix(name), p.to);
    }
  }

  ghost function BeginLines(doc: Doc, name: string): set<int> {
    set i | 0 <= i < |doc| && HasBegin(doc[i], name)
  }

  ghost function EndLines(doc: Doc, name: string): set<int> {
    set i | 0 <= i < |doc| && HasEnd(doc[i], name)
  }

  lemma BeginsListed(doc: Doc, name: string)
    ensures var l := Marked(doc, BeginPrefix(name), 0); |l| == |BeginLines(doc, name)| && forall i :: i in BeginLines(doc, name) <==> i in l
  {
    var l := Marked(doc, BeginPrefix(name), 0);
    forall i ensures i in BeginLines(doc, name) <==> i in l {
      if 0 <= i < |doc| {
        BeginIff(doc[i], name);
      }
    }
    ListedOnce(l, BeginLines(doc, name));
  }

  lemma EndsListed(doc: Doc, name: string)
    ensures var l := Marked(doc, EndPrefix(name), 0); |l| == |EndLines(doc, name)| && forall i :: i in EndLines(doc, name) <==> i in l
  {
    var l := Marked(doc, EndPrefix(name), 0);
    forall i ensures i in EndLines(doc, name) <==> i in l {
      if 0 <= i < |doc| {
        EndIff(doc[i], name);
      }
    }
    ListedOnce(l, EndLines(doc, name));
  }

  /** When a region is not found, the reason given is the first that applies. */
  lemma LostIff(doc: Doc, name: string)
    ensures var b, e := BeginLines(doc, name), EndLines(doc, name);
            && (Locate(doc, name) == Lost(NoBegin) <==> |b| == 0)
            && (Locate(doc, name) == Lost(NoEnd) <==> |b| > 0 && |e| == 0)
            && (Locate(doc, name) == Lost(SeveralBegins) <==> |b| > 1 && |e| > 0)
            && (Locate(doc, name) == Lost(SeveralEnds) <==> |b| == 1 && |e| > 1)
            && (Locate(doc, name) == Lost(Inverted) <==> |b| == 1 && |e| == 1 && exists i, j :: i in b && j in e && j <= i)
  {
    BeginsListed(doc, name);
    EndsListed(doc, name);
    var b, e := Marked(doc, BeginPrefix(name), 0), Marked(doc, EndPrefix(name), 0);
    if |b| == 1 && |e| == 1 {
      assert b[0] in b && e[0] in e;
      if Locate(doc, name).Found? {
        MarkersShareNoLine(doc, name);
      }
    }
  }

  /** A strictly rising list of the members of a set. */
  lemma {:induction false} ListedOnce(l: seq<int>, s: set<int>)
    requires forall i :: i in s <==> i in l
    requires forall k, m :: 0 <= k < m < |l| ==> l[k] < l[m]
    ensures |l| == |s|
    decreases |l|
  {
    if l == [] {
      assert forall i :: i in s ==> i in l;
    } else {
      var x := l[0];
      assert x in l;
      forall i ensures i in s - {x} <==> i in l[1..] {
        if i in l[1..] {
          var k :| 0 <= k < |l| - 1 && l[1..][k] == i;
          assert i == l[k + 1] && i in l;
        }
      }
      ListedOnce(l[1..], s - {x});
    }
  }

  lemma RegionIff(doc: Doc, name: string)
    ensures HasRegion(doc, name) <==> Locate(doc, name).Found?
  {
    if Locate(doc, name).Found? {
      FoundIff(doc, name, Locate(doc, name).at);
    }
    if p :| RegionAt(doc, name, p) {
      FoundIff(doc, name, p);
    }
  }

  /** The lines read for a region are the lines it holds. */
  lemma BodyIff(doc: Doc, name: string, body: seq<string>)
    ensures Holds(doc, name, body) <==> Locate(doc, name).Found? && BodyOf(doc, name) == body
  {
    if p :| RegionAt(doc, name, p) && IsBody(doc, p, body) {
      FoundIff(doc, name, p);
      StrippedFromTo(Between(doc, p), body);
    }
    if Locate(doc, name).Found? && BodyOf(doc, name) == body {
      var p := Locate(doc, name).at;
      FoundIff(doc, name, p);
      StrippedFromTo(Between(doc, p), body);
      assert IsBody(doc, p, body);
    }
  }

  lemma StrippedFromTo(all: seq<string>, body: seq<string>)
    ensures Stripped(all) == body <==> exists a: nat, b: nat :: FromTo(all, a, b) && body == if a == b then [""] else all[a..b]
  {
    var a, b := DroppedEnds(all);
    var kept := DropTrailing(DropLeading(all));
    if x: nat, y: nat :| FromTo(all, x, y) && body == if x == y then [""] else all[x..y] {
      assert x < y && a < b ==> x == a && y == b;
    }
  }

  lemma DroppedEnds(all: seq<string>) returns (a: nat, b: nat)
    ensures FromTo(all, a, b) && DropTrailing(DropLeading(all)) == all[a..b]
  {
    var lead := DropLeading(all);
    DroppedLeadingEnd(all);
    DroppedTrailingEnd(lead);
    LeadingAreEmpty(all);
    TrailingAreEmpty(lead);
    a, b := |all| - |lead|, |all| - |lead| + |DropTrailing(lead)|;
    assert forall k :: b <= k < |all| ==> all[k] == lead[k - a];
  }

  lemma {:induction false} LeadingAreEmpty(all: seq<string>)
    ensures |DropLeading(all)| <= |all| && forall k :: 0 <= k < |all| - |DropLeading(all)| ==> all[k] == ""
  {
    if all != [] && all[0] == "" {
      LeadingAreEmpty(all[1..]);
      assert forall k :: 0 < k < |all| ==> all[k] == all[1..][k - 1];
    }
  }

  lemma {:induction false} TrailingAreEmpty(all: seq<string>)
    ensures |DropTrailing(all)| <= |all| && forall k :: |DropTrailing(all)| <= k < |all| ==> all[k] == ""
  {
    if all != [] && all[|all| - 1] == "" {
      TrailingAreEmpty(all[..|all| - 1]);
    }
  }

  lemma SameLineIff(a: string, b: string)
    ensures Strip(a) == Strip(b) <==> SameLine(a, b)
  {
    var i, j := StripTrims(a);
    var k, l := StripTrims(b);
    if SameLine(a, b) {
      var i': nat, j': nat, k': nat, l': nat :| TrimmedAt(a, i', j') && TrimmedAt(b, k', l') && a[i'..j'] == b[k'..l'];
      StripIff(a, a[i'..j']);
      StripIff(b, b[k'..l']);
    }
  }

  lemma SameLinesIff(a: seq<string>, b: seq<string>)
    ensures StripLines(a) == StripLines(b) <==> SameLines(a, b)
  {
    var x, y := StripLines(a), StripLines(b);
    forall i | 0 <= i < |a| && i < |b| ensures x[i] == y[i] <==> SameLine(a[i], b[i]) {
      SameLineIff(a[i], b[i]);
    }
    if SameLines(a, b) {
      assert forall i :: 0 <= i < |a| ==> x[i] == y[i];
    }
  }

  /** A region agrees exactly when its figures are on disk. */
  lemma AgreesIff(files: Files, r: Region)
    ensures Agrees(files, r) <==> OnDisk(files, r)
    ensures Readable(files, r) <==> r.path in files && HasRegion(files[r.path], r.name)
  {
    if r.path in files {
      var doc := files[r.path];
      RegionIff(doc, r.name);
      if body :| Holds(doc, r.name, body) && SameLines(body, r.want) {
        BodyIff(doc, r.name, body);
        SameLinesIff(body, r.want);
      }
      if Agrees(files, r) {
        BodyIff(doc, r.name, BodyOf(doc, r.name));
        SameLinesIff(BodyOf(doc, r.name), r.want);
      }
    }
  }

  // ---------------------------------------------------------------- a whole run, over any files

  /** What counts as bad: when writing, a region that is not there; when checking, figures that are not. */
  ghost predicate Bad(files: Files, r: Region, write: bool) {
    if write then !(r.path in files && HasRegion(files[r.path], r.name)) else !OnDisk(files, r)
  }

  /** One region's turn: its lines are written between its markers if they are not there yet, and nothing else changes. */
  ghost predicate Turn(before: Files, r: Region, write: bool, after: Files) {
    if !write || Bad(before, r, true) || OnDisk(before, r) then after == before
    else exists p :: RegionAt(before[r.path], r.name, p) && after == before[r.path := Replaced(before[r.path], p, r.want)]
  }

  ghost function Replaced(doc: Doc, p: Place, want: seq<string>): Doc
    requires p.first < p.last < |doc| && p.from <= |doc[p.first]| && p.to <= |doc[p.last]|
  {
    doc[..p.first] + [doc[p.first][..p.from]] + Split(Join(want, '\n'), '\n') + [doc[p.last][p.to..]] + doc[p.last + 1..]
  }

  lemma TurnIs(files: Files, r: Region)
    ensures Turn(files, r, true, WriteOne(files, r))
  {
    AgreesIff(files, r);
    if Disagrees(files, r) {
      var p := Locate(files[r.path], r.name).at;
      FoundIff(files[r.path], r.name, p);
      assert WriteOne(files, r) == files[r.path := Replaced(files[r.path], p, r.want)];
    }
  }

  ghost function BadTurns(states: seq<Files>, regions: seq<Region>, write: bool): set<int>
    requires |states| == |regions| + 1
  {
    set k | 0 <= k < |regions| && Bad(states[k], regions[k], write)
  }

  ghost predicate AreTurns(states: seq<Files>, regions: seq<Region>, write: bool) {
    |states| == |regions| + 1 && forall k :: 0 <= k < |regions| ==> Turn(states[k], regions[k], write, states[k + 1])
  }

  lemma OneMoreTurn(states: seq<Files>, regions: seq<Region>, write: bool, last: Files, r: Region)
    requires AreTurns(states, regions, write) && Turn(states[|regions|], r, write, last)
    ensures AreTurns(states + [last], regions + [r], write)
    ensures |BadTurns(states + [last], regions + [r], write)|
            == |BadTurns(states, regions, write)| + if Bad(states[|regions|], r, write) then 1 else 0
  {
    var n, ss, rs := |regions|, states + [last], regions + [r];
    forall k | 0 <= k < |rs| ensures Turn(ss[k], rs[k], write, ss[k + 1]) {
      if k < n {
        assert Turn(states[k], regions[k], write, states[k + 1]);
      }
    }
    BadGrows(states, regions, write, last, r);
  }

  lemma BadGrows(states: seq<Files>, regions: seq<Region>, write: bool, last: Files, r: Region)
    requires |states| == |regions| + 1
    ensures BadTurns(states + [last], regions + [r], write)
            == BadTurns(states, regions, write) + if Bad(states[|regions|], r, write) then {|regions|} else {}
  {
    var n, ss, rs := |regions|, states + [last], regions + [r];
    forall k ensures k in BadTurns(ss, rs, write) <==> k in BadTurns(states, regions, write) || (k == n && Bad(states[n], r, write)) {
      if 0 <= k < n {
        assert ss[k] == states[k] && rs[k] == regions[k];
      }
    }
  }

  /** A run is one turn after the other, and what it reports is the number of turns that went bad. */
  lemma {:induction false} RunIsTurns(files: Files, regions: seq<Region>, write: bool) returns (states: seq<Files>)
    ensures AreTurns(states, regions, write) && states[0] == files
    ensures states[|regions|] == if write then WriteAll(files, regions) else files
    ensures Problems(files, regions, write) == |BadTurns(states, regions, write)|
  {
    if regions == [] {
      states := [files];
      assert BadTurns(states, regions, write) == {};
    } else {
      var n := |regions| - 1;
      var front, r := regions[..n], regions[n];
      assert regions == front + [r];
      var ss := RunIsTurns(files, front, write);
      var last := if write then WriteOne(ss[n], r) else files;
      states := ss + [last];
      WriteAllSnoc(files, front, r);
      ProblemsSnoc(files, front, r, write);
      AgreesIff(ss[n], r);
      TurnIs(ss[n], r);
      OneMoreTurn(ss, front, write, last, r);
    }
  }

  /** A check changes nothing and counts the regions whose figures are not on disk: none if and only if all are. */
  lemma CheckCounts(files: Files, regions: seq<Region>)
    ensures Problems(files, regions, false) == |set k | 0 <= k < |regions| && !OnDisk(files, regions[k])|
    ensures Problems(files, regions, false) == 0 <==> forall k :: 0 <= k < |regions| ==> OnDisk(files, regions[k])
  {
    var states := RunIsTurns(files, regions, false);
    CheckStates(files, regions, states, |regions|);
    var bad := BadTurns(states, regions, false);
    assert bad == set k | 0 <= k < |regions| && !OnDisk(files, regions[k]);
    if !(forall k :: 0 <= k < |regions| ==> OnDisk(files, regions[k])) {
      var k :| 0 <= k < |regions| && !OnDisk(files, regions[k]);
      assert k in bad;
    }
  }

  lemma {:induction false} CheckStates(files: Files, regions: seq<Region>, states: seq<Files>, n: nat)
    requires AreTurns(states, regions, false) && states[0] == files && n <= |regions|
    ensures forall k :: 0 <= k <= n ==> states[k] == files
  {
    if n > 0 {
      CheckStates(files, regions, states, n - 1);
      assert Turn(states[n - 1], regions[n - 1], false, states[n]);
    }
  }

  // ---------------------------------------------------------------- a write over documents in order

  /** What reads back as written: no line holds a newline, and the first and last are not empty, or there is one empty line. */
  ghost predicate ReadsBack(want: seq<string>) {
    && (forall k :: 0 <= k < |want| ==> '\n' !in want[k])
    && (want == [""] || (want != [] && want[0] != "" && want[|want| - 1] != ""))
  }

  /** Every region is there, lies apart from the others, and no line written carries a marker of one. */
  ghost predicate InOrder(files: Files, regions: seq<Region>) {
    && (forall k :: 0 <= k < |regions| ==>
          && regions[k].path in files && HasRegion(files[regions[k].path], regions[k].name) && ReadsBack(regions[k].want))
    && (forall k, l :: 0 <= k < |regions| && 0 <= l < |regions| && regions[k].path == regions[l].path ==>
          NoMarkerOf(regions[k].want, regions[l].name))
    && (forall k, l, p, q :: 0 <= k < l < |regions| && regions[k].path == regions[l].path
          && RegionAt(files[regions[k].path], regions[k].name, p) && RegionAt(files[regions[l].path], regions[l].name, q)
          ==> p.last < q.first || q.last < p.first)
  }

  ghost predicate NoMarkerOf(lines: seq<string>, name: string) {
    forall i :: 0 <= i < |lines| ==> !HasBegin(lines[i], name) && !HasEnd(lines[i], name)
  }

  lemma FreeIff(lines: seq<string>, name: string)
    ensures FreeOf(lines, name) <==> NoMarkerOf(lines, name)
  {
    forall i | 0 <= i < |lines|
      ensures HasBegin(lines[i], name) <==> Marker(lines[i], BeginPrefix(name)).Some?
      ensures HasEnd(lines[i], name) <==> Marker(lines[i], EndPrefix(name)).Some?
    {
      BeginIff(lines[i], name);
      EndIff(lines[i], name);
    }
  }

  lemma InOrderIsWellFormed(files: Files, regions: seq<Region>)
    requires InOrder(files, regions)
    ensures WellFormed(files, regions)
  {
    forall k | 0 <= k < |regions| ensures Readable(files, regions[k]) && Writable(regions[k]) && FreeOf(regions[k].want, regions[k].name) {
      AgreesIff(files, regions[k]);
      FreeIff(regions[k].want, regions[k].name);
    }
    forall k, l | 0 <= k < |regions| && 0 <= l < |regions| && k != l ensures Independent(files, regions[k], regions[l]) {
      var r, s := regions[k], regions[l];
      if r.path == s.path {
        FreeIff(r.want, s.name);
        FoundIff(files[r.path], r.name, Locate(files[r.path], r.name).at);
        FoundIff(files[s.path], s.name, Locate(files[s.path], s.name).at);
      }
    }
  }

  /**
    * After a write every region's figures are on disk, and nothing is bad in either mode:
    * the very lines rendered where they were not there before, the lines that were there
    * where they were.
    */
  lemma WriteSettles(files: Files, regions: seq<Region>)
    requires InOrder(files, regions)
    ensures var after := WriteAll(files, regions);
            && Problems(after, regions, false) == 0 && WriteAll(after, regions) == after
            && forall k :: 0 <= k < |regions| ==>
                 var r := regions[k];
                 && OnDisk(after, r)
                 && (!OnDisk(files, r) ==> Holds(after[r.path], r.name, r.want))
                 && (OnDisk(files, r) ==> forall body :: Holds(files[r.path], r.name, body) ==> Holds(after[r.path], r.name, body))
  {
    InOrderIsWellFormed(files, regions);
    OneWriteSettles(files, regions);
    var after := WriteAll(files, regions);
    forall k | 0 <= k < |regions|
      ensures var r := regions[k];
              && OnDisk(after, r)
              && (!OnDisk(files, r) ==> Holds(after[r.path], r.name, r.want))
              && (OnDisk(files, r) ==> forall body :: Holds(files[r.path], r.name, body) ==> Holds(after[r.path], r.name, body))
    {
      var r := regions[k];
      WrittenBodies(files, regions, k);
      AgreesIff(files, r);
      AgreesIff(after, r);
      BodyIff(after[r.path], r.name, BodyOf(after[r.path], r.name));
      forall body | Holds(files[r.path], r.name, body) ensures body == BodyOf(files[r.path], r.name) {
        BodyIff(files[r.path], r.name, body);
      }
    }
  }
}
