/** What the finders answer, said of the lines of the files and of the fields of the rows on them. */
module FinderLines {
  import opened DerivedDb
  import opened Finders
  import opened JsonValues
  import opened Prelude
  import opened Utf8Order

  // ---------------------------------------------------------------- the words used

  /** How often `v` stands in the list that is `o[k]`; never if that is no list. */
  ghost function TimesInList(o: Fields, k: string, v: string): nat {
    if k in o && o[k].Arr? then multiset(o[k].items)[Str(v)] else 0
  }

  /** How often a row has a tag: in the list of its kind, in `expect.must_detect`, among the keys of `placements`. */
  ghost function TimesTagged(row: Row, tag: Tag): nat {
    var o := row.fields;
    if tag.kind in {"sensitivity", "technique", "discovered_by", "publish_blockers", "collected_from"} then
      TimesInList(o, tag.kind, tag.value)
    else if tag.kind == "must_detect" then
      if "expect" in o && o["expect"].Obj? then TimesInList(o["expect"].fields, "must_detect", tag.value) else 0
    else if tag.kind == "placement" && "placements" in o && o["placements"].Obj? then multiset(row.placementKeys)[tag.value]
    else 0
  }

  ghost predicate HasOriginUnder(row: Row, prefix: string) {
    && "origin" in row.fields && row.fields["origin"].Obj? && "path" in row.fields["origin"].fields
    && row.fields["origin"].fields["path"].Str? && prefix <= row.fields["origin"].fields["path"].s
  }

  /** The lines of the published half, then those of the local one; a file that is not there has none. */
  ghost function AllLines(files: map<Half, Content>): Content {
    (if Published in files then files[Published] else []) + (if Local in files then files[Local] else [])
  }

  /** `result` is the lines in their order, the line `i` as often as `times[i]` says. */
  ghost predicate Picked<T>(result: seq<T>, lines: seq<T>, times: seq<nat>) {
    |times| == |lines| && exists at: seq<nat> :: Steps(at, times, |result|) && Spread(result, lines, at)
  }

  /** The places from `at[i]` up to `at[i + 1]` hold the line `i`. */
  ghost predicate Spread<T>(result: seq<T>, lines: seq<T>, at: seq<nat>) {
    && |at| == |lines| + 1
    && forall i, j {:trigger lines[i], result[j]} :: 0 <= i < |lines| && at[i] <= j < at[i + 1] && j < |result| ==> result[j] == lines[i]
  }

  /** The line `i` has the places from `at[i]` up to `at[i + 1]`. */
  ghost predicate Steps(at: seq<nat>, times: seq<nat>, n: nat) {
    && |at| == |times| + 1 && at[0] == 0 && at[|times|] == n
    && forall i :: 0 <= i < |times| ==> at[i + 1] == at[i] + times[i]
  }

  // ---------------------------------------------------------------- scans are picks

  /** The lines of the entries, each as often as `count` says. */
  ghost function Expand(es: seq<Entry>, count: (Row, Half) -> nat): seq<Line> {
    if es == [] then [] else Repeat(es[0].Line(), count(es[0].row, es[0].half)) + Expand(es[1..], count)
  }

  ghost function TimesIn(half: Half, content: Content, n: nat, count: (Row, Half) -> nat): (ts: seq<nat>)
    requires n <= |content|
    ensures |ts| == |content| - n
    ensures forall i :: 0 <= i < |ts| ==>
              ts[i] == match content[n + i] case Blank => 0 case Record(_, row) => count(row, half)
  {
    seq(|content| - n, i requires 0 <= i < |content| - n =>
      match content[n + i] case Blank => 0 case Record(_, row) => count(row, half))
  }

  lemma SpreadCons<T>(x: T, k: nat, result: seq<T>, lines: seq<T>, at: seq<nat>, later: seq<nat>)
    requires Spread(result, lines, at) && |later| == |at| + 1 && later[0] == 0
    requires forall i :: 0 <= i < |at| ==> later[i + 1] == at[i] + k
    requires at[0] == 0
    ensures Spread(Repeat(x, k) + result, [x] + lines, later)
  {
    var out, ls := Repeat(x, k) + result, [x] + lines;
    forall i, j | 0 <= i < |ls| && later[i] <= j < later[i + 1] && j < |out| ensures out[j] == ls[i] {
      if i > 0 {
        assert later[i - 1 + 1] == at[i - 1] + k && later[i + 1] == at[i] + k;
        assert lines[i - 1] == ls[i] && out[j] == result[j - k];
      }
    }
  }

  lemma PickedCons<T>(x: T, k: nat, result: seq<T>, lines: seq<T>, times: seq<nat>)
    requires Picked(result, lines, times)
    ensures Picked(Repeat(x, k) + result, [x] + lines, [k] + times)
  {
    var at: seq<nat> :| Steps(at, times, |result|) && Spread(result, lines, at);
    var later: seq<nat> := [0] + seq(|at|, i requires 0 <= i < |at| => at[i] + k);
    SpreadCons(x, k, result, lines, at, later);
    StepsCons(k, at, times, |result|, later);
  }

  lemma StepsCons(k: nat, at: seq<nat>, times: seq<nat>, n: nat, later: seq<nat>)
    requires Steps(at, times, n) && |later| == |at| + 1 && later[0] == 0
    requires forall i :: 0 <= i < |at| ==> later[i + 1] == at[i] + k
    ensures Steps(later, [k] + times, k + n)
  {
    forall i | 0 <= i < |times| + 1 ensures later[i + 1] == later[i] + ([k] + times)[i] {
      if i > 0 {
        assert later[i - 1 + 1] == at[i - 1] + k && at[i - 1 + 1] == at[i - 1] + times[i - 1];
      }
    }
  }

  lemma {:induction false} ExpandIsPicked(half: Half, content: Content, n: nat, count: (Row, Half) -> nat,
                                         es: seq<Entry>, lines: Content, times: seq<nat>)
    requires n <= |content| && Picked(Expand(es, count), lines, times)
    ensures Picked(Expand(EntriesFrom(half, content, n) + es, count), content[n..] + lines, TimesIn(half, content, n, count) + times)
    decreases |content| - n
  {
    var ts := TimesIn(half, content, n, count);
    if n == |content| {
      assert EntriesFrom(half, content, n) + es == es && content[n..] + lines == lines && ts + times == times;
    } else {
      ExpandIsPicked(half, content, n + 1, count, es, lines, times);
      var rest, more := EntriesFrom(half, content, n + 1) + es, TimesIn(half, content, n + 1, count) + times;
      assert ts + times == [ts[0]] + more;
      assert content[n..] + lines == [content[n]] + (content[n + 1..] + lines);
      PickedCons(content[n], ts[0], Expand(rest, count), content[n + 1..] + lines, more);
      match content[n]
      case Blank =>
        assert EntriesFrom(half, content, n) + es == rest;
        assert Repeat(content[n], 0) + Expand(rest, count) == Expand(rest, count);
      case Record(text, row) =>
        var e := Entry(half, n + 1, text, row);
        assert EntriesFrom(half, content, n) + es == [e] + rest && ([e] + rest)[1..] == rest;
    }
  }

  ghost function HalfAt(files: map<Half, Content>, i: int): Half {
    if Published in files && i < |files[Published]| then Published else Local
  }

  /** The line `i` is as often in a result as `count` says of its row and its half. */
  ghost predicate Counts(times: seq<nat>, files: map<Half, Content>, count: (Row, Half) -> nat) {
    && |times| == |AllLines(files)|
    && forall i :: 0 <= i < |times| ==>
         times[i] == match AllLines(files)[i] case Blank => 0 case Record(_, row) => count(row, HalfAt(files, i))
  }

  /** What a scan of the files gives is their lines, each as often as `count` says. */
  lemma FilesArePicked(files: map<Half, Content>, count: (Row, Half) -> nat) returns (times: seq<nat>)
    ensures Picked(Expand(FileEntries(files), count), AllLines(files), times) && Counts(times, files, count)
  {
    var none: seq<nat> := [];
    var es: seq<Entry>, lines: Content, local := [], [], none;
    assert Picked(Expand([], count), lines, none) by {
      assert Steps([0], none, 0);
    }
    if Local in files {
      ExpandIsPicked(Local, files[Local], 0, count, es, lines, none);
      local := TimesIn(Local, files[Local], 0, count);
      es, lines := EntriesOf(Local, files[Local]), files[Local];
      assert EntriesFrom(Local, files[Local], 0) + [] == es && files[Local][0..] + [] == lines && local + none == local;
    }
    times := local;
    if Published in files {
      ExpandIsPicked(Published, files[Published], 0, count, es, lines, local);
      assert files[Published][0..] == files[Published];
      times := TimesIn(Published, files[Published], 0, count) + local;
    } else {
      assert [] + es == es && [] + lines == lines;
    }
  }

  // ---------------------------------------------------------------- the three finders

  ghost function ClusterCount(field: string, value: string, half: Option<Half>): (Row, Half) -> nat {
    (row: Row, h: Half) => if HasString(row.fields, field, value) && (half == None || half == Some(h)) then 1 else 0
  }

  ghost function TagCount(tag: Tag, half: Option<Half>): (Row, Half) -> nat {
    (row: Row, h: Half) => if half == None || half == Some(h) then TimesTagged(row, tag) else 0
  }

  ghost function PathCount(prefix: string, half: Option<Half>): (Row, Half) -> nat {
    (row: Row, h: Half) => if HasOriginUnder(row, prefix) && (half == None || half == Some(h)) then 1 else 0
  }

  lemma {:induction false} ClusterScanExpands(es: seq<Entry>, field: string, value: string, half: Option<Half>)
    ensures ScanCluster(es, field, value, half) == Expand(es, ClusterCount(field, value, half))
  {
    if es != [] {
      ClusterScanExpands(es[1..], field, value, half);
    }
  }

  lemma {:induction false} TagScanExpands(es: seq<Entry>, tag: Tag, half: Option<Half>)
    ensures ScanTag(es, tag, half) == Expand(es, TagCount(tag, half))
  {
    if es != [] {
      TagsCounted(es[0].row, tag);
      TagScanExpands(es[1..], tag, half);
    }
  }

  lemma {:induction false} PathScanExpands(es: seq<Entry>, prefix: string, half: Option<Half>)
    ensures ScanPathPrefix(es, prefix, half) == Expand(es, PathCount(prefix, half))
  {
    if es != [] {
      PathScanExpands(es[1..], prefix, half);
    }
  }

  // ---------------------------------------------------------------- tags

  lemma {:induction false} OccurrencesIs<T>(s: seq<T>, x: T)
    ensures Occurrences(s, x) == multiset(s)[x]
  {
    if s != [] {
      OccurrencesIs(s[1..], x);
      assert s == [s[0]] + s[1..];
    }
  }

  lemma OccurrencesConcat<T>(a: seq<T>, b: seq<T>, x: T)
    ensures Occurrences(a + b, x) == Occurrences(a, x) + Occurrences(b, x)
  {
    OccurrencesIs(a, x);
    OccurrencesIs(b, x);
    OccurrencesIs(a + b, x);
  }

  lemma {:induction false} StringTagsCounted(kind: string, items: seq<Json>, tag: Tag)
    ensures Occurrences(StringTags(kind, items), tag) == if kind == tag.kind then multiset(items)[Str(tag.value)] else 0
  {
    if items != [] {
      var first := if items[0].Str? then [Tag(kind, items[0].s)] else [];
      StringTagsCounted(kind, items[1..], tag);
      OccurrencesConcat(first, StringTags(kind, items[1..]), tag);
      assert items == [items[0]] + items[1..];
      if items[0].Str? {
        assert first[1..] == [];
      }
    }
  }

  lemma ListTagsCounted(kind: string, o: Fields, k: string, tag: Tag)
    ensures Occurrences(ListTags(kind, Get(o, k)), tag) == if kind == tag.kind then TimesInList(o, k, tag.value) else 0
  {
    if k in o && o[k].Arr? {
      StringTagsCounted(kind, o[k].items, tag);
    }
  }

  lemma {:induction false} FieldTagsCounted(row: Row, fields: seq<string>, tag: Tag)
    requires forall i, j :: 0 <= i < j < |fields| ==> fields[i] != fields[j]
    ensures Occurrences(FieldTags(row, fields), tag)
            == if tag.kind in fields then TimesInList(row.fields, tag.kind, tag.value) else 0
  {
    if fields != [] {
      FieldTagsCounted(row, fields[1..], tag);
      ListTagsCounted(fields[0], row.fields, fields[0], tag);
      OccurrencesConcat(ListTags(fields[0], Get(row.fields, fields[0])), FieldTags(row, fields[1..]), tag);
      assert tag.kind in fields <==> tag.kind == fields[0] || tag.kind in fields[1..];
    }
  }

  lemma {:induction false} PlacementsCounted(keys: seq<string>, tag: Tag)
    ensures Occurrences(PlacementTags(keys), tag) == if tag.kind == "placement" then multiset(keys)[tag.value] else 0
  {
    if keys != [] {
      PlacementsCounted(keys[1..], tag);
      assert PlacementTags(keys)[1..] == PlacementTags(keys[1..]);
      assert keys == [keys[0]] + keys[1..];
    }
  }

  function MustDetectTags(row: Row): seq<Tag> {
    if Get(row.fields, "expect").Obj? then ListTags("must_detect", Get(Get(row.fields, "expect").fields, "must_detect")) else []
  }

  lemma MustDetectCounted(row: Row, tag: Tag)
    ensures Occurrences(MustDetectTags(row), tag) == if tag.kind == "must_detect" then TimesTagged(row, tag) else 0
  {
    if Get(row.fields, "expect").Obj? {
      ListTagsCounted("must_detect", Get(row.fields, "expect").fields, "must_detect", tag);
    }
  }

  /** A row is tagged once for every string of each list, of `expect.must_detect`, and for every key of `placements`. */
  lemma TagsCounted(row: Row, tag: Tag)
    ensures Occurrences(Tags(row), tag) == TimesTagged(row, tag)
  {
    var lists, must := FieldTags(row, TAG_FIELDS), MustDetectTags(row);
    var places := if Get(row.fields, "placements").Obj? then PlacementTags(row.placementKeys) else [];
    assert Tags(row) == lists + must + places;
    OccurrencesConcat(lists + must, places, tag);
    OccurrencesConcat(lists, must, tag);
    FieldTagsCounted(row, TAG_FIELDS, tag);
    MustDetectCounted(row, tag);
    PlacementsCounted(row.placementKeys, tag);
    assert tag.kind in TAG_FIELDS <==> tag.kind in {"sensitivity", "technique", "discovered_by", "publish_blockers", "collected_from"};
  }

  // ---------------------------------------------------------------- what is answered

  /** The rows of a cluster: every line that holds one, once and in order. */
  lemma ClusterLines(snaps: seq<Snapshot>, files: map<Half, Content>, kind: Cluster, value: string, half: Option<Half>)
    returns (times: seq<nat>)
    requires InSourceOrder(snaps) && Fresh(Complete(Tables(snaps)), files)
    ensures Picked(FindByCluster(Tables(snaps).rows, kind, value, half), AllLines(files), times)
    ensures var field := match kind case Bucket => "bucket" case Family => "family" case StagingDir => "staging_dir";
            Counts(times, files, ClusterCount(field, value, half))
  {
    AcceptedFindersAreScans(snaps, files, half);
    var count := ClusterCount(FieldOf(kind), value, half);
    times := FilesArePicked(files, count);
    ClusterScanExpands(FileEntries(files), FieldOf(kind), value, half);
  }

  /** The rows with a tag: every line that holds one, in order, as often as its row has the tag. */
  lemma TagLines(snaps: seq<Snapshot>, files: map<Half, Content>, tag: Tag, half: Option<Half>) returns (times: seq<nat>)
    requires InSourceOrder(snaps) && Fresh(Complete(Tables(snaps)), files)
    ensures Picked(FindByTag(Tables(snaps).rows, Tables(snaps).tags, tag, half), AllLines(files), times)
    ensures Counts(times, files, TagCount(tag, half))
  {
    AcceptedFindersAreScans(snaps, files, half);
    var count := TagCount(tag, half);
    times := FilesArePicked(files, count);
    TagScanExpands(FileEntries(files), tag, half);
  }

  /** The rows from under a path: every line that holds one, once and in order. */
  lemma PathLines(snaps: seq<Snapshot>, files: map<Half, Content>, prefix: string, half: Option<Half>) returns (times: seq<nat>)
    requires InSourceOrder(snaps) && Fresh(Complete(Tables(snaps)), files)
    requires prefix == "" || prefix[|prefix| - 1] as int != 0x10FFFF
    ensures Picked(FindByPathPrefix(Tables(snaps).rows, Tables(snaps).paths, prefix, half), AllLines(files), times)
    ensures Counts(times, files, PathCount(prefix, half))
  {
    AcceptedFindersAreScans(snaps, files, half);
    var count := PathCount(prefix, half);
    times := FilesArePicked(files, count);
    PathScanExpands(FileEntries(files), prefix, half);
    assert Bounded(prefix);
  }

  // ---------------------------------------------------------------- the row table

  ghost predicate IsLineOf(e: Entry, half: Half, content: Content, from: nat) {
    from < e.lineNo <= |content| && e.half == half && content[e.lineNo - 1] == Record(e.text, e.row)
  }

  ghost predicate AreLines(es: seq<Entry>, half: Half, content: Content, from: nat) {
    && (forall i :: 0 <= i < |es| ==> IsLineOf(es[i], half, content, from))
    && forall i, j :: 0 <= i < j < |es| ==> es[i].lineNo < es[j].lineNo
  }

  lemma OneMoreLine(es: seq<Entry>, half: Half, content: Content, n: nat, text: string, row: Row)
    requires n < |content| && content[n] == Record(text, row) && AreLines(es, half, content, n + 1)
    ensures AreLines([Entry(half, n + 1, text, row)] + es, half, content, n)
  {
    var e := Entry(half, n + 1, text, row);
    forall j | 0 <= j < |es| ensures es[j].lineNo > e.lineNo {
      assert IsLineOf(es[j], half, content, n + 1);
    }
  }

  /** The entries of a file are record lines of it with their numbers, in their order. */
  lemma {:induction false} EntriesAreLines(half: Half, content: Content, n: nat)
    requires n <= |content|
    ensures AreLines(EntriesFrom(half, content, n), half, content, n)
    decreases |content| - n
  {
    if n < |content| {
      EntriesAreLines(half, content, n + 1);
      var rest := EntriesFrom(half, content, n + 1);
      match content[n]
      case Blank =>
        assert EntriesFrom(half, content, n) == rest;
        assert forall i :: 0 <= i < |rest| ==> IsLineOf(rest[i], half, content, n + 1);
      case Record(text, row) =>
        OneMoreLine(rest, half, content, n, text, row);
    }
  }

  /** And every record line is one of them. */
  lemma {:induction false} EveryLineIsAnEntry(half: Half, content: Content, n: nat, k: nat) returns (i: nat)
    requires n <= k < |content| && content[k].Record?
    ensures i < |EntriesFrom(half, content, n)| && EntriesFrom(half, content, n)[i].lineNo == k + 1
    decreases |content| - n
  {
    if n == k {
      i := 0;
    } else {
      i := EveryLineIsAnEntry(half, content, n + 1, k);
      if content[n].Record? {
        i := i + 1;
      }
    }
  }

  ghost predicate IsText(column: Option<string>, o: Fields, k: string) {
    column == if k in o && o[k].Str? then Some(o[k].s) else None
  }

  /** Every column is the field of its name, where that field has the column's type. */
  lemma ColumnsAreFields(row: Row)
    ensures var c, o := Extract(row), row.fields;
            && IsText(c.sha256, o, "sha256") && IsText(c.bucket, o, "bucket") && IsText(c.family, o, "family")
            && IsText(c.stagingDir, o, "staging_dir") && IsText(c.verdict, o, "verdict") && IsText(c.reason, o, "reason")
            && IsText(c.accountHash, o, "account_hash")
            && c.size == (if "size" in o && o["size"].Int? then Some(o["size"].n) else None)
            && (c.publishable == Some(1) <==> "publishable" in o && o["publishable"] == Bool(true))
            && (c.publishable == Some(0) <==> "publishable" in o && o["publishable"] == Bool(false))
            && (c.publishable == None <==> !("publishable" in o && o["publishable"].Bool?))
            && if "origin" in o && o["origin"].Obj? then IsText(c.originPath, o["origin"].fields, "path") else c.originPath == None
  {
  }

  /** The row table numbers the entries from one and keeps of each its half, its line number, its columns and its line. */
  lemma RowsAreEntries(snaps: seq<Snapshot>, i: nat)
    requires i < |AllEntries(snaps)|
    ensures |Tables(snaps).rows| == |AllEntries(snaps)|
    ensures var r, e := Tables(snaps).rows[i], AllEntries(snaps)[i];
            r.id == i + 1 && r.half == e.half && r.lineNo == e.lineNo && r.json == Record(e.text, e.row) && r.cols == Extract(e.row)
  {
    assert Tables(snaps).rows == RowRecs(AllEntries(snaps), 1) by {
      TablesAreEntries(snaps);
    }
    RowRecAt(AllEntries(snaps), i);
  }

  lemma RowRecAt(es: seq<Entry>, i: nat)
    requires i < |es|
    ensures RowRecs(es, 1)[i] == RowRecOf(es[i], i + 1)
  {
  }
}
