/**
  * The three finders, run against the tables, give what reading the JSONL files
  * and filtering the rows would give. Freshness is what makes the tables stand
  * for the files.
  */
module Finders {
  import opened Prelude
  import opened JsonValues
  import opened Utf8Order
  import opened DerivedDb

  // ---------------------------------------------------------------- the queries

  datatype Cluster = Bucket | Family | StagingDir

  function Column(c: Columns, kind: Cluster): Option<string> {
    match kind
    case Bucket => c.bucket
    case Family => c.family
    case StagingDir => c.stagingDir
  }

  predicate HalfIs(h: Half, half: Option<Half>) {
    half.Some? ==> h == half.value
  }

  /** `SELECT json FROM row WHERE column = ? ORDER BY id`; the table is in id order. */
  function FindByCluster(rows: seq<RowRec>, kind: Cluster, value: string, half: Option<Half>): seq<Line> {
    if rows == [] then []
    else
      (if Column(rows[0].cols, kind) == Some(value) && HalfIs(rows[0].half, half) then [rows[0].json] else [])
      + FindByCluster(rows[1..], kind, value, half)
  }

  function MatchingTags(tags: seq<TagRec>, id: nat, tag: Tag): nat {
    if tags == [] then 0
    else (if tags[0] == TagRec(id, tag.kind, tag.value) then 1 else 0) + MatchingTags(tags[1..], id, tag)
  }

  /** The join of `row_tag` and `row`, ordered by id. It has no DISTINCT. */
  function FindByTag(rows: seq<RowRec>, tags: seq<TagRec>, tag: Tag, half: Option<Half>): seq<Line> {
    if rows == [] then []
    else
      (if HalfIs(rows[0].half, half) then Repeat(rows[0].json, MatchingTags(tags, rows[0].id, tag)) else [])
      + FindByTag(rows[1..], tags, tag, half)
  }

  predicate HasPathInRange(paths: seq<PathRec>, id: nat, prefix: string) {
    exists i :: 0 <= i < |paths| && paths[i].rowId == id && InRange(prefix, paths[i].path)
  }

  /** `SELECT DISTINCT ... WHERE path >= ? AND path < ? ORDER BY id`. */
  function FindByPathPrefix(rows: seq<RowRec>, paths: seq<PathRec>, prefix: string, half: Option<Half>): seq<Line> {
    if rows == [] then []
    else
      (if HalfIs(rows[0].half, half) && HasPathInRange(paths, rows[0].id, prefix) then [rows[0].json] else [])
      + FindByPathPrefix(rows[1..], paths, prefix, half)
  }

  // ---------------------------------------------------------------- the plain scans

  function FieldOf(kind: Cluster): string {
    match kind
    case Bucket => "bucket"
    case Family => "family"
    case StagingDir => "staging_dir"
  }

  /** Read every row, keep those whose field is that string. */
  function ScanCluster(es: seq<Entry>, field: string, value: string, half: Option<Half>): seq<Line>
  {
    if es == [] then []
    else
      (if Get(es[0].row.fields, field) == Str(value) && HalfIs(es[0].half, half) then [es[0].Line()] else [])
      + ScanCluster(es[1..], field, value, half)
  }

  function Occurrences<T(==)>(s: seq<T>, x: T): nat {
    if s == [] then 0 else (if s[0] == x then 1 else 0) + Occurrences(s[1..], x)
  }

  function ScanTag(es: seq<Entry>, tag: Tag, half: Option<Half>): seq<Line>
  {
    if es == [] then []
    else
      (if HalfIs(es[0].half, half) then Repeat(es[0].Line(), Occurrences(Tags(es[0].row), tag)) else [])
      + ScanTag(es[1..], tag, half)
  }

  function ScanPathPrefix(es: seq<Entry>, prefix: string, half: Option<Half>): seq<Line>
  {
    if es == [] then []
    else
      var path := OriginPath(es[0].row);
      (if HalfIs(es[0].half, half) && path.Some? && prefix <= path.value then [es[0].Line()] else [])
      + ScanPathPrefix(es[1..], prefix, half)
  }

  // ---------------------------------------------------------------- the tables, entry by entry

  function AllEntries(snaps: seq<Snapshot>): (es: seq<Entry>)
  {
    if snaps == [] then [] else AllEntries(snaps[..|snaps| - 1]) + EntriesOf(snaps[|snaps| - 1].half, snaps[|snaps| - 1].content)
  }

  lemma RowRecsConcat(a: seq<Entry>, b: seq<Entry>, id: nat)
    ensures RowRecs(a + b, id) == RowRecs(a, id) + RowRecs(b, id + |a|)
  {
  }

  lemma TagRecsSnoc(es: seq<Entry>, e: Entry, id: nat)
    ensures TagRecs(es + [e], id) == TagRecs(es, id) + TagRecsOf(Tags(e.row), id + |es|)
  {
    assert (es + [e])[..|es|] == es;
  }

  lemma PathRecsSnoc(es: seq<Entry>, e: Entry, id: nat)
    ensures PathRecs(es + [e], id) == PathRecs(es, id) + PathRecsOf(e.row, id + |es|)
  {
    assert (es + [e])[..|es|] == es;
  }

  lemma TagRecsConcatStep(a: seq<Entry>, b: seq<Entry>, e: Entry, id: nat)
    requires TagRecs(a + b, id) == TagRecs(a, id) + TagRecs(b, id + |a|)
    ensures TagRecs((a + b) + [e], id) == TagRecs(a, id) + TagRecs(b + [e], id + |a|)
  {
    var last := TagRecsOf(Tags(e.row), id + |a| + |b|);
    assert TagRecs((a + b) + [e], id) == TagRecs(a + b, id) + last by {
      TagRecsSnoc(a + b, e, id);
    }
    assert TagRecs(b + [e], id + |a|) == TagRecs(b, id + |a|) + last by {
      TagRecsSnoc(b, e, id + |a|);
    }
    ConcatAssociates(TagRecs(a, id), TagRecs(b, id + |a|), last);
  }

  lemma {:induction false} TagRecsConcat(a: seq<Entry>, b: seq<Entry>, id: nat)
    ensures TagRecs(a + b, id) == TagRecs(a, id) + TagRecs(b, id + |a|)
    decreases |b|
  {
    if b == [] {
      assert a + b == a;
    } else {
      var n := |b| - 1;
      assert b == b[..n] + [b[n]] && a + b == (a + b[..n]) + [b[n]];
      assert TagRecs(a + b[..n], id) == TagRecs(a, id) + TagRecs(b[..n], id + |a|) by {
        TagRecsConcat(a, b[..n], id);
      }
      TagRecsConcatStep(a, b[..n], b[n], id);
    }
  }

  lemma PathRecsConcatStep(a: seq<Entry>, b: seq<Entry>, e: Entry, id: nat)
    requires PathRecs(a + b, id) == PathRecs(a, id) + PathRecs(b, id + |a|)
    ensures PathRecs((a + b) + [e], id) == PathRecs(a, id) + PathRecs(b + [e], id + |a|)
  {
    PathRecsSnoc(a + b, e, id);
    PathRecsSnoc(b, e, id + |a|);
    ConcatAssociates(PathRecs(a, id), PathRecs(b, id + |a|), PathRecsOf(e.row, id + |a| + |b|));
  }

  lemma {:induction false} PathRecsConcat(a: seq<Entry>, b: seq<Entry>, id: nat)
    ensures PathRecs(a + b, id) == PathRecs(a, id) + PathRecs(b, id + |a|)
    decreases |b|
  {
    if b == [] {
      assert a + b == a;
    } else {
      var n := |b| - 1;
      PathRecsConcat(a, b[..n], id);
      PathRecsConcatStep(a, b[..n], b[n], id);
      assert b == b[..n] + [b[n]] && a + b == (a + b[..n]) + [b[n]];
    }
  }

  lemma AddSourceEntries(db: Db, before: seq<Entry>, s: Snapshot)
    requires db.rows == RowRecs(before, 1) && db.tags == TagRecs(before, 1) && db.paths == PathRecs(before, 1)
    ensures AddSource(db, s).rows == RowRecs(before + EntriesOf(s.half, s.content), 1)
    ensures AddSource(db, s).tags == TagRecs(before + EntriesOf(s.half, s.content), 1)
    ensures AddSource(db, s).paths == PathRecs(before + EntriesOf(s.half, s.content), 1)
  {
    var es := EntriesOf(s.half, s.content);
    assert RowRecs(before + es, 1) == RowRecs(before, 1) + RowRecs(es, 1 + |before|) by {
      RowRecsConcat(before, es, 1);
    }
    assert TagRecs(before + es, 1) == TagRecs(before, 1) + TagRecs(es, 1 + |before|) by {
      TagRecsConcat(before, es, 1);
    }
    assert PathRecs(before + es, 1) == PathRecs(before, 1) + PathRecs(es, 1 + |before|) by {
      PathRecsConcat(before, es, 1);
    }
  }

  /** The tables are the whole entry list, numbered from one. */
  lemma {:induction false} TablesAreEntries(snaps: seq<Snapshot>)
    ensures Tables(snaps).rows == RowRecs(AllEntries(snaps), 1)
    ensures Tables(snaps).tags == TagRecs(AllEntries(snaps), 1)
    ensures Tables(snaps).paths == PathRecs(AllEntries(snaps), 1)
    decreases |snaps|
  {
    if snaps != [] {
      var init, last := snaps[..|snaps| - 1], snaps[|snaps| - 1];
      TablesAreEntries(init);
      AddSourceEntries(Tables(init), AllEntries(init), last);
    }
  }

  // ---------------------------------------------------------------- clusters

  lemma {:induction false} ClusterQueryIsScan(es: seq<Entry>, id: nat, kind: Cluster, value: string, half: Option<Half>)
    ensures FindByCluster(RowRecs(es, id), kind, value, half) == ScanCluster(es, FieldOf(kind), value, half)
    decreases |es|
  {
    if es != [] {
      assert RowRecs(es, id)[1..] == RowRecs(es[1..], id + 1);
      ClusterQueryIsScan(es[1..], id + 1, kind, value, half);
    }
  }

  // ---------------------------------------------------------------- tags

  lemma {:induction false} MatchingTagsConcat(a: seq<TagRec>, b: seq<TagRec>, id: nat, tag: Tag)
    ensures MatchingTags(a + b, id, tag) == MatchingTags(a, id, tag) + MatchingTags(b, id, tag)
    decreases |a|
  {
    if a == [] {
      assert a + b == b;
    } else {
      assert (a + b)[1..] == a[1..] + b;
      MatchingTagsConcat(a[1..], b, id, tag);
    }
  }

  lemma {:induction false} MatchingTagsOfRow(tags: seq<Tag>, rowId: nat, id: nat, tag: Tag)
    ensures MatchingTags(TagRecsOf(tags, rowId), id, tag) == if rowId == id then Occurrences(tags, tag) else 0
    decreases |tags|
  {
    if tags != [] {
      assert TagRecsOf(tags, rowId)[1..] == TagRecsOf(tags[1..], rowId);
      MatchingTagsOfRow(tags[1..], rowId, id, tag);
    }
  }

  /** The whole tag table holds, for one row, that row's tags and no other's. */
  lemma {:induction false} MatchingTagsOfTable(es: seq<Entry>, first: nat, id: nat, tag: Tag)
    ensures MatchingTags(TagRecs(es, first), id, tag)
         == if first <= id < first + |es| then Occurrences(Tags(es[id - first].row), tag) else 0
    decreases |es|
  {
    if es != [] {
      var n := |es| - 1;
      MatchingTagsOfTable(es[..n], first, id, tag);
      MatchingTagsConcat(TagRecs(es[..n], first), TagRecsOf(Tags(es[n].row), first + n), id, tag);
      MatchingTagsOfRow(Tags(es[n].row), first + n, id, tag);
    }
  }

  lemma RowsFrom(es: seq<Entry>, k: nat)
    requires k < |es|
    ensures RowRecs(es, 1)[k..] == [RowRecOf(es[k], 1 + k)] + RowRecs(es, 1)[k + 1..] && es[k..] == [es[k]] + es[k + 1..]
  {
  }

  lemma {:induction false} TagQueryIsScan(es: seq<Entry>, k: nat, tag: Tag, half: Option<Half>)
    requires k <= |es|
    ensures FindByTag(RowRecs(es, 1)[k..], TagRecs(es, 1), tag, half) == ScanTag(es[k..], tag, half)
    decreases |es| - k
  {
    if k < |es| {
      RowsFrom(es, k);
      MatchingTagsOfTable(es, 1, k + 1, tag);
      TagQueryIsScan(es, k + 1, tag, half);
    }
  }

  // ---------------------------------------------------------------- paths

  lemma HasPathConcat(a: seq<PathRec>, b: seq<PathRec>, id: nat, prefix: string)
    ensures HasPathInRange(a + b, id, prefix) <==> HasPathInRange(a, id, prefix) || HasPathInRange(b, id, prefix)
  {
    if i :| 0 <= i < |a| && a[i].rowId == id && InRange(prefix, a[i].path) {
      assert (a + b)[i] == a[i];
    }
    if i :| 0 <= i < |b| && b[i].rowId == id && InRange(prefix, b[i].path) {
      assert (a + b)[|a| + i] == b[i];
    }
  }

  lemma HasPathOfRow(row: Row, rowId: nat, id: nat, prefix: string)
    ensures HasPathInRange(PathRecsOf(row, rowId), id, prefix)
       <==> rowId == id && OriginPath(row).Some? && InRange(prefix, OriginPath(row).value)
  {
    var own := PathRecsOf(row, rowId);
    if OriginPath(row).Some? {
      assert own[0] == PathRec(rowId, OriginPath(row).value);
    }
  }

  lemma {:induction false} PathsOfTable(es: seq<Entry>, first: nat, id: nat, prefix: string)
    ensures HasPathInRange(PathRecs(es, first), id, prefix)
       <==> first <= id < first + |es| && OriginPath(es[id - first].row).Some?
            && InRange(prefix, OriginPath(es[id - first].row).value)
    decreases |es|
  {
    if es != [] {
      var n := |es| - 1;
      PathsOfTable(es[..n], first, id, prefix);
      HasPathConcat(PathRecs(es[..n], first), PathRecsOf(es[n].row, first + n), id, prefix);
      HasPathOfRow(es[n].row, first + n, id, prefix);
    }
  }

  lemma {:induction false} PathQueryIsScan(es: seq<Entry>, k: nat, prefix: string, half: Option<Half>)
    requires k <= |es|
    requires Exact(prefix)
    ensures FindByPathPrefix(RowRecs(es, 1)[k..], PathRecs(es, 1), prefix, half) == ScanPathPrefix(es[k..], prefix, half)
    decreases |es| - k
  {
    if k < |es| {
      PathsOfTable(es, 1, k + 1, prefix);
      PathQueryIsScan(es, k + 1, prefix, half);
    }
  }

  // ---------------------------------------------------------------- freshness

  /** `build` reads each half at most once, the published one first. */
  predicate InSourceOrder(snaps: seq<Snapshot>) {
    |snaps| <= 2 && (|snaps| == 2 ==> snaps[0].half == Published && snaps[1].half == Local)
  }

  /** The files as the snapshots have them. */
  function FilesOf(snaps: seq<Snapshot>): map<Half, Content> {
    if snaps == [] then map[] else FilesOf(snaps[..|snaps| - 1])[snaps[|snaps| - 1].half := snaps[|snaps| - 1].content]
  }

  /** What a plain scan reads: the published half's rows, then the local half's. */
  function FileEntries(files: map<Half, Content>): (es: seq<Entry>)
  {
    (if Published in files then EntriesOf(Published, files[Published]) else [])
    + (if Local in files then EntriesOf(Local, files[Local]) else [])
  }

  lemma {:induction false} HeldConcat(a: seq<RowRec>, b: seq<RowRec>, h: Half)
    ensures Held(a + b, h) == Held(a, h) + Held(b, h)
    decreases |a|
  {
    if a == [] {
      assert a + b == b;
    } else {
      assert (a + b)[1..] == a[1..] + b;
      HeldConcat(a[1..], b, h);
    }
  }

  lemma {:induction false} HeldOfOneHalf(rows: seq<RowRec>, own: Half, h: Half)
    requires forall i :: 0 <= i < |rows| ==> rows[i].half == own
    ensures Held(rows, h) == if own == h then |rows| else 0
    decreases |rows|
  {
    if rows != [] {
      HeldOfOneHalf(rows[1..], own, h);
    }
  }

  lemma AddSourceHolds(db: Db, s: Snapshot, h: Half)
    ensures Held(AddSource(db, s).rows, h) == Held(db.rows, h) + if s.half == h then |EntriesOf(s.half, s.content)| else 0
  {
    HeldConcat(db.rows, RowRecs(EntriesOf(s.half, s.content), |db.rows| + 1), h);
    HeldOfOneHalf(RowRecs(EntriesOf(s.half, s.content), |db.rows| + 1), s.half, h);
  }

  lemma {:induction false} FilesOfHalves(snaps: seq<Snapshot>, h: Half)
    ensures h in FilesOf(snaps) <==> exists i :: 0 <= i < |snaps| && snaps[i].half == h
    decreases |snaps|
  {
    if snaps != [] {
      var n := |snaps| - 1;
      FilesOfHalves(snaps[..n], h);
      if i :| 0 <= i < n && snaps[i].half == h {
        assert snaps[..n][i].half == h;
      }
    }
  }

  /** A completed build records and holds what it read, half by half. */
  lemma {:induction false} BuildRecordsItsSources(snaps: seq<Snapshot>, h: Half)
    requires InSourceOrder(snaps)
    ensures h in Tables(snaps).sources <==> h in FilesOf(snaps)
    ensures h !in FilesOf(snaps) ==> Held(Tables(snaps).rows, h) == 0
    ensures h in FilesOf(snaps) ==>
              && Tables(snaps).sources[h].sha == Sha256(FilesOf(snaps)[h])
              && Held(Tables(snaps).rows, h) == Tables(snaps).sources[h].rows
    decreases |snaps|
  {
    if snaps != [] {
      var n := |snaps| - 1;
      var init := Tables(snaps[..n]);
      BuildRecordsItsSources(snaps[..n], h);
      FilesOfHalves(snaps[..n], snaps[n].half);
      assert Tables(snaps) == AddSource(init, snaps[n]);
      AddSourceHolds(init, snaps[n], h);
    }
  }

  /** A build is fresh exactly while the files hold the bytes it read. */
  lemma FreshIffUnmoved(snaps: seq<Snapshot>, files: map<Half, Content>)
    requires InSourceOrder(snaps)
    ensures Fresh(Complete(Tables(snaps)), files) <==> files == FilesOf(snaps)
  {
    forall h {
      BuildRecordsItsSources(snaps, h);
    }
    var db := Complete(Tables(snaps));
    assert forall h :: h in db.sources.Keys <==> h in FilesOf(snaps).Keys;
    assert db.sources.Keys == FilesOf(snaps).Keys;
  }

  lemma FilesAndEntriesOfTwo(a: Snapshot, b: Snapshot)
    ensures FilesOf([a]) == map[a.half := a.content]
    ensures FilesOf([a, b]) == map[a.half := a.content][b.half := b.content]
    ensures AllEntries([a]) == EntriesOf(a.half, a.content)
    ensures AllEntries([a, b]) == EntriesOf(a.half, a.content) + EntriesOf(b.half, b.content)
  {
    assert [a][..0] == [] && [a, b][..1] == [a];
    assert FilesOf([]) == map[] && AllEntries([]) == [];
  }

  lemma EntriesOfFiles(snaps: seq<Snapshot>)
    requires InSourceOrder(snaps)
    ensures AllEntries(snaps) == FileEntries(FilesOf(snaps))
  {
    if |snaps| == 1 {
      assert snaps == [snaps[0]];
      FilesAndEntriesOfTwo(snaps[0], snaps[0]);
      match snaps[0].half
      case Published =>
      case Local =>
    } else if |snaps| == 2 {
      assert snaps == [snaps[0], snaps[1]];
      FilesAndEntriesOfTwo(snaps[0], snaps[1]);
    }
  }

  /**
    * On any database an open accepts, the finders agree with a scan of the files as
    * they are now: in file order, the published half first; a tag query gives a row
    * once per occurrence of the pair; a path query is exact where its bound is.
    */
  lemma AcceptedFindersAreScans(snaps: seq<Snapshot>, files: map<Half, Content>, half: Option<Half>)
    requires InSourceOrder(snaps)
    requires Fresh(Complete(Tables(snaps)), files)
    ensures forall kind, value :: FindByCluster(Tables(snaps).rows, kind, value, half)
                               == ScanCluster(FileEntries(files), FieldOf(kind), value, half)
    ensures forall tag :: FindByTag(Tables(snaps).rows, Tables(snaps).tags, tag, half)
                       == ScanTag(FileEntries(files), tag, half)
    ensures forall prefix :: Bounded(prefix) ==>
              FindByPathPrefix(Tables(snaps).rows, Tables(snaps).paths, prefix, half)
              == ScanPathPrefix(FileEntries(files), prefix, half)
  {
    FreshIffUnmoved(snaps, files);
    EntriesOfFiles(snaps);
    TablesAreEntries(snaps);
    var es := AllEntries(snaps);
    assert es[0..] == es && RowRecs(es, 1)[0..] == RowRecs(es, 1);
    forall kind, value {
      ClusterQueryIsScan(es, 1, kind, value, half);
    }
    forall tag {
      TagQueryIsScan(es, 0, tag, half);
    }
    forall prefix | Bounded(prefix)
      ensures FindByPathPrefix(Tables(snaps).rows, Tables(snaps).paths, prefix, half) == ScanPathPrefix(es, prefix, half)
    {
      ExactIffBounded(prefix);
      PathQueryIsScan(es, 0, prefix, half);
    }
  }
}
