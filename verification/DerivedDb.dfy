/**
  * The derived read index: the tables `build` fills from the two JSONL halves, the
  * freshness test every open makes, and the three finders.
  */
module DerivedDb {
  import opened Prelude
  import opened JsonValues

  datatype Half = Published | Local

  /** Lock order, and the order the halves are read and numbered in. */
  const SOURCES: seq<Half> := [Published, Local]

  const SCHEMA_VERSION: int := 1

  /** A parsed row; `placementKeys` is the order in which its `placements` object lists its keys. */
  datatype Row = Row(fields: Fields, placementKeys: seq<string>)

  /** One line of a JSONL file, with what `json.loads` makes of it. */
  datatype Line = Blank | Record(text: string, row: Row)

  type Content = seq<Line>

  /** The hash of a file's bytes, standing for those bytes. */
  datatype Sha256 = Sha256(of: Content)

  // ---------------------------------------------------------------- tables

  datatype Columns = Columns(
    sha256: Option<string>, size: Option<int>, bucket: Option<string>, family: Option<string>,
    stagingDir: Option<string>, verdict: Option<string>, publishable: Option<int>, reason: Option<string>,
    accountHash: Option<string>, originPath: Option<string>)

  datatype RowRec = RowRec(id: nat, half: Half, lineNo: nat, cols: Columns, json: Line)
  datatype TagRec = TagRec(rowId: nat, kind: string, value: string)
  datatype PathRec = PathRec(rowId: nat, path: string)

  /** A file's size, and a stamp for the inode and modification time it has. */
  datatype Stat = Stat(bytes: nat, stamp: nat)

  datatype SourceRec = SourceRec(sha: Sha256, rows: nat, stat: Stat)

  /** `version` is set last, so a database without one is not complete. */
  datatype Db = Db(version: Option<int>, sources: map<Half, SourceRec>,
                   rows: seq<RowRec>, tags: seq<TagRec>, paths: seq<PathRec>)

  const EMPTY: Db := Db(None, map[], [], [], [])

  // ---------------------------------------------------------------- extraction

  function Text(j: Json): Option<string> {
    if j.Str? then Some(j.s) else None
  }

  function Integer(j: Json): Option<int> {
    if j.Int? then Some(j.n) else None
  }

  function OriginPath(row: Row): Option<string> {
    var origin := Get(row.fields, "origin");
    if origin.Obj? then Text(Get(origin.fields, "path")) else None
  }

  function Extract(row: Row): Columns {
    var f := row.fields;
    Columns(Text(Get(f, "sha256")), Integer(Get(f, "size")), Text(Get(f, "bucket")), Text(Get(f, "family")),
            Text(Get(f, "staging_dir")), Text(Get(f, "verdict")),
            if Get(f, "publishable").Bool? then Some(if Get(f, "publishable").b then 1 else 0) else None,
            Text(Get(f, "reason")), Text(Get(f, "account_hash")), OriginPath(row))
  }

  const TAG_FIELDS: seq<string> := ["sensitivity", "technique", "discovered_by", "publish_blockers", "collected_from"]

  datatype Tag = Tag(kind: string, value: string)

  function StringTags(kind: string, items: seq<Json>): seq<Tag> {
    if items == [] then []
    else (if items[0].Str? then [Tag(kind, items[0].s)] else []) + StringTags(kind, items[1..])
  }

  function ListTags(kind: string, j: Json): seq<Tag> {
    if j.Arr? then StringTags(kind, j.items) else []
  }

  function FieldTags(row: Row, fields: seq<string>): seq<Tag> {
    if fields == [] then [] else ListTags(fields[0], Get(row.fields, fields[0])) + FieldTags(row, fields[1..])
  }

  function PlacementTags(keys: seq<string>): seq<Tag> {
    seq(|keys|, i requires 0 <= i < |keys| => Tag("placement", keys[i]))
  }

  /** (kind, value) pairs in the order the generator yields them; a repeated value is repeated. */
  function Tags(row: Row): seq<Tag> {
    var expected := Get(row.fields, "expect");
    FieldTags(row, TAG_FIELDS)
    + (if expected.Obj? then ListTags("must_detect", Get(expected.fields, "must_detect")) else [])
    + (if Get(row.fields, "placements").Obj? then PlacementTags(row.placementKeys) else [])
  }

  // ---------------------------------------------------------------- what a build holds

  /** A line that is not blank, its half and its 1-based number in the file. */
  datatype Entry = Entry(half: Half, lineNo: nat, text: string, row: Row) {
    function Line(): Line {
      Record(text, row)
    }
  }

  datatype Snapshot = Snapshot(half: Half, content: Content, stat: Stat)

  function EntriesFrom(half: Half, content: Content, n: nat): (es: seq<Entry>)
    requires n <= |content|
    ensures forall i :: 0 <= i < |es| ==> es[i].half == half
    decreases |content| - n
  {
    if n == |content| then []
    else (match content[n] case Blank => [] case Record(text, row) => [Entry(half, n + 1, text, row)])
         + EntriesFrom(half, content, n + 1)
  }

  function EntriesOf(half: Half, content: Content): (es: seq<Entry>)
    ensures forall i :: 0 <= i < |es| ==> es[i].half == half
  {
    EntriesFrom(half, content, 0)
  }

  function RowRecOf(e: Entry, id: nat): RowRec
  {
    RowRec(id, e.half, e.lineNo, Extract(e.row), e.Line())
  }

  function RowRecs(es: seq<Entry>, id: nat): (rs: seq<RowRec>)
    ensures |rs| == |es|
  {
    seq(|es|, i requires 0 <= i < |es| => RowRecOf(es[i], id + i))
  }

  function TagRecsOf(tags: seq<Tag>, id: nat): seq<TagRec> {
    seq(|tags|, i requires 0 <= i < |tags| => TagRec(id, tags[i].kind, tags[i].value))
  }

  function TagRecs(es: seq<Entry>, id: nat): seq<TagRec>
  {
    if es == [] then []
    else TagRecs(es[..|es| - 1], id) + TagRecsOf(Tags(es[|es| - 1].row), id + |es| - 1)
  }

  function PathRecsOf(row: Row, id: nat): seq<PathRec> {
    if OriginPath(row).Some? then [PathRec(id, OriginPath(row).value)] else []
  }

  function PathRecs(es: seq<Entry>, id: nat): seq<PathRec>
  {
    if es == [] then [] else PathRecs(es[..|es| - 1], id) + PathRecsOf(es[|es| - 1].row, id + |es| - 1)
  }

  function AddSource(db: Db, s: Snapshot): Db {
    var es, id := EntriesOf(s.half, s.content), |db.rows| + 1;
    Db(db.version, db.sources[s.half := SourceRec(Sha256(s.content), |es|, s.stat)],
       db.rows + RowRecs(es, id), db.tags + TagRecs(es, id), db.paths + PathRecs(es, id))
  }

  function Tables(snaps: seq<Snapshot>): Db {
    if snaps == [] then EMPTY else AddSource(Tables(snaps[..|snaps| - 1]), snaps[|snaps| - 1])
  }

  function Complete(db: Db): Db {
    db.(version := Some(SCHEMA_VERSION))
  }

  /** The inner loop: one half's rows, numbered from `firstId`. */
  method FillSource(es: seq<Entry>, firstId: nat)
    returns (rowsData: seq<RowRec>, tagsData: seq<TagRec>, pathsData: seq<PathRec>, nextId: nat)
    ensures rowsData == RowRecs(es, firstId) && tagsData == TagRecs(es, firstId) && pathsData == PathRecs(es, firstId)
    ensures nextId == firstId + |es|
  {
    rowsData, tagsData, pathsData, nextId := [], [], [], firstId;
    for j := 0 to |es|
      invariant nextId == firstId + j
      invariant rowsData == RowRecs(es[..j], firstId)
      invariant tagsData == TagRecs(es[..j], firstId)
      invariant pathsData == PathRecs(es[..j], firstId)
    {
      assert es[..j + 1][..j] == es[..j];
      var row := es[j].row;
      rowsData := rowsData + [RowRecOf(es[j], nextId)];
      tagsData := tagsData + TagRecsOf(Tags(row), nextId);
      pathsData := pathsData + PathRecsOf(row, nextId);
      nextId := nextId + 1;
    }
    assert es[..|es|] == es;
  }

  /** `build` after the read: row ids run on from one half into the next. */
  method BuildTables(snaps: seq<Snapshot>) returns (db: Db)
    ensures db == Complete(Tables(snaps))
  {
    db := EMPTY;
    var nextId := 1;
    for k := 0 to |snaps|
      invariant db == Tables(snaps[..k])
      invariant nextId == |db.rows| + 1
    {
      assert snaps[..k + 1][..k] == snaps[..k];
      var es := EntriesOf(snaps[k].half, snaps[k].content);
      var rowsData, tagsData, pathsData;
      rowsData, tagsData, pathsData, nextId := FillSource(es, nextId);
      db := Db(db.version, db.sources[snaps[k].half := SourceRec(Sha256(snaps[k].content), |es|, snaps[k].stat)],
               db.rows + rowsData, db.tags + tagsData, db.paths + pathsData);
    }
    assert snaps[..|snaps|] == snaps;
    db := Complete(db);
  }

  // ---------------------------------------------------------------- freshness

  function Held(rows: seq<RowRec>, half: Half): nat {
    if rows == [] then 0 else (if rows[0].half == half then 1 else 0) + Held(rows[1..], half)
  }

  /** What an open demands of the database against the files present now. */
  predicate Fresh(db: Db, files: map<Half, Content>) {
    && db.version == Some(SCHEMA_VERSION)
    && db.sources.Keys == files.Keys
    && forall h :: h in db.sources && h in files ==>
         db.sources[h].sha == Sha256(files[h]) && Held(db.rows, h) == db.sources[h].rows
  }

  datatype Verdict = Ok | SchemaUnrecognised | Stale(complaints: seq<Complaint>)
  datatype Complaint = NotBuiltFrom(half: Half) | NotPresentNow(half: Half) | Moved(half: Half) | RowsMissing(half: Half)

  /** The complaints the three loops collect, after `k` turns of each. */
  function NotBuiltFroms(db: Db, files: map<Half, Content>, k: nat): seq<Complaint>
    requires k <= |SOURCES|
  {
    if k == 0 then []
    else
      var h := SOURCES[k - 1];
      NotBuiltFroms(db, files, k - 1) + if h in files && h !in db.sources then [NotBuiltFrom(h)] else []
  }

  function NotPresentNows(db: Db, files: map<Half, Content>, k: nat): seq<Complaint>
    requires k <= |SOURCES|
  {
    if k == 0 then []
    else
      var h := SOURCES[k - 1];
      NotPresentNows(db, files, k - 1) + if h in db.sources && h !in files then [NotPresentNow(h)] else []
  }

  function Mismatches(db: Db, files: map<Half, Content>, k: nat): seq<Complaint>
    requires k <= |SOURCES|
  {
    if k == 0 then []
    else
      var h := SOURCES[k - 1];
      Mismatches(db, files, k - 1) +
      if h in files && h in db.sources then
        (if db.sources[h].sha != Sha256(files[h]) then [Moved(h)] else [])
        + (if Held(db.rows, h) != db.sources[h].rows then [RowsMissing(h)] else [])
      else []
  }

  function Complaints(db: Db, files: map<Half, Content>): seq<Complaint> {
    NotBuiltFroms(db, files, |SOURCES|) + NotPresentNows(db, files, |SOURCES|) + Mismatches(db, files, |SOURCES|)
  }

  /** `verify`: complaints are collected and reported together. */
  method Verify(db: Db, files: map<Half, Content>) returns (v: Verdict)
    ensures v == if db.version != Some(SCHEMA_VERSION) then SchemaUnrecognised
                 else if Complaints(db, files) == [] then Ok else Stale(Complaints(db, files))
  {
    if db.version != Some(SCHEMA_VERSION) {
      return SchemaUnrecognised;
    }
    var complaints: seq<Complaint> := [];
    for k := 0 to |SOURCES|
      invariant complaints == NotBuiltFroms(db, files, k)
    {
      if SOURCES[k] in files && SOURCES[k] !in db.sources {
        complaints := complaints + [NotBuiltFrom(SOURCES[k])];
      }
    }
    for k := 0 to |SOURCES|
      invariant complaints == NotBuiltFroms(db, files, |SOURCES|) + NotPresentNows(db, files, k)
    {
      if SOURCES[k] in db.sources && SOURCES[k] !in files {
        complaints := complaints + [NotPresentNow(SOURCES[k])];
      }
    }
    ghost var missing := complaints;
    for k := 0 to |SOURCES|
      invariant complaints == missing + Mismatches(db, files, k)
    {
      var h := SOURCES[k];
      if h in files && h in db.sources {
        if db.sources[h].sha != Sha256(files[h]) {
          complaints := complaints + [Moved(h)];
        }
        if Held(db.rows, h) != db.sources[h].rows {
          complaints := complaints + [RowsMissing(h)];
        }
      }
    }
    v := if complaints == [] then Ok else Stale(complaints);
  }

  predicate Agrees(db: Db, files: map<Half, Content>, h: Half) {
    && (h in db.sources <==> h in files)
    && (h in db.sources && h in files ==>
          db.sources[h].sha == Sha256(files[h]) && Held(db.rows, h) == db.sources[h].rows)
  }

  lemma {:induction false} NoComplaintsUpTo(db: Db, files: map<Half, Content>, k: nat)
    requires k <= |SOURCES|
    ensures NotBuiltFroms(db, files, k) == [] && NotPresentNows(db, files, k) == [] && Mismatches(db, files, k) == []
       <==> forall i :: 0 <= i < k ==> Agrees(db, files, SOURCES[i])
    decreases k
  {
    if k > 0 {
      NoComplaintsUpTo(db, files, k - 1);
    }
  }

  /** Nothing to complain about means fresh, and the other way round. */
  lemma NoComplaintsIffFresh(db: Db, files: map<Half, Content>)
    requires db.version == Some(SCHEMA_VERSION)
    ensures Complaints(db, files) == [] <==> Fresh(db, files)
  {
    NoComplaintsUpTo(db, files, |SOURCES|);
    if Fresh(db, files) {
      forall h ensures h in db.sources.Keys <==> h in files.Keys {
        assert Agrees(db, files, h);
      }
      assert db.sources.Keys == files.Keys;
      forall h | h in db.sources
        ensures db.sources[h].sha == Sha256(files[h]) && Held(db.rows, h) == db.sources[h].rows
      {
        assert Agrees(db, files, h);
      }
    }
    if forall i :: 0 <= i < |SOURCES| ==> Agrees(db, files, SOURCES[i]) {
      forall h ensures Agrees(db, files, h) {
        assert Agrees(db, files, SOURCES[0]) && Agrees(db, files, SOURCES[1]);
        match h
        case Published =>
        case Local =>
      }
      forall h ensures h in db.sources.Keys <==> h in files.Keys {
        assert Agrees(db, files, h);
      }
      assert db.sources.Keys == files.Keys;
      forall h | h in db.sources
        ensures db.sources[h].sha == Sha256(files[h]) && Held(db.rows, h) == db.sources[h].rows
      {
        assert Agrees(db, files, h);
      }
    }
  }
}
