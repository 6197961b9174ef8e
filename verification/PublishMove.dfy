/** Publishing rows: decided before the locks and moved under them; where a row is meanwhile, and which changes are lost. */
module PublishMove {
  import opened Prelude
  import opened JsonValues
  import opened DerivedDb
  import opened IndexProtocol
  import opened IndexMoments
  import F = FamilyEvidence

  // ---------------------------------------------------------------- rows of a file

  /** The rows of a JSONL file, blank lines skipped. */
  function RowsOf(c: Content): (rows: seq<Fields>) {
    if c == [] then [] else (if c[0].Blank? then [] else [c[0].row.fields]) + RowsOf(c[1..])
  }

  /** How a row is written, and read back as itself. */
  ghost predicate WritesRows(dump: Fields -> Line) {
    forall r :: dump(r).Record? && dump(r).row.fields == r
  }

  function Written(dump: Fields -> Line, rows: seq<Fields>): Content {
    if rows == [] then [] else [dump(rows[0])] + Written(dump, rows[1..])
  }

  lemma {:induction false} RowsOfWritten(dump: Fields -> Line, rows: seq<Fields>)
    requires WritesRows(dump)
    ensures RowsOf(Written(dump, rows)) == rows
  {
    if rows != [] {
      RowsOfWritten(dump, rows[1..]);
      assert Written(dump, rows)[1..] == Written(dump, rows[1..]);
    }
  }

  function Shas(rows: seq<Fields>): set<Json> {
    set r | r in rows :: F.Sha(r)
  }

  // ---------------------------------------------------------------- which rows move

  /** Why a row stays. The gate's answer, the form rules and the staged shards are given. */
  datatype Refusal =
    | NotLocal(published: bool) | AlreadyPublished | Unreviewed | Held(why: Json) | NeverPublished(tags: set<string>)
    | NotPublishable | BadForm | NotStaged

  datatype Asked = Asked(evaluate: Fields -> bool, inForm: Fields -> bool, stage: Option<set<string>>)

  const NEVER: set<string> := {"pii", "content"}

  /** What lands in the published half. */
  function Stripped(r: Fields): Fields {
    r - {"origin"}
  }

  /** A table of rows by sha256 keeps the last one with it. */
  function LastWith(rows: seq<Fields>, sha: string): (r: Option<Fields>)
    ensures r.Some? ==> r.value in rows && F.Sha(r.value) == Str(sha)
    ensures r.None? ==> Str(sha) !in Shas(rows)
  {
    if rows == [] then None
    else if F.Sha(rows[|rows| - 1]) == Str(sha) then Some(rows[|rows| - 1])
    else LastWith(rows[..|rows| - 1], sha)
  }

  function SensitivityOf(r: Fields): set<string> {
    match Get(r, "sensitivity")
    case Arr(items) => F.Strings(items)
    case Obj(fields) => fields.Keys
    case _ => {}
  }

  function WhyNot(asked: Asked, sha: string, local: seq<Fields>, published: seq<Fields>): Option<Refusal> {
    var found := LastWith(local, sha);
    if found.None? then Some(NotLocal(Str(sha) in Shas(published)))
    else
      var r := found.value;
      if Str(sha) in Shas(published) then Some(AlreadyPublished)
      else if Get(r, "verdict") == Str("unreviewed") then Some(Unreviewed)
      else if Truthy(Get(r, "local_only")) then Some(Held(Get(r, "local_only")))
      else if SensitivityOf(r) * NEVER != {} then Some(NeverPublished(SensitivityOf(r) * NEVER))
      else if !asked.evaluate(r) then Some(NotPublishable)
      else if !asked.inForm(Stripped(r)) then Some(BadForm)
      else if asked.stage.Some? && sha !in asked.stage.value then Some(NotStaged)
      else None
  }

  /** A row on the move: as it was seen, and as it is to land. */
  datatype Leaving = Leaving(sha: string, seen: Fields, out: Fields)

  ghost predicate SeenMove(v: Leaving, local: seq<Fields>, published: seq<Fields>) {
    LastWith(local, v.sha) == Some(v.seen) && v.out == Stripped(v.seen) && Str(v.sha) !in Shas(published)
  }

  /** The whole decision; nothing is moved unless every row asked for is. */
  method Adjudicate(asked: Asked, shas: seq<string>, local: seq<Fields>, published: seq<Fields>)
    returns (moving: seq<Leaving>, refused: seq<(string, Refusal)>)
    ensures |moving| + |refused| == |shas|
    ensures refused == [] <==> forall sha :: sha in shas ==> WhyNot(asked, sha, local, published).None?
    ensures refused == [] ==> forall k :: 0 <= k < |shas| ==> moving[k].sha == shas[k]
    ensures forall v :: v in moving ==> v.sha in shas && WhyNot(asked, v.sha, local, published).None? && SeenMove(v, local, published)
    ensures forall x :: x in refused ==> x.0 in shas && WhyNot(asked, x.0, local, published) == Some(x.1)
  {
    moving, refused := [], [];
    for k := 0 to |shas|
      invariant |moving| + |refused| == k
      invariant refused == [] ==> forall i :: 0 <= i < k ==> moving[i].sha == shas[i] && WhyNot(asked, shas[i], local, published).None?
      invariant forall v :: v in moving ==> v.sha in shas && WhyNot(asked, v.sha, local, published).None? && SeenMove(v, local, published)
      invariant forall x :: x in refused ==> x.0 in shas && WhyNot(asked, x.0, local, published) == Some(x.1)
    {
      var why := WhyNot(asked, shas[k], local, published);
      if why.Some? {
        refused := refused + [(shas[k], why.value)];
      } else {
        var r := LastWith(local, shas[k]).value;
        moving := moving + [Leaving(shas[k], r, Stripped(r))];
      }
    }
    if refused != [] {
      assert refused[0] in refused;
    }
  }

  // ---------------------------------------------------------------- the move

  function MovedShas(moving: seq<Leaving>): set<Json> {
    set v | v in moving :: Str(v.sha)
  }

  /** The rows to add, those the published half has by now left out. */
  function Added(moving: seq<Leaving>, have: set<Json>): (rows: seq<Fields>)
    ensures forall r :: r in rows <==> exists v :: v in moving && Str(v.sha) !in have && v.out == r
  {
    if moving == [] then []
    else (if Str(moving[0].sha) !in have then [moving[0].out] else []) + Added(moving[1..], have)
  }

  function Without(rows: seq<Fields>, shas: set<Json>): (out: seq<Fields>)
    ensures forall r :: r in out <==> r in rows && F.Sha(r) !in shas
  {
    if rows == [] then [] else (if F.Sha(rows[0]) !in shas then [rows[0]] else []) + Without(rows[1..], shas)
  }

  function Publish(moving: seq<Leaving>, dump: Fields -> Line): Op {
    c => Written(dump, RowsOf(c) + Added(moving, Shas(RowsOf(c))))
  }

  function Drop(moving: seq<Leaving>, dump: Fields -> Line): Op {
    c => Written(dump, Without(RowsOf(c), MovedShas(moving)))
  }

  lemma RowsPublished(moving: seq<Leaving>, dump: Fields -> Line, c: Content)
    requires WritesRows(dump)
    ensures RowsOf(Publish(moving, dump)(c)) == RowsOf(c) + Added(moving, Shas(RowsOf(c)))
    ensures RowsOf(Drop(moving, dump)(c)) == Without(RowsOf(c), MovedShas(moving))
  {
    RowsOfWritten(dump, RowsOf(c) + Added(moving, Shas(RowsOf(c))));
    RowsOfWritten(dump, Without(RowsOf(c), MovedShas(moving)));
  }

  // ---------------------------------------------------------------- where a row is

  /** Every row moved lands with the sha256 it was asked for under. */
  ghost predicate LandsAsItself(moving: seq<Leaving>) {
    forall v :: v in moving ==> F.Sha(v.out) == Str(v.sha)
  }

  lemma StrippingKeepsSha(r: Fields)
    ensures F.Sha(Stripped(r)) == F.Sha(r)
  {
  }

  lemma SeenLandsAsItself(moving: seq<Leaving>, local: seq<Fields>, published: seq<Fields>)
    requires forall v :: v in moving ==> SeenMove(v, local, published)
    ensures LandsAsItself(moving)
  {
  }

  lemma ShasPublished(moving: seq<Leaving>, have: seq<Fields>)
    requires LandsAsItself(moving)
    ensures Shas(have + Added(moving, Shas(have))) == Shas(have) + MovedShas(moving)
  {
    var rows := Added(moving, Shas(have));
    forall v | v in moving && Str(v.sha) !in Shas(have) ensures Str(v.sha) in Shas(rows) {
      assert v.out in rows;
    }
  }

  /**
    * No row is in neither half, at any moment of the move: what the local half held when it
    * was read is there still, or is in the published half under its sha256; and what the
    * published half held stays.
    */
  lemma NoRowInNeitherHalf(w: World, steps: seq<Action>, w': World, pid: Pid, moving: seq<Leaving>, dump: Fields -> Line, r: Fields)
    requires Initial(w) && Leads(true, w, steps, w')
    requires pid in w'.procs && w'.procs[pid].Publishing? && w'.procs[pid].mover.move == Move(Publish(moving, dump), Drop(moving, dump))
    requires WritesRows(dump) && LandsAsItself(moving)
    ensures HasIndex(w'.disk, Published) && HasIndex(w'.disk, Local)
    ensures var m, pub, loc := w'.procs[pid].mover, RowsOf(IndexContent(w'.disk, Published)), RowsOf(IndexContent(w'.disk, Local));
            && (r in RowsOf(m.loc) ==> r in loc || F.Sha(r) in Shas(pub))
            && (r in RowsOf(m.pub) ==> r in pub)
  {
    MoveIsOneOfThree(w, steps, w', pid);
    var m := w'.procs[pid].mover;
    RowsPublished(moving, dump, m.pub);
    RowsPublished(moving, dump, m.loc);
    ShasPublished(moving, RowsOf(m.pub));
  }

  // ---------------------------------------------------------------- what was written in between

  /** A row as it stands when it is dropped. */
  ghost predicate Dropped(moving: seq<Leaving>, loc: Content, r: Fields) {
    r in RowsOf(loc) && F.Sha(r) in MovedShas(moving)
  }

  ghost predicate SeenAlike(moving: seq<Leaving>, r: Fields) {
    exists v :: v in moving && Str(v.sha) == F.Sha(r) && Stripped(v.seen) == Stripped(r)
  }

  /**
    * What is dropped has landed as it stood, save for its origin, if and only if the published
    * half held it so already, or did not have its sha256 and the row is as it was when the move
    * was decided.
    */
  lemma LandsAsItStoodIff(moving: seq<Leaving>, dump: Fields -> Line, pub: Content, loc: Content, r: Fields)
    requires WritesRows(dump) && (forall v :: v in moving ==> v.out == Stripped(v.seen)) && LandsAsItself(moving)
    requires Dropped(moving, loc, r)
    ensures r !in RowsOf(Drop(moving, dump)(loc))
    ensures Stripped(r) in RowsOf(Publish(moving, dump)(pub)) <==>
            Stripped(r) in RowsOf(pub) || (F.Sha(r) !in Shas(RowsOf(pub)) && SeenAlike(moving, r))
  {
    RowsPublished(moving, dump, pub);
    RowsPublished(moving, dump, loc);
    StrippingKeepsSha(r);
    var have, rows := Shas(RowsOf(pub)), Added(moving, Shas(RowsOf(pub)));
    if Stripped(r) in rows {
      var v :| v in moving && Str(v.sha) !in have && v.out == Stripped(r);
      assert Str(v.sha) == F.Sha(r);
    }
    if F.Sha(r) !in have && SeenAlike(moving, r) {
      var v :| v in moving && Str(v.sha) == F.Sha(r) && Stripped(v.seen) == Stripped(r);
      assert v.out in rows;
    }
  }

  /** So an update made between the decision and the move is in neither half: a hold placed then, for one. */
  lemma UpdateInBetweenIsLost(v: Leaving, dump: Fields -> Line, pub: Content, loc: Content, r: Fields)
    requires WritesRows(dump) && v.out == Stripped(v.seen) && F.Sha(v.seen) == Str(v.sha) == F.Sha(r)
    requires Str(v.sha) !in Shas(RowsOf(pub)) && r in RowsOf(loc) && Stripped(r) != Stripped(v.seen)
    ensures r !in RowsOf(Drop([v], dump)(loc))
    ensures Stripped(r) !in RowsOf(Publish([v], dump)(pub)) && Stripped(v.seen) in RowsOf(Publish([v], dump)(pub))
  {
    assert [v][0] in [v];
    LandsAsItStoodIff([v], dump, pub, loc, r);
    RowsPublished([v], dump, pub);
    assert v.out in Added([v], Shas(RowsOf(pub)));
  }

  /** In any run: a row that stood in the local half when the move read it is, once both halves are written, published as it stood, or not at all. */
  lemma MovedAsItStoodIff(w: World, steps: seq<Action>, w': World, pid: Pid, moving: seq<Leaving>, dump: Fields -> Line, r: Fields)
    requires Initial(w) && Leads(true, w, steps, w')
    requires pid in w'.procs && w'.procs[pid].Publishing? && w'.procs[pid].mover.BothMoved?
    requires w'.procs[pid].mover.move == Move(Publish(moving, dump), Drop(moving, dump))
    requires WritesRows(dump) && (forall v :: v in moving ==> v.out == Stripped(v.seen)) && LandsAsItself(moving)
    requires Dropped(moving, w'.procs[pid].mover.loc, r)
    ensures HasIndex(w'.disk, Published) && HasIndex(w'.disk, Local)
    ensures var m, pub, loc := w'.procs[pid].mover, RowsOf(IndexContent(w'.disk, Published)), RowsOf(IndexContent(w'.disk, Local));
            && r !in loc
            && (Stripped(r) in pub <==> Stripped(r) in RowsOf(m.pub) || (F.Sha(r) !in Shas(RowsOf(m.pub)) && SeenAlike(moving, r)))
  {
    MoveIsOneOfThree(w, steps, w', pid);
    var m := w'.procs[pid].mover;
    LandsAsItStoodIff(moving, dump, m.pub, m.loc, r);
  }

  // ---------------------------------------------------------------- once each

  predicate OncePerSha(rows: seq<Fields>) {
    forall i, j :: 0 <= i < j < |rows| ==> F.Sha(rows[i]) != F.Sha(rows[j])
  }

  /** No sha256 the published half does not have is asked for twice. */
  predicate AskedOnce(moving: seq<Leaving>, have: set<Json>) {
    forall i, j :: 0 <= i < j < |moving| && moving[i].sha == moving[j].sha ==> Str(moving[i].sha) in have
  }

  lemma {:induction false} AddedOnceIff(moving: seq<Leaving>, have: set<Json>)
    requires LandsAsItself(moving)
    ensures OncePerSha(Added(moving, have)) <==> AskedOnce(moving, have)
  {
    if moving != [] {
      var v, rest := moving[0], moving[1..];
      assert forall u :: u in rest ==> u in moving;
      AddedOnceIff(rest, have);
      var rows := Added(rest, have);
      if Str(v.sha) in have {
        assert Added(moving, have) == rows;
        AskedOnceTail(moving, have);
      } else {
        assert Added(moving, have) == [v.out] + rows;
        OnceTail(v.out, rows);
        AskedOnceTail(moving, have);
        if u :| u in rest && u.sha == v.sha {
          assert u.out in rows;
        }
      }
    }
  }

  lemma OnceTail(r: Fields, rows: seq<Fields>)
    ensures OncePerSha([r] + rows) <==> OncePerSha(rows) && F.Sha(r) !in Shas(rows)
  {
    var all := [r] + rows;
    forall i, j | 0 <= i < j < |rows| ensures all[i + 1] == rows[i] && all[j + 1] == rows[j] {
    }
    if OncePerSha(all) {
      forall i, j | 0 <= i < j < |rows| ensures F.Sha(rows[i]) != F.Sha(rows[j]) {
        assert F.Sha(all[i + 1]) != F.Sha(all[j + 1]);
      }
      forall x | x in rows ensures F.Sha(x) != F.Sha(r) {
        var k :| 0 <= k < |rows| && rows[k] == x;
        assert F.Sha(all[0]) != F.Sha(all[k + 1]);
      }
    }
  }

  lemma AskedOnceTail(moving: seq<Leaving>, have: set<Json>)
    requires moving != []
    ensures AskedOnce(moving, have) <==>
            AskedOnce(moving[1..], have) && (Str(moving[0].sha) in have || forall u :: u in moving[1..] ==> u.sha != moving[0].sha)
  {
    var rest := moving[1..];
    if AskedOnce(moving, have) {
      forall i, j | 0 <= i < j < |rest| && rest[i].sha == rest[j].sha ensures Str(rest[i].sha) in have {
        assert moving[i + 1].sha == moving[j + 1].sha;
      }
      forall u | u in rest && u.sha == moving[0].sha ensures Str(moving[0].sha) in have {
        var k :| 0 <= k < |rest| && rest[k] == u;
        assert moving[0].sha == moving[k + 1].sha;
      }
    }
  }

  /**
    * A published half with one row to a sha256 keeps to that if and only if no sha256 it does
    * not have is asked for twice: a list that names a row twice publishes it twice.
    */
  lemma PublishedOnceIff(moving: seq<Leaving>, dump: Fields -> Line, pub: Content)
    requires WritesRows(dump) && LandsAsItself(moving) && OncePerSha(RowsOf(pub))
    ensures OncePerSha(RowsOf(Publish(moving, dump)(pub))) <==> AskedOnce(moving, Shas(RowsOf(pub)))
  {
    var have := Shas(RowsOf(pub));
    RowsPublished(moving, dump, pub);
    AddedOnceIff(moving, have);
    OnceConcat(RowsOf(pub), Added(moving, have));
    forall r | r in Added(moving, have) ensures F.Sha(r) !in have {
      var v :| v in moving && Str(v.sha) !in have && v.out == r;
    }
  }

  lemma OnceConcat(a: seq<Fields>, b: seq<Fields>)
    requires OncePerSha(a) && forall r :: r in b ==> F.Sha(r) !in Shas(a)
    ensures OncePerSha(a + b) <==> OncePerSha(b)
  {
    var all := a + b;
    if OncePerSha(all) {
      forall i, j | 0 <= i < j < |b| ensures F.Sha(b[i]) != F.Sha(b[j]) {
        assert F.Sha(all[|a| + i]) != F.Sha(all[|a| + j]);
      }
    }
    if OncePerSha(b) {
      forall i, j | 0 <= i < j < |all| ensures F.Sha(all[i]) != F.Sha(all[j]) {
        if i < |a| && j >= |a| {
          assert b[j - |a|] in b && a[i] in a;
        }
      }
    }
  }
}
