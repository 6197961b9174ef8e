/**
  * Validating a session of family proposals against the state it would leave, and
  * writing it: what a session must be to be written, and all that a write changes.
  */
module AssignFamily {
  import opened Prelude
  import opened JsonValues
  import opened FamilyEvidence
  import opened Utf8Order

  const EVIDENCE_FIELD := "family_evidence"
  const POPULATION_BUCKET := "quarantine/evidence"

  datatype Proposal = Proposal(family: string, shas: seq<string>, basis: string, markers: seq<string>,
                               session: string, decidedBy: string, decidedAt: string, reviewSeconds: Json)

  /**
    * What is decided elsewhere: cluster keys, sample bytes, conditioned reasons, refused wording,
    * how a family's dispersion is recorded, the sampling frame of the pool; and the clock.
    */
  datatype Env = Env(key: Row -> string, store: Store, conditioned: set<string>, refusesText: Proposal -> bool,
                     dispersion: seq<Row> -> Json, frame: Json, now: string)

  const WRITER := "corpus/assign-family.py"

  datatype Refusal =
    | Wording
    | Repeated(sha: string)
    | NoRow(sha: string)
    | Ambiguous(sha: string)
    | NotReviewable(sha: string)
    | Marker(problem: MarkerProblem)
    | AllDetermined
    | Dispersed(family: string)

  function ShaSet(p: Proposal): set<string> {
    set s | s in p.shas
  }

  // ---------------------------------------------------------------- rows

  predicate InPopulation(r: Row, conditioned: set<string>) {
    && Get(r, "verdict") == Str("malicious") && Get(r, "bucket") == Str(POPULATION_BUCKET)
    && !(Get(r, "reason").Str? && Get(r, "reason").s in conditioned) && !Truthy(Get(r, "family"))
  }

  function Population(rows: seq<Row>, conditioned: set<string>): (p: seq<Row>)
    ensures forall r :: r in p <==> r in rows && InPopulation(r, conditioned)
  {
    if rows == [] then []
    else (if InPopulation(rows[0], conditioned) then [rows[0]] else []) + Population(rows[1..], conditioned)
  }

  function Hits(rows: seq<Row>, sha: string): seq<Row> {
    if rows == [] then [] else (if Sha(rows[0]) == Str(sha) then [rows[0]] else []) + Hits(rows[1..], sha)
  }

  predicate Assignable(rows: seq<Row>, sha: string, conditioned: set<string>) {
    |Hits(rows, sha)| == 1 && InPopulation(Hits(rows, sha)[0], conditioned)
  }

  function Member(rows: seq<Row>, sha: string): seq<Row> {
    if |Hits(rows, sha)| == 1 then Hits(rows, sha) else []
  }

  function Members(rows: seq<Row>, shas: seq<string>): seq<Row> {
    if shas == [] then [] else Member(rows, shas[0]) + Members(rows, shas[1..])
  }

  lemma {:induction false} MembersSnoc(rows: seq<Row>, shas: seq<string>, s: string)
    ensures Members(rows, shas + [s]) == Members(rows, shas) + Member(rows, s)
  {
    if shas == [] {
      assert shas + [s] == [s] && [s][1..] == [];
      assert Members(rows, []) == [];
      assert Member(rows, s) + [] == [] + Member(rows, s);
    } else {
      assert (shas + [s])[1..] == shas[1..] + [s];
      MembersSnoc(rows, shas[1..], s);
      ConcatAssociates(Member(rows, shas[0]), Members(rows, shas[1..]), Member(rows, s));
    }
  }

  lemma {:induction false} HitsAreRows(rows: seq<Row>, sha: string)
    ensures forall r :: r in Hits(rows, sha) <==> r in rows && Sha(r) == Str(sha)
  {
    if rows != [] {
      HitsAreRows(rows[1..], sha);
      assert rows == [rows[0]] + rows[1..];
    }
  }

  // ---------------------------------------------------------------- one proposal

  predicate NoRepeats(shas: seq<string>, seen: set<string>) {
    && (forall i :: 0 <= i < |shas| ==> shas[i] !in seen)
    && forall i, j :: 0 <= i < j < |shas| ==> shas[i] != shas[j]
  }

  /** Nothing is wrong with the proposal itself, given what earlier ones have named. */
  ghost predicate Sound(p: Proposal, rows: seq<Row>, env: Env, seen: set<string>) {
    && !env.refusesText(p) && NoRepeats(p.shas, seen)
    && (forall s :: s in p.shas ==> Assignable(rows, s, env.conditioned))
    && (Members(rows, p.shas) == [] || MarkersPass(Members(rows, p.shas), p.markers, env.store))
  }

  /** One member looked up: what is wrong with it, if anything. */
  method LookUp(s: string, rows: seq<Row>, conditioned: set<string>) returns (bad: seq<Refusal>, hit: seq<Row>)
    ensures bad == [] <==> Assignable(rows, s, conditioned)
    ensures bad == [] ==> hit == Member(rows, s)
  {
    var hits := Hits(rows, s);
    bad, hit := [], [];
    if hits == [] {
      bad := [NoRow(s)];
    } else if |hits| > 1 {
      bad := [Ambiguous(s)];
    } else if !InPopulation(hits[0], conditioned) {
      bad := [NotReviewable(s)];
    } else {
      hit := hits;
    }
  }

  method CollectMembers(p: Proposal, rows: seq<Row>, env: Env, named: set<string>)
    returns (bad: seq<Refusal>, members: seq<Row>, seen: set<string>)
    ensures seen == named + set s | s in p.shas
    ensures bad == [] <==> NoRepeats(p.shas, named) && forall s :: s in p.shas ==> Assignable(rows, s, env.conditioned)
    ensures bad == [] ==> members == Members(rows, p.shas)
  {
    bad, members, seen := [], [], named;
    for k := 0 to |p.shas|
      invariant seen == named + set s | s in p.shas[..k]
      invariant bad == [] <==> NoRepeats(p.shas[..k], named) && forall s :: s in p.shas[..k] ==> Assignable(rows, s, env.conditioned)
      invariant bad == [] ==> members == Members(rows, p.shas[..k])
    {
      var s := p.shas[k];
      assert p.shas[..k + 1] == p.shas[..k] + [s];
      MembersSnoc(rows, p.shas[..k], s);
      NextName(p.shas, k, named);
      if s in seen {
        bad := bad + [Repeated(s)];
      } else {
        seen := seen + {s};
        var wrong, hit := LookUp(s, rows, env.conditioned);
        bad, members := bad + wrong, members + hit;
      }
    }
    assert p.shas[..|p.shas|] == p.shas;
  }

  lemma NextName(shas: seq<string>, k: nat, named: set<string>)
    requires k < |shas|
    ensures NoRepeats(shas[..k + 1], named) <==> NoRepeats(shas[..k], named) && shas[k] !in named + set s | s in shas[..k]
  {
    assert shas[..k + 1] == shas[..k] + [shas[k]];
    if shas[k] in shas[..k] {
      var i :| 0 <= i < k && shas[..k][i] == shas[k];
      assert shas[..k + 1][i] == shas[..k + 1][k];
    }
    if NoRepeats(shas[..k + 1], named) {
      forall i | 0 <= i < k ensures shas[..k][i] !in named && shas[..k][i] == shas[..k + 1][i] {
      }
    }
  }

  method CheckProposal(p: Proposal, rows: seq<Row>, env: Env, named: set<string>)
    returns (bad: seq<Refusal>, members: seq<Row>, seen: set<string>)
    ensures seen == named + ShaSet(p)
    ensures bad == [] <==> Sound(p, rows, env, named)
    ensures bad == [] ==> members == Members(rows, p.shas)
  {
    bad, members, seen := CollectMembers(p, rows, env, named);
    ghost var collected := bad;
    if env.refusesText(p) {
      bad := bad + [Wording];
    }
    if members != [] {
      var problems := VerifyMarkers(members, p.markers, env.store);
      if problems != [] {
        bad := bad + [Marker(problems[0])];
      }
    }
  }

  // ---------------------------------------------------------------- families of a session

  /** The members of every proposal that names the family. */
  function FamilyRows(props: seq<Proposal>, per: seq<seq<Row>>, f: string): seq<Row>
    requires |per| == |props|
  {
    if props == [] then [] else (if props[0].family == f then per[0] else []) + FamilyRows(props[1..], per[1..], f)
  }

  function AllMembers(props: seq<Proposal>, rows: seq<Row>): (per: seq<seq<Row>>)
    ensures |per| == |props| && forall i :: 0 <= i < |per| ==> per[i] == Members(rows, props[i].shas)
  {
    seq(|props|, i requires 0 <= i < |props| => Members(rows, props[i].shas))
  }

  /** Some family has members, and every one that has is a function of the rule-set. */
  ghost predicate SaysNothing(props: seq<Proposal>, per: seq<seq<Row>>, population: seq<Row>, key: Row -> string)
    requires |per| == |props|
  {
    && (exists i :: 0 <= i < |props| && FamilyRows(props, per, props[i].family) != [])
    && forall i :: 0 <= i < |props| && FamilyRows(props, per, props[i].family) != [] ==>
         Determined(FamilyRows(props, per, props[i].family), population, key)
  }

  /** The answer for every family named, judged on the union of its proposals. */
  method JudgeFamilies(props: seq<Proposal>, per: seq<seq<Row>>, population: seq<Row>, key: Row -> string)
    returns (det: map<string, bool>)
    requires |per| == |props|
    ensures forall f :: f in det <==> exists i :: 0 <= i < |props| && props[i].family == f && FamilyRows(props, per, f) != []
    ensures forall f :: f in det ==> (det[f] <==> Determined(FamilyRows(props, per, f), population, key))
  {
    det := map[];
    for k := 0 to |props|
      invariant forall f :: f in det <==> exists i :: 0 <= i < k && props[i].family == f && FamilyRows(props, per, f) != []
      invariant forall f :: f in det ==> (det[f] <==> Determined(FamilyRows(props, per, f), population, key))
    {
      var f := props[k].family;
      var members := FamilyRows(props, per, f);
      if members != [] {
        var yes, touched := RulesetDetermined(members, population, key);
        det := det[f := yes];
      }
    }
  }

  // ---------------------------------------------------------------- the write

  function Inserted(m: string, sorted: seq<string>): seq<string> {
    if sorted == [] || !Less(Codes(sorted[0]), Codes(m)) then [m] + sorted else [sorted[0]] + Inserted(m, sorted[1..])
  }

  function Sorted(ms: seq<string>): seq<string> {
    if ms == [] then [] else Inserted(ms[0], Sorted(ms[1..]))
  }

  predicate InOrder(ms: seq<string>) {
    forall i :: 0 < i < |ms| ==> !Less(Codes(ms[i]), Codes(ms[i - 1]))
  }

  lemma {:induction false} NotBothLess(a: seq<int>, b: seq<int>)
    requires Less(a, b)
    ensures !Less(b, a)
    decreases |a|
  {
    if a != [] && a[0] == b[0] {
      NotBothLess(a[1..], b[1..]);
    }
  }

  lemma {:induction false} InsertedIsSorted(m: string, sorted: seq<string>)
    requires InOrder(sorted)
    ensures InOrder(Inserted(m, sorted)) && multiset(Inserted(m, sorted)) == multiset(sorted) + multiset{m}
  {
    if sorted != [] && Less(Codes(sorted[0]), Codes(m)) {
      var rest := sorted[1..];
      assert sorted == [sorted[0]] + rest;
      InsertedIsSorted(m, rest);
      NotBothLess(Codes(sorted[0]), Codes(m));
      assert Inserted(m, rest)[0] == m || (rest != [] && Inserted(m, rest)[0] == rest[0]);
    }
  }

  /** The markers a row records are those of the proposal, repeats and all, in code point order. */
  lemma {:induction false} SortedMarkers(ms: seq<string>)
    ensures InOrder(Sorted(ms)) && multiset(Sorted(ms)) == multiset(ms)
  {
    if ms != [] {
      SortedMarkers(ms[1..]);
      InsertedIsSorted(ms[0], Sorted(ms[1..]));
      assert ms == [ms[0]] + ms[1..];
    }
  }

  function Strs(ms: seq<string>): (r: seq<Json>)
    ensures |r| == |ms| && forall i :: 0 <= i < |ms| ==> r[i] == Str(ms[i])
  {
    seq(|ms|, i requires 0 <= i < |ms| => Str(ms[i]))
  }

  /** What a session found out about a family, to be recorded on each of its rows. */
  datatype Judged = Judged(determined: bool, dispersion: Json, frame: Json, now: string)

  function EvidenceOf(p: Proposal, cluster: string, j: Judged): Json {
    Obj(map["assigned_by" := Str(WRITER), "session" := Str(p.session), "decided_by" := Str(p.decidedBy),
            "decided_at" := Str(p.decidedAt), "recorded_at" := Str(j.now), "basis" := Str(p.basis),
            "markers" := Arr(Strs(Sorted(p.markers))),
            "review_unit" := Obj(map["kind" := Str("expect.must_detect"), "key" := Str(cluster)]),
            "ruleset_determined" := Bool(j.determined), "dispersion" := j.dispersion, "sampling_frame" := j.frame,
            "review_seconds" := p.reviewSeconds])
  }

  /** The row with the family and its evidence, and nothing else of it changed. */
  function ApplyToRow(r: Row, p: Proposal, cluster: string, j: Judged): (out: Row)
    ensures forall k :: k != "family" && k != EVIDENCE_FIELD ==> (k in out <==> k in r) && Get(out, k) == Get(r, k)
    ensures Get(out, "family") == Str(p.family) && Get(out, EVIDENCE_FIELD) == EvidenceOf(p, cluster, j)
  {
    r["family" := Str(p.family)][EVIDENCE_FIELD := EvidenceOf(p, cluster, j)]
  }

  ghost function JudgedOf(family: seq<Row>, population: seq<Row>, env: Env): Judged {
    Judged(Determined(family, population, env.key), env.dispersion(family), env.frame, env.now)
  }

  /** The proposal a row is written under: the last one that lists it. */
  function Owner(props: seq<Proposal>, n: nat, r: Row): (o: Option<nat>)
    requires n <= |props|
    ensures o.Some? ==> o.value < n && Sha(r).Str? && Sha(r).s in props[o.value].shas
    ensures o.None? ==> forall i :: 0 <= i < n ==> !(Sha(r).Str? && Sha(r).s in props[i].shas)
  {
    if n == 0 then None else if Sha(r).Str? && Sha(r).s in props[n - 1].shas then Some(n - 1) else Owner(props, n - 1, r)
  }

  ghost function RowAfter(props: seq<Proposal>, n: nat, per: seq<seq<Row>>, population: seq<Row>, env: Env, r: Row): Row
    requires |per| == |props| && n <= |props|
  {
    match Owner(props, n, r)
    case None => r
    case Some(i) =>
      ApplyToRow(r, props[i], env.key(r), JudgedOf(FamilyRows(props, per, props[i].family), population, env))
  }

  /** The rows as the session would leave them. */
  ghost function PostState(props: seq<Proposal>, rows: seq<Row>, env: Env): (post: seq<Row>)
    ensures |post| == |rows|
  {
    var per, population := AllMembers(props, rows), Population(rows, env.conditioned);
    seq(|rows|, k requires 0 <= k < |rows| => RowAfter(props, |props|, per, population, env, rows[k]))
  }

  // ---------------------------------------------------------------- the census of the result

  predicate AssignedIn(r: Row, session: Option<string>, f: string) {
    && Get(r, "verdict") == Str("malicious") && Get(r, EVIDENCE_FIELD).Obj?
    && (session.Some? ==> Get(Get(r, EVIDENCE_FIELD).fields, "session") == Str(session.value))
    && Get(r, "family") == Str(f) && f != ""
  }

  function Mine(rows: seq<Row>, session: Option<string>, f: string): seq<Row> {
    if rows == [] then [] else (if AssignedIn(rows[0], session, f) then [rows[0]] else []) + Mine(rows[1..], session, f)
  }

  method IsDispersed(rows: seq<Row>) returns (yes: bool)
    ensures yes <==> PileLike(rows)
  {
    var d := DispersionDetail(rows);
    yes := d.detected > 0 && BelowFloor(d.top, d.detected);
    if d.detected > 0 {
      forall top: nat | IsTop(Detected(rows), top) ensures top == d.top {
      }
    }
  }

  function FamilyNames(rows: seq<Row>, session: Option<string>): set<string> {
    set r | r in rows && Get(r, "family").Str? && AssignedIn(r, session, Get(r, "family").s) :: Get(r, "family").s
  }

  lemma {:induction false} UnnamedHasNoRows(rows: seq<Row>, session: Option<string>, f: string)
    ensures Mine(rows, session, f) != [] ==> f in FamilyNames(rows, session)
  {
    if rows != [] {
      UnnamedHasNoRows(rows[1..], session, f);
      assert rows == [rows[0]] + rows[1..];
    }
  }

  /** The families of the session that are dispersed like a pile. */
  method Audit(rows: seq<Row>, session: Option<string>) returns (below: seq<string>)
    ensures forall f :: f in below <==> PileLike(Mine(rows, session, f))
  {
    below := [];
    var left := FamilyNames(rows, session);
    while left != {}
      invariant left <= FamilyNames(rows, session)
      invariant forall f :: f in below <==> f in FamilyNames(rows, session) && f !in left && PileLike(Mine(rows, session, f))
      decreases left
    {
      var f :| f in left;
      left := left - {f};
      var yes := IsDispersed(Mine(rows, session, f));
      if yes {
        below := below + [f];
      }
    }
    forall f | PileLike(Mine(rows, session, f)) ensures f in FamilyNames(rows, session) {
      UnnamedHasNoRows(rows, session, f);
    }
  }
}
