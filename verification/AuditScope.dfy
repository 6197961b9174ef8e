/** The audit asks of each family what its validation asked, over more rows; when the two answers agree. */
module AuditScope {
  import opened Prelude
  import opened JsonValues
  import opened FamilyEvidence
  import opened AssignFamily
  import opened AssignSession
  import opened FamilyRules

  /** Still without a family, or assigned by some session. */
  predicate InScope(r: Row, conditioned: set<string>) {
    InPopulation(r, conditioned) || Evidenced(r)
  }

  predicate Evidenced(r: Row) {
    Get(r, "verdict") == Str("malicious") && Get(r, "bucket") == Str(POPULATION_BUCKET) && Get(r, EVIDENCE_FIELD).Obj?
  }

  function Scope(rows: seq<Row>, conditioned: set<string>): (scope: seq<Row>)
    ensures forall r :: r in scope <==> r in rows && InScope(r, conditioned)
  {
    if rows == [] then []
    else (if InScope(rows[0], conditioned) then [rows[0]] else []) + Scope(rows[1..], conditioned)
  }

  function Assigned(rows: seq<Row>): (es: seq<Row>)
    ensures forall r :: r in es <==> r in rows && Evidenced(r)
  {
    if rows == [] then [] else (if Evidenced(rows[0]) then [rows[0]] else []) + Assigned(rows[1..])
  }

  lemma {:induction false} MineAreAssigned(rows: seq<Row>, session: Option<string>, f: string)
    ensures forall r :: r in Mine(rows, session, f) <==> r in rows && AssignedIn(r, session, f)
  {
    if rows != [] {
      MineAreAssigned(rows[1..], session, f);
      assert rows == [rows[0]] + rows[1..];
    }
  }

  ghost predicate HasEvidenceRecord(r: Row) {
    HasString(r, "verdict", "malicious") && HasString(r, "bucket", "quarantine/evidence") && "family_evidence" in r && r["family_evidence"].Obj?
  }

  /**
    * The audit's question: every row that is to be reviewed or holds an evidence record, and has
    * the key of a row of the family, has the sha256 of a row of the family.
    */
  lemma AuditAsks(rows: seq<Row>, session: Option<string>, env: Env, f: string)
    ensures Determined(Mine(rows, session, f), Scope(rows, env.conditioned), env.key) <==>
            forall r, p :: r in rows && IsAssigned(r, session, f) && p in rows && (IsReviewable(p, env.conditioned) || HasEvidenceRecord(p))
                           && env.key(p) == env.key(r) ==>
              exists m :: m in rows && IsAssigned(m, session, f) && Sha(m) == Sha(p)
  {
    var family, scope := Mine(rows, session, f), Scope(rows, env.conditioned);
    MineAreAssigned(rows, session, f);
    forall r ensures r in family <==> r in rows && IsAssigned(r, session, f) {
      AssignedIff(r, session, f);
    }
    forall p ensures p in scope <==> p in rows && (IsReviewable(p, env.conditioned) || HasEvidenceRecord(p)) {
      ReviewableIff(p, env.conditioned);
    }
  }

  /** The audit's answer for every family of the session. */
  method AuditDetermined(rows: seq<Row>, session: Option<string>, env: Env) returns (det: map<string, bool>)
    ensures forall f :: f in det <==> exists r :: r in rows && AssignedIn(r, session, f)
    ensures forall f :: f in det ==> (det[f] <==> Determined(Mine(rows, session, f), Scope(rows, env.conditioned), env.key))
  {
    det := map[];
    var left := FamilyNames(rows, session);
    while left != {}
      invariant left <= FamilyNames(rows, session) && det.Keys == FamilyNames(rows, session) - left
      invariant forall f :: f in det ==> (det[f] <==> Determined(Mine(rows, session, f), Scope(rows, env.conditioned), env.key))
      decreases left
    {
      var f :| f in left;
      var yes, touched := RulesetDetermined(Mine(rows, session, f), Scope(rows, env.conditioned), env.key);
      left, det := left - {f}, det[f := yes];
    }
  }

  // ---------------------------------------------------------------- only keys and hashes matter

  ghost function Pairs(rows: seq<Row>, key: Row -> string): set<(string, Json)> {
    set r | r in rows :: (key(r), Sha(r))
  }

  ghost predicate PairsDetermined(family: set<(string, Json)>, population: set<(string, Json)>) {
    forall x, y :: x in family && y in population && x.0 == y.0 ==> exists z :: z in family && z.1 == y.1
  }

  lemma DeterminedByPairs(family: seq<Row>, population: seq<Row>, key: Row -> string)
    ensures Determined(family, population, key) <==> PairsDetermined(Pairs(family, key), Pairs(population, key))
  {
    var f, p := Pairs(family, key), Pairs(population, key);
    if Determined(family, population, key) {
      forall x, y | x in f && y in p && x.0 == y.0 ensures exists z :: z in f && z.1 == y.1 {
        var r :| r in family && (key(r), Sha(r)) == x;
        var q :| q in population && (key(q), Sha(q)) == y;
        var m :| m in family && Sha(m) == Sha(q);
        assert (key(m), Sha(m)) in f;
      }
    }
    if PairsDetermined(f, p) {
      forall r, q | r in family && q in population && key(q) == key(r) ensures exists m :: m in family && Sha(m) == Sha(q) {
        assert (key(r), Sha(r)) in f && (key(q), Sha(q)) in p;
        var z :| z in f && z.1 == Sha(q);
        var m :| m in family && (key(m), Sha(m)) == z;
      }
    }
  }

  /** Over more rows, a family stays determined if and only if no row outside it among them shares a key with it. */
  lemma OverMoreRowsIff(family: seq<Row>, population: seq<Row>, more: seq<Row>, key: Row -> string)
    ensures Determined(family, population + more, key) <==> Determined(family, population, key) && Determined(family, more, key)
  {
    if Determined(family, population + more, key) {
      forall r, p | r in family && (p in population || p in more) && key(p) == key(r)
        ensures exists f :: f in family && Sha(f) == Sha(p)
      {
        assert p in population + more;
      }
    }
  }

  // ---------------------------------------------------------------- the rows a session leaves

  /** Rows are clustered by what the scanner is to find in them, which a session does not write. */
  ghost predicate KeyIgnoresFamily(key: Row -> string) {
    forall r, p, cluster, j :: key(ApplyToRow(r, p, cluster, j)) == key(r)
  }

  /** One session's proposals, under an identifier and family names of its own. */
  ghost predicate NewSession(props: seq<Proposal>, rows: seq<Row>, session: string) {
    && (forall p :: p in props ==> p.session == session && p.family != "")
    && forall r, f :: r in rows ==> !AssignedIn(r, Some(session), f)
  }

  ghost function After(props: seq<Proposal>, rows: seq<Row>, env: Env, r: Row): Row {
    RowAfter(props, |props|, AllMembers(props, rows), Population(rows, env.conditioned), env, r)
  }

  lemma AfterIsOf(props: seq<Proposal>, rows: seq<Row>, env: Env, r: Row)
    requires KeyIgnoresFamily(env.key)
    ensures var now := After(props, rows, env, r); env.key(now) == env.key(r) && Sha(now) == Sha(r)
    ensures var now := After(props, rows, env, r);
            Get(now, "verdict") == Get(r, "verdict") && Get(now, "bucket") == Get(r, "bucket")
  {
  }

  lemma PostRows(props: seq<Proposal>, rows: seq<Row>, env: Env)
    ensures forall r :: r in rows ==> After(props, rows, env, r) in PostState(props, rows, env)
    ensures forall x :: x in PostState(props, rows, env) ==> exists r :: r in rows && x == After(props, rows, env, r)
  {
    var post := PostState(props, rows, env);
    forall r | r in rows ensures After(props, rows, env, r) in post {
      var k :| 0 <= k < |rows| && rows[k] == r;
      assert post[k] == After(props, rows, env, r);
    }
    forall x | x in post ensures exists r :: r in rows && x == After(props, rows, env, r) {
      var k :| 0 <= k < |post| && post[k] == x;
      assert rows[k] in rows;
    }
  }

  /** The audit's scope after the session: the rows it was validated over, and those assigned before. */
  lemma ScopeAfter(props: seq<Proposal>, rows: seq<Row>, env: Env)
    requires AllSound(props, rows, env, |props|) && KeyIgnoresFamily(env.key)
    ensures Pairs(Scope(PostState(props, rows, env), env.conditioned), env.key) == Pairs(Population(rows, env.conditioned) + Assigned(rows), env.key)
  {
    var scope, before := Scope(PostState(props, rows, env), env.conditioned), Population(rows, env.conditioned) + Assigned(rows);
    PostRows(props, rows, env);
    forall x | x in scope ensures (env.key(x), Sha(x)) in Pairs(before, env.key) {
      var r :| r in rows && x == After(props, rows, env, r);
      AfterIsOf(props, rows, env, r);
      if Owner(props, |props|, r).Some? {
        OwnedIsInPopulation(props, rows, env, r);
      }
      assert r in before;
    }
    forall r | r in before ensures (env.key(r), Sha(r)) in Pairs(scope, env.key) {
      AfterIsOf(props, rows, env, r);
      assert After(props, rows, env, r) in scope;
    }
  }

  // ---------------------------------------------------------------- the families of a session

  lemma {:induction false} FamilyRowsOf(props: seq<Proposal>, per: seq<seq<Row>>, f: string, m: Row) returns (i: nat)
    requires |per| == |props| && m in FamilyRows(props, per, f)
    ensures i < |props| && props[i].family == f && m in per[i]
  {
    if props[0].family == f && m in per[0] {
      i := 0;
    } else {
      i := FamilyRowsOf(props[1..], per[1..], f, m);
      i := i + 1;
    }
  }

  lemma {:induction false} SeenHas(props: seq<Proposal>, n: nat, j: nat, s: string)
    requires j < n <= |props| && s in props[j].shas
    ensures s in SeenBefore(props, n)
  {
    if j < n - 1 {
      SeenHas(props, n - 1, j, s);
    }
  }

  /** A sound session lists a sha256 in one proposal. */
  lemma ListedOnce(props: seq<Proposal>, rows: seq<Row>, env: Env, i: nat, j: nat, s: string)
    requires AllSound(props, rows, env, |props|) && i < |props| && j < |props| && s in props[i].shas && s in props[j].shas
    ensures i == j
  {
    if i != j {
      var a, b := if i < j then i else j, if i < j then j else i;
      SoundAt(props, rows, env, |props|, b);
      SeenHas(props, b, a, s);
      assert false;
    }
  }

  /** What the audit finds assigned to a family are the rows it was validated with. */
  lemma FamilyAfter(props: seq<Proposal>, rows: seq<Row>, env: Env, session: string, f: string)
    requires AllSound(props, rows, env, |props|) && KeyIgnoresFamily(env.key) && NewSession(props, rows, session)
    ensures Pairs(Mine(PostState(props, rows, env), Some(session), f), env.key) == Pairs(FamilyRows(props, AllMembers(props, rows), f), env.key)
  {
    var mine, members := Mine(PostState(props, rows, env), Some(session), f), FamilyRows(props, AllMembers(props, rows), f);
    PostRows(props, rows, env);
    MineAreAssigned(PostState(props, rows, env), Some(session), f);
    forall x | x in mine ensures (env.key(x), Sha(x)) in Pairs(members, env.key) {
      var r :| r in rows && x == After(props, rows, env, r);
      AfterIsOf(props, rows, env, r);
      AssignedIsMember(props, rows, env, session, f, r);
    }
    forall m | m in members ensures (env.key(m), Sha(m)) in Pairs(mine, env.key) {
      MemberIsAssigned(props, rows, env, session, f, m);
      AfterIsOf(props, rows, env, m);
      assert After(props, rows, env, m) in mine;
    }
  }

  lemma AssignedIsMember(props: seq<Proposal>, rows: seq<Row>, env: Env, session: string, f: string, r: Row)
    requires AllSound(props, rows, env, |props|) && NewSession(props, rows, session) && r in rows
    requires AssignedIn(After(props, rows, env, r), Some(session), f)
    ensures r in FamilyRows(props, AllMembers(props, rows), f)
  {
    var i := Owner(props, |props|, r).value;
    SoundIsLookable(props, rows, env);
    MemberIsTheRow(rows, props[i].shas, r);
    MemberOfItsFamily(props, AllMembers(props, rows), i);
  }

  lemma WrittenIsAssigned(r: Row, p: Proposal, cluster: string, j: Judged)
    requires Get(r, "verdict") == Str("malicious") && p.family != ""
    ensures AssignedIn(ApplyToRow(r, p, cluster, j), Some(p.session), p.family)
  {
  }

  lemma MemberIsAssigned(props: seq<Proposal>, rows: seq<Row>, env: Env, session: string, f: string, m: Row)
    requires AllSound(props, rows, env, |props|) && NewSession(props, rows, session)
    requires m in FamilyRows(props, AllMembers(props, rows), f)
    ensures m in rows && AssignedIn(After(props, rows, env, m), Some(session), f)
  {
    var per, population := AllMembers(props, rows), Population(rows, env.conditioned);
    FamiliesInPopulation(props, rows, env, f);
    var i := FamilyRowsOf(props, per, f, m);
    SoundIsLookable(props, rows, env);
    MemberIsTheRow(rows, props[i].shas, m);
    ListedOnce(props, rows, env, i, Owner(props, |props|, m).value, Sha(m).s);
    assert props[i] in props;
    WrittenIsAssigned(m, props[i], env.key(m), JudgedOf(FamilyRows(props, per, f), population, env));
  }

  /**
    * The audit of a session just written answers as its validation did if and only if no row
    * that an earlier session assigned shares a key with a family that was determined, unless
    * under the sha256 of one of its rows. It never answers yes where the validation answered no.
    */
  lemma AuditAgreesIff(props: seq<Proposal>, rows: seq<Row>, env: Env, session: string, f: string)
    requires AllSound(props, rows, env, |props|) && KeyIgnoresFamily(env.key) && NewSession(props, rows, session)
    ensures var post, family := PostState(props, rows, env), FamilyRows(props, AllMembers(props, rows), f);
            Determined(Mine(post, Some(session), f), Scope(post, env.conditioned), env.key) <==>
            && Determined(family, Population(rows, env.conditioned), env.key)
            && forall r, e :: r in family && e in rows && Evidenced(e) && env.key(e) == env.key(r) ==>
                 exists m :: m in family && Sha(m) == Sha(e)
  {
    var family, population := FamilyRows(props, AllMembers(props, rows), f), Population(rows, env.conditioned);
    var post := PostState(props, rows, env);
    FamilyAfter(props, rows, env, session, f);
    ScopeAfter(props, rows, env);
    DeterminedByPairs(Mine(post, Some(session), f), Scope(post, env.conditioned), env.key);
    DeterminedByPairs(family, population + Assigned(rows), env.key);
    OverMoreRowsIff(family, population, Assigned(rows), env.key);
  }
}
