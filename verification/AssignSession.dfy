/**
  * A whole session: accepted exactly when every proposal is sound, some family says
  * more than the rule-set does, and no family of the result is a pile.
  */
module AssignSession {
  import opened Prelude
  import opened JsonValues
  import opened FamilyEvidence
  import opened AssignFamily

  function SeenBefore(props: seq<Proposal>, n: nat): set<string>
    requires n <= |props|
  {
    if n == 0 then {} else SeenBefore(props, n - 1) + ShaSet(props[n - 1])
  }

  ghost predicate AllSound(props: seq<Proposal>, rows: seq<Row>, env: Env, n: nat)
    requires n <= |props|
  {
    n > 0 ==> AllSound(props, rows, env, n - 1) && Sound(props[n - 1], rows, env, SeenBefore(props, n - 1))
  }

  lemma {:induction false} SoundAt(props: seq<Proposal>, rows: seq<Row>, env: Env, n: nat, i: nat)
    requires i < n <= |props| && AllSound(props, rows, env, n)
    ensures Sound(props[i], rows, env, SeenBefore(props, i))
  {
    if i < n - 1 {
      SoundAt(props, rows, env, n - 1, i);
    }
  }

  function SessionOf(props: seq<Proposal>): Option<string> {
    if props == [] then None else Some(props[0].session)
  }

  ghost predicate HoldsNoPile(rows: seq<Row>, session: Option<string>) {
    forall f :: !PileLike(Mine(rows, session, f))
  }

  ghost predicate Acceptable(props: seq<Proposal>, rows: seq<Row>, env: Env) {
    && AllSound(props, rows, env, |props|)
    && !SaysNothing(props, AllMembers(props, rows), Population(rows, env.conditioned), env.key)
    && HoldsNoPile(PostState(props, rows, env), SessionOf(props))
  }

  // ---------------------------------------------------------------- the rows it would leave

  /** Every sha256 listed is that of one row. */
  ghost predicate Lookable(props: seq<Proposal>, rows: seq<Row>) {
    forall i, s :: 0 <= i < |props| && s in props[i].shas ==> |Hits(rows, s)| == 1
  }

  lemma {:induction false} MemberIsTheRow(rows: seq<Row>, shas: seq<string>, r: Row)
    requires r in rows && forall s :: s in shas ==> |Hits(rows, s)| == 1
    ensures (exists m :: m in Members(rows, shas) && Sha(m) == Sha(r)) <==> Sha(r).Str? && Sha(r).s in shas
    ensures forall m :: m in Members(rows, shas) && Sha(m) == Sha(r) ==> m == r
    ensures forall m :: m in Members(rows, shas) ==> m in rows && Sha(m).Str? && Sha(m).s in shas
  {
    if shas != [] {
      MemberIsTheRow(rows, shas[1..], r);
      HitsAreRows(rows, shas[0]);
      assert shas == [shas[0]] + shas[1..];
      var h := Hits(rows, shas[0]);
      assert h == [h[0]] && h[0] in h;
      if Sha(r) == Str(shas[0]) {
        assert r in h;
        assert r in Members(rows, shas);
      }
    }
  }

  method ApplyProposal(replaced: map<Json, Row>, members: seq<Row>, p: Proposal, key: Row -> string, j: Judged)
    returns (after: map<Json, Row>)
    ensures forall s :: s in after <==> s in replaced || exists m :: m in members && Sha(m) == s
    ensures forall s :: s in after ==>
              (exists m :: m in members && Sha(m) == s && after[s] == ApplyToRow(m, p, key(m), j))
              || (s in replaced && after[s] == replaced[s] && forall m :: m in members ==> Sha(m) != s)
  {
    after := replaced;
    for k := 0 to |members|
      invariant forall s :: s in after <==> s in replaced || exists m :: m in members[..k] && Sha(m) == s
      invariant forall s :: s in after ==>
                  (exists m :: m in members[..k] && Sha(m) == s && after[s] == ApplyToRow(m, p, key(m), j))
                  || (s in replaced && after[s] == replaced[s] && forall m :: m in members[..k] ==> Sha(m) != s)
    {
      assert members[..k + 1] == members[..k] + [members[k]];
      after := after[Sha(members[k]) := ApplyToRow(members[k], p, key(members[k]), j)];
    }
    assert members[..|members|] == members;
  }

  /** After the first `n` proposals, the rows replaced are those they own. */
  ghost predicate Replaces(replaced: map<Json, Row>, props: seq<Proposal>, n: nat, rows: seq<Row>, env: Env)
    requires n <= |props|
  {
    forall r :: r in rows ==>
      && (Sha(r) in replaced <==> Owner(props, n, r).Some?)
      && (Sha(r) in replaced ==>
            replaced[Sha(r)] == RowAfter(props, n, AllMembers(props, rows), Population(rows, env.conditioned), env, r))
  }

  lemma ReplacesOneMore(before: map<Json, Row>, after: map<Json, Row>, props: seq<Proposal>, n: nat, rows: seq<Row>, env: Env, j: Judged)
    requires n < |props| && Lookable(props, rows) && Replaces(before, props, n, rows, env)
    requires var members, p := AllMembers(props, rows)[n], props[n];
             && (forall s :: s in after <==> s in before || exists m :: m in members && Sha(m) == s)
             && (forall s :: s in after ==>
                   (exists m :: m in members && Sha(m) == s && after[s] == ApplyToRow(m, p, env.key(m), j))
                   || (s in before && after[s] == before[s] && forall m :: m in members ==> Sha(m) != s))
             && (members != [] ==>
                   j == JudgedOf(FamilyRows(props, AllMembers(props, rows), p.family), Population(rows, env.conditioned), env))
    ensures Replaces(after, props, n + 1, rows, env)
  {
    forall r | r in rows
      ensures Sha(r) in after <==> Owner(props, n + 1, r).Some?
      ensures Sha(r) in after ==>
                after[Sha(r)] == RowAfter(props, n + 1, AllMembers(props, rows), Population(rows, env.conditioned), env, r)
    {
      MemberIsTheRow(rows, props[n].shas, r);
    }
  }

  /** One proposal: its members' rows replaced. */
  method BuildOne(replaced: map<Json, Row>, props: seq<Proposal>, i: nat, rows: seq<Row>, per: seq<seq<Row>>, det: map<string, bool>, env: Env)
    returns (after: map<Json, Row>)
    requires |per| == |props| && i < |props|
    requires JudgedRight(props, per, det, rows, env)
    ensures per == AllMembers(props, rows) && Lookable(props, rows) && Replaces(replaced, props, i, rows, env) ==>
              Replaces(after, props, i + 1, rows, env)
  {
    var p := props[i];
    var j := Judged(p.family in det && det[p.family], env.dispersion(FamilyRows(props, per, p.family)), env.frame, env.now);
    after := ApplyProposal(replaced, per[i], p, env.key, j);
    if per == AllMembers(props, rows) && Lookable(props, rows) && Replaces(replaced, props, i, rows, env) {
      JudgedOne(props, per, det, rows, env, i);
      ReplacesOneMore(replaced, after, props, i, rows, env, j);
    }
  }

  method BuildPost(props: seq<Proposal>, rows: seq<Row>, per: seq<seq<Row>>, det: map<string, bool>, env: Env) returns (post: seq<Row>)
    requires |per| == |props|
    ensures |post| == |rows|
    requires JudgedRight(props, per, det, rows, env)
    ensures per == AllMembers(props, rows) && Lookable(props, rows) ==> post == PostState(props, rows, env)
  {
    ghost var good := per == AllMembers(props, rows) && Lookable(props, rows);
    var replaced: map<Json, Row> := map[];
    for i := 0 to |props|
      invariant good ==> Replaces(replaced, props, i, rows, env)
    {
      replaced := BuildOne(replaced, props, i, rows, per, det, env);
    }
    post := Replaced(replaced, rows);
    if good {
      ReplacedIsPost(replaced, props, rows, env);
    }
  }

  function Replaced(replaced: map<Json, Row>, rows: seq<Row>): (post: seq<Row>)
    ensures |post| == |rows|
    ensures forall k :: 0 <= k < |rows| ==> post[k] == if Sha(rows[k]) in replaced then replaced[Sha(rows[k])] else rows[k]
  {
    seq(|rows|, k requires 0 <= k < |rows| => if Sha(rows[k]) in replaced then replaced[Sha(rows[k])] else rows[k])
  }

  lemma ReplacedIsPost(replaced: map<Json, Row>, props: seq<Proposal>, rows: seq<Row>, env: Env)
    requires Replaces(replaced, props, |props|, rows, env)
    ensures Replaced(replaced, rows) == PostState(props, rows, env)
  {
    forall k | 0 <= k < |rows| ensures Replaced(replaced, rows)[k] == PostState(props, rows, env)[k] {
      assert rows[k] in rows;
    }
  }

  ghost predicate JudgedRight(props: seq<Proposal>, per: seq<seq<Row>>, det: map<string, bool>, rows: seq<Row>, env: Env)
    requires |per| == |props|
  {
    && (forall f :: f in det <==> exists i :: 0 <= i < |props| && props[i].family == f && FamilyRows(props, per, f) != [])
    && forall f :: f in det ==> (det[f] <==> Determined(FamilyRows(props, per, f), Population(rows, env.conditioned), env.key))
  }

  lemma JudgedOne(props: seq<Proposal>, per: seq<seq<Row>>, det: map<string, bool>, rows: seq<Row>, env: Env, i: nat)
    requires |per| == |props| && JudgedRight(props, per, det, rows, env) && i < |props|
    ensures var f := props[i].family;
            per[i] != [] ==>
              (f in det && det[f] <==> Determined(FamilyRows(props, per, f), Population(rows, env.conditioned), env.key))
  {
    MemberOfItsFamily(props, per, i);
  }

  lemma {:induction false} MemberOfItsFamily(props: seq<Proposal>, per: seq<seq<Row>>, i: nat)
    requires |per| == |props| && i < |props|
    ensures forall m :: m in per[i] ==> m in FamilyRows(props, per, props[i].family)
    ensures per[i] != [] ==> FamilyRows(props, per, props[i].family) != []
  {
    if i > 0 {
      MemberOfItsFamily(props[1..], per[1..], i - 1);
    }
  }

  // ---------------------------------------------------------------- validating

  /** Where the checks stand after the first `n` proposals. */
  ghost predicate Checked(props: seq<Proposal>, rows: seq<Row>, env: Env, n: nat,
                          refusals: seq<Refusal>, per: seq<seq<Row>>, named: set<string>)
    requires n <= |props|
  {
    && named == SeenBefore(props, n) && |per| == n
    && (refusals == [] <==> AllSound(props, rows, env, n))
    && (refusals == [] ==> forall i :: 0 <= i < n ==> per[i] == Members(rows, props[i].shas))
  }

  lemma CheckedOneMore(props: seq<Proposal>, rows: seq<Row>, env: Env, n: nat, refusals: seq<Refusal>, per: seq<seq<Row>>,
                       named: set<string>, bad: seq<Refusal>, members: seq<Row>)
    requires n < |props| && Checked(props, rows, env, n, refusals, per, named)
    requires bad == [] <==> Sound(props[n], rows, env, named)
    requires bad == [] ==> members == Members(rows, props[n].shas)
    ensures Checked(props, rows, env, n + 1, refusals + bad, per + [members], named + ShaSet(props[n]))
  {
    assert refusals + bad == [] <==> refusals == [] && bad == [];
    assert AllSound(props, rows, env, n + 1) <==> AllSound(props, rows, env, n) && Sound(props[n], rows, env, SeenBefore(props, n));
    if refusals + bad == [] {
      forall i | 0 <= i < n + 1 ensures (per + [members])[i] == Members(rows, props[i].shas) {
      }
    }
  }

  method CheckAll(props: seq<Proposal>, rows: seq<Row>, env: Env) returns (refusals: seq<Refusal>, per: seq<seq<Row>>)
    ensures |per| == |props|
    ensures refusals == [] <==> AllSound(props, rows, env, |props|)
    ensures refusals == [] ==> per == AllMembers(props, rows)
  {
    refusals, per := [], [];
    var named: set<string> := {};
    for k := 0 to |props|
      invariant Checked(props, rows, env, k, refusals, per, named)
    {
      var bad, members, seen := CheckProposal(props[k], rows, env, named);
      CheckedOneMore(props, rows, env, k, refusals, per, named, bad, members);
      refusals, per, named := refusals + bad, per + [members], seen;
    }
  }

  /** Judges the families, builds the rows the session would leave, and takes their census. */
  method Judge(props: seq<Proposal>, rows: seq<Row>, env: Env, per: seq<seq<Row>>) returns (refusals: seq<Refusal>, post: seq<Row>)
    requires |per| == |props|
    ensures AllSound(props, rows, env, |props|) && per == AllMembers(props, rows) ==>
              post == PostState(props, rows, env) && (refusals == [] <==> Acceptable(props, rows, env))
  {
    var population := Population(rows, env.conditioned);
    var det := JudgeFamilies(props, per, population, env.key);
    var nothing := det != map[] && forall f :: f in det ==> det[f];
    post := BuildPost(props, rows, per, det, env);
    var below := Audit(post, SessionOf(props));
    refusals := (if nothing then [AllDetermined] else []) + seq(|below|, k requires 0 <= k < |below| => Dispersed(below[k]));
    NoneBelow(below);
    JudgedWell(props, rows, env, per, det, post, nothing, below);
  }

  lemma NoneBelow(below: seq<string>)
    ensures seq(|below|, k requires 0 <= k < |below| => Dispersed(below[k])) == [] <==> below == []
  {
  }

  lemma JudgedWell(props: seq<Proposal>, rows: seq<Row>, env: Env, per: seq<seq<Row>>, det: map<string, bool>, post: seq<Row>,
                   nothing: bool, below: seq<string>)
    requires |per| == |props| && JudgedRight(props, per, det, rows, env)
    requires per == AllMembers(props, rows) && Lookable(props, rows) ==> post == PostState(props, rows, env)
    requires nothing <==> det != map[] && forall f :: f in det ==> det[f]
    requires forall f :: f in below <==> PileLike(Mine(post, SessionOf(props), f))
    ensures AllSound(props, rows, env, |props|) && per == AllMembers(props, rows) ==>
              post == PostState(props, rows, env) && (Acceptable(props, rows, env) <==> !nothing && below == [])
  {
    if AllSound(props, rows, env, |props|) && per == AllMembers(props, rows) {
      SoundIsLookable(props, rows, env);
      JudgedNothing(props, per, Population(rows, env.conditioned), env.key, det);
      AcceptedIff(props, rows, env, per, Population(rows, env.conditioned), post, nothing, below);
    }
  }

  lemma AcceptedIff(props: seq<Proposal>, rows: seq<Row>, env: Env, per: seq<seq<Row>>, population: seq<Row>, post: seq<Row>,
                    nothing: bool, below: seq<string>)
    requires AllSound(props, rows, env, |props|) && per == AllMembers(props, rows) && population == Population(rows, env.conditioned)
    requires post == PostState(props, rows, env)
    requires nothing <==> SaysNothing(props, per, population, env.key)
    requires forall f :: f in below <==> PileLike(Mine(post, SessionOf(props), f))
    ensures Acceptable(props, rows, env) <==> !nothing && below == []
  {
    if below != [] {
      assert below[0] in below;
    }
  }

  /** No refusal exactly for an acceptable session; the state judged is the state it would leave. */
  method Validate(props: seq<Proposal>, rows: seq<Row>, env: Env) returns (refusals: seq<Refusal>, post: seq<Row>)
    ensures refusals == [] <==> Acceptable(props, rows, env)
    ensures refusals == [] ==> post == PostState(props, rows, env)
  {
    var per, judged;
    refusals, per := CheckAll(props, rows, env);
    judged, post := Judge(props, rows, env, per);
    refusals := refusals + judged;
  }

  lemma SoundIsLookable(props: seq<Proposal>, rows: seq<Row>, env: Env)
    requires AllSound(props, rows, env, |props|)
    ensures Lookable(props, rows)
  {
    forall i, s | 0 <= i < |props| && s in props[i].shas ensures |Hits(rows, s)| == 1 {
      SoundAt(props, rows, env, |props|, i);
      assert Assignable(rows, s, env.conditioned);
    }
  }

  lemma JudgedNothing(props: seq<Proposal>, per: seq<seq<Row>>, population: seq<Row>, key: Row -> string, det: map<string, bool>)
    requires |per| == |props|
    requires forall f :: f in det <==> exists i :: 0 <= i < |props| && props[i].family == f && FamilyRows(props, per, f) != []
    requires forall f :: f in det ==> (det[f] <==> Determined(FamilyRows(props, per, f), population, key))
    ensures SaysNothing(props, per, population, key) <==> det != map[] && forall f :: f in det ==> det[f]
  {
    if det != map[] {
      var f :| f in det;
      var i :| 0 <= i < |props| && props[i].family == f && FamilyRows(props, per, f) != [];
    }
    forall i | 0 <= i < |props| && FamilyRows(props, per, props[i].family) != [] ensures props[i].family in det {
    }
  }

  /** The index file: the rows are re-read and written under one lock. */
  class Index {
    var rows: seq<Row>

    constructor (rows: seq<Row>)
      ensures this.rows == rows
    {
      this.rows := rows;
    }

    /** All or nothing: a session that is refused leaves the file as it was. */
    method Apply(props: seq<Proposal>, env: Env) returns (refusals: seq<Refusal>)
      modifies this
      ensures refusals == [] <==> Acceptable(props, old(rows), env)
      ensures rows == if refusals == [] then PostState(props, old(rows), env) else old(rows)
    {
      var post;
      refusals, post := Validate(props, rows, env);
      if refusals == [] {
        rows := post;
      }
    }
  }

  // ---------------------------------------------------------------- what an accepted session is

  lemma {:induction false} FamilyRowsAreMembers(props: seq<Proposal>, per: seq<seq<Row>>, f: string)
    requires |per| == |props|
    ensures forall r :: r in FamilyRows(props, per, f) ==> exists i :: 0 <= i < |props| && r in per[i]
  {
    if props != [] {
      FamilyRowsAreMembers(props[1..], per[1..], f);
      forall r | r in FamilyRows(props, per, f) ensures exists i :: 0 <= i < |props| && r in per[i] {
        if r !in per[0] {
          assert r in FamilyRows(props[1..], per[1..], f);
          var i :| 0 <= i < |props| - 1 && r in per[1..][i];
          assert r in per[i + 1];
        }
      }
    }
  }

  lemma {:induction false} MembersInPopulation(rows: seq<Row>, shas: seq<string>, conditioned: set<string>)
    requires forall s :: s in shas ==> Assignable(rows, s, conditioned)
    ensures forall m :: m in Members(rows, shas) ==> m in Population(rows, conditioned)
  {
    if shas != [] {
      assert shas[0] in shas && Assignable(rows, shas[0], conditioned);
      HitsAreRows(rows, shas[0]);
      MembersInPopulation(rows, shas[1..], conditioned);
      var h := Hits(rows, shas[0]);
      assert h == [h[0]] && h[0] in h;
    }
  }

  lemma FamiliesInPopulation(props: seq<Proposal>, rows: seq<Row>, env: Env, f: string)
    requires AllSound(props, rows, env, |props|)
    ensures forall r :: r in FamilyRows(props, AllMembers(props, rows), f) ==> r in Population(rows, env.conditioned)
  {
    FamilyRowsAreMembers(props, AllMembers(props, rows), f);
    forall i | 0 <= i < |props| ensures forall m :: m in AllMembers(props, rows)[i] ==> m in Population(rows, env.conditioned) {
      SoundAt(props, rows, env, |props|, i);
      MembersInPopulation(rows, props[i].shas, env.conditioned);
    }
  }

  /** A sha256 that a sound session lists is that of one row, so a family's row and a row of its sha256 are the same. */
  lemma FamiliesListedByKey(props: seq<Proposal>, rows: seq<Row>, env: Env, f: string)
    requires AllSound(props, rows, env, |props|)
    ensures ListedByKey(FamilyRows(props, AllMembers(props, rows), f), Population(rows, env.conditioned), env.key)
  {
    var family, population := FamilyRows(props, AllMembers(props, rows), f), Population(rows, env.conditioned);
    SoundIsLookable(props, rows, env);
    FamilyRowsAreMembers(props, AllMembers(props, rows), f);
    forall m, p | m in family && p in population && Sha(m) == Sha(p) ensures m == p {
      var i :| 0 <= i < |props| && m in AllMembers(props, rows)[i];
      MemberIsTheRow(rows, props[i].shas, p);
    }
  }

  /**
    * An accepted session with any member names a family that no predicate on the
    * rule-set decides: one that carries something the scanner's output does not.
    */
  lemma AcceptedSaysSomething(props: seq<Proposal>, rows: seq<Row>, env: Env) returns (f: string)
    requires Acceptable(props, rows, env)
    requires exists i :: 0 <= i < |props| && FamilyRows(props, AllMembers(props, rows), props[i].family) != []
    ensures var family := FamilyRows(props, AllMembers(props, rows), f);
            family != [] && forall keys :: !Decides(keys, family, Population(rows, env.conditioned), env.key)
  {
    var per, population := AllMembers(props, rows), Population(rows, env.conditioned);
    var i :| 0 <= i < |props| && FamilyRows(props, per, props[i].family) != []
             && !Determined(FamilyRows(props, per, props[i].family), population, env.key);
    f := props[i].family;
    FamiliesInPopulation(props, rows, env, f);
    FamiliesListedByKey(props, rows, env, f);
    DeterminedIffDecided(FamilyRows(props, per, f), population, env.key);
  }

  /** And one in which the rule-set decides every family is refused. */
  lemma RestatingSessionIsRefused(props: seq<Proposal>, rows: seq<Row>, env: Env)
    requires exists i :: 0 <= i < |props| && FamilyRows(props, AllMembers(props, rows), props[i].family) != []
    requires forall i :: 0 <= i < |props| ==>
               exists keys :: Decides(keys, FamilyRows(props, AllMembers(props, rows), props[i].family),
                                      Population(rows, env.conditioned), env.key)
    ensures !Acceptable(props, rows, env)
  {
    var per, population := AllMembers(props, rows), Population(rows, env.conditioned);
    if Acceptable(props, rows, env) {
      forall i | 0 <= i < |props| ensures Determined(FamilyRows(props, per, props[i].family), population, env.key) {
        FamiliesInPopulation(props, rows, env, props[i].family);
        FamiliesListedByKey(props, rows, env, props[i].family);
        DeterminedIffDecided(FamilyRows(props, per, props[i].family), population, env.key);
      }
    }
  }

  lemma OwnedIsInPopulation(props: seq<Proposal>, rows: seq<Row>, env: Env, r: Row)
    requires AllSound(props, rows, env, |props|) && r in rows && Owner(props, |props|, r).Some?
    ensures InPopulation(r, env.conditioned)
  {
    var i := Owner(props, |props|, r).value;
    SoundAt(props, rows, env, |props|, i);
    assert Assignable(rows, Sha(r).s, env.conditioned);
    HitsAreRows(rows, Sha(r).s);
    var h := Hits(rows, Sha(r).s);
    assert r in h && h == [h[0]];
  }

  /** A written row was unfamilied and reviewable, and only its family and evidence differ; every other row is as it was. */
  lemma WriteTouchesNothingElse(props: seq<Proposal>, rows: seq<Row>, env: Env, k: nat)
    requires Acceptable(props, rows, env) && k < |rows|
    ensures var was, now := rows[k], PostState(props, rows, env)[k];
            && (now != was ==>
                  && InPopulation(was, env.conditioned) && !Truthy(Get(was, "family"))
                  && exists i :: 0 <= i < |props| && Sha(was).Str? && Sha(was).s in props[i].shas && Get(now, "family") == Str(props[i].family))
            && forall key :: key != "family" && key != EVIDENCE_FIELD ==> (key in now <==> key in was) && Get(now, key) == Get(was, key)
  {
    if Owner(props, |props|, rows[k]).Some? {
      OwnedIsInPopulation(props, rows, env, rows[k]);
    }
  }
}
