/** When a session of family proposals is accepted and what its write leaves, read off the proposals and the rows. */
module SessionRules {
  import opened AssignFamily
  import opened AssignSession
  import opened FamilyEvidence
  import opened FamilyRules
  import opened JsonValues
  import opened Prelude
  import opened Utf8Order

  // ---------------------------------------------------------------- what is listed

  /** The rows with these sha256, one for each. */
  ghost predicate AreRows(ms: seq<Row>, shas: seq<string>, rows: seq<Row>) {
    |ms| == |shas| && forall a :: 0 <= a < |shas| ==> exists k :: IsTheRow(rows, shas[a], k) && ms[a] == rows[k]
  }

  /** What the proposals of the family list, one after the other. */
  ghost function Listing(props: seq<Proposal>, f: string): seq<string> {
    if props == [] then [] else (if props[0].family == f then props[0].shas else []) + Listing(props[1..], f)
  }

  ghost predicate Lists(props: seq<Proposal>, i: int, r: Row) {
    0 <= i < |props| && exists s :: s in props[i].shas && HasString(r, "sha256", s)
  }

  ghost predicate ListedUnder(props: seq<Proposal>, f: string, r: Row) {
    exists i :: Lists(props, i, r) && props[i].family == f
  }

  /** No sha256 stands in two places of the first `n` lists. */
  ghost predicate NamedOnce(props: seq<Proposal>, n: nat)
    requires n <= |props|
  {
    forall i, a, j, b :: 0 <= i < n && 0 <= j < n && SameName(props, i, a, j, b) ==> i == j && a == b
  }

  ghost predicate SameName(props: seq<Proposal>, i: int, a: int, j: int, b: int)
    requires 0 <= i < |props| && 0 <= j < |props|
  {
    0 <= a < |props[i].shas| && 0 <= b < |props[j].shas| && props[i].shas[a] == props[j].shas[b]
  }

  /** Every sha256 the proposal lists is that of one row, and that row is there to be reviewed. */
  ghost predicate AllReviewable(p: Proposal, rows: seq<Row>, conditioned: set<string>) {
    forall s :: s in p.shas ==> exists k :: IsTheRow(rows, s, k) && IsReviewable(rows[k], conditioned)
  }

  ghost predicate HasItsEvidence(p: Proposal, rows: seq<Row>, store: Store) {
    p.shas == [] || exists ms :: AreRows(ms, p.shas, rows) && HasEvidence(ms, p.markers, store)
  }

  ghost predicate IsSound(p: Proposal, rows: seq<Row>, env: Env) {
    !env.refusesText(p) && AllReviewable(p, rows, env.conditioned) && HasItsEvidence(p, rows, env.store)
  }

  /** Every row to be reviewed that has the key of a listed row is listed under that family too. */
  ghost predicate IsDetermined(props: seq<Proposal>, rows: seq<Row>, env: Env, f: string) {
    forall r, p :: r in rows && ListedUnder(props, f, r) && p in rows && IsReviewable(p, env.conditioned) && env.key(p) == env.key(r)
      ==> ListedUnder(props, f, p)
  }

  ghost function OfSession(props: seq<Proposal>): Option<string> {
    if props == [] then None else Some(props[0].session)
  }

  ghost predicate NoneIsPile(rows: seq<Row>, session: Option<string>) {
    forall f :: !IsPile(rows, session, f)
  }

  ghost predicate AllAreSound(props: seq<Proposal>, rows: seq<Row>, env: Env, n: nat)
    requires n <= |props|
  {
    forall i :: 0 <= i < n ==> IsSound(props[i], rows, env)
  }

  /** Some family has rows and is not determined, or none has any. */
  ghost predicate SaysSomething(props: seq<Proposal>, rows: seq<Row>, env: Env) {
    || (forall i :: 0 <= i < |props| ==> props[i].shas == [])
    || exists i :: 0 <= i < |props| && props[i].shas != [] && !IsDetermined(props, rows, env, props[i].family)
  }

  /**
    * Each proposal is sound, no sha256 is named twice, some family with rows is not determined
    * unless there is none, and the rows it would leave hold no pile.
    */
  ghost predicate IsAccepted(props: seq<Proposal>, rows: seq<Row>, env: Env, after: seq<Row>) {
    && AllAreSound(props, rows, env, |props|) && NamedOnce(props, |props|)
    && SaysSomething(props, rows, env)
    && NoneIsPile(after, OfSession(props))
  }

  // ---------------------------------------------------------------- sound proposals

  lemma ReviewableRowIff(rows: seq<Row>, s: string, conditioned: set<string>)
    ensures Assignable(rows, s, conditioned) <==> exists k :: IsTheRow(rows, s, k) && IsReviewable(rows[k], conditioned)
  {
    HitsAt(rows, s);
    if k :| IsTheRow(rows, s, k) {
      ReviewableIff(rows[k], conditioned);
      forall j | IsTheRow(rows, s, j) ensures j == k {
      }
    }
  }

  lemma {:induction false} MembersAreRows(rows: seq<Row>, shas: seq<string>)
    requires forall s :: s in shas ==> exists k :: IsTheRow(rows, s, k)
    ensures AreRows(Members(rows, shas), shas, rows)
  {
    if shas != [] {
      var rest := shas[1..];
      assert shas[0] in shas;
      forall s | s in rest ensures exists k :: IsTheRow(rows, s, k) {
        assert s in shas;
      }
      MembersAreRows(rows, rest);
      HitsAt(rows, shas[0]);
      var k :| IsTheRow(rows, shas[0], k);
      FirstRow(rows, shas, k, Members(rows, rest));
    }
  }

  lemma FirstRow(rows: seq<Row>, shas: seq<string>, k: int, ms: seq<Row>)
    requires shas != [] && IsTheRow(rows, shas[0], k) && AreRows(ms, shas[1..], rows)
    ensures AreRows([rows[k]] + ms, shas, rows)
  {
    forall a | 0 <= a < |shas| ensures exists j :: IsTheRow(rows, shas[a], j) && ([rows[k]] + ms)[a] == rows[j] {
      if a > 0 {
        assert shas[a] == shas[1..][a - 1];
      }
    }
  }

  lemma RowsAreTheSame(ms: seq<Row>, other: seq<Row>, shas: seq<string>, rows: seq<Row>)
    requires AreRows(ms, shas, rows) && AreRows(other, shas, rows)
    ensures ms == other
  {
    forall a | 0 <= a < |shas| ensures ms[a] == other[a] {
      var j :| IsTheRow(rows, shas[a], j) && ms[a] == rows[j];
      var k :| IsTheRow(rows, shas[a], k) && other[a] == rows[k];
      assert j == k;
    }
  }

  lemma SoundIff(p: Proposal, rows: seq<Row>, env: Env, seen: set<string>)
    ensures Sound(p, rows, env, seen) <==> IsSound(p, rows, env) && NoRepeats(p.shas, seen)
  {
    forall s ensures Assignable(rows, s, env.conditioned) <==> exists k :: IsTheRow(rows, s, k) && IsReviewable(rows[k], env.conditioned) {
      ReviewableRowIff(rows, s, env.conditioned);
    }
    if AllReviewable(p, rows, env.conditioned) {
      forall s | s in p.shas ensures exists k :: IsTheRow(rows, s, k) {
        var k :| IsTheRow(rows, s, k) && IsReviewable(rows[k], env.conditioned);
      }
      MembersAreRows(rows, p.shas);
      EvidenceIff(Members(rows, p.shas), p.markers, env.store);
      forall ms | AreRows(ms, p.shas, rows) ensures ms == Members(rows, p.shas) {
        RowsAreTheSame(ms, Members(rows, p.shas), p.shas, rows);
      }
    }
  }

  lemma {:induction false} SeenIff(props: seq<Proposal>, n: nat, s: string)
    requires n <= |props|
    ensures s in SeenBefore(props, n) <==> exists i :: 0 <= i < n && s in props[i].shas
  {
    if n > 0 {
      SeenIff(props, n - 1, s);
    }
  }

  lemma NamedOnceNext(props: seq<Proposal>, n: nat)
    requires n < |props|
    ensures NamedOnce(props, n + 1) <==> NamedOnce(props, n) && NoRepeats(props[n].shas, SeenBefore(props, n))
  {
    var shas := props[n].shas;
    forall s ensures s in SeenBefore(props, n) <==> exists i :: 0 <= i < n && s in props[i].shas {
      SeenIff(props, n, s);
    }
    if NamedOnce(props, n + 1) {
      forall i, b | 0 <= i < n && 0 <= b < |shas| ensures shas[b] !in props[i].shas {
        forall a | 0 <= a < |props[i].shas| ensures props[i].shas[a] != shas[b] {
          assert SameName(props, i, a, n, b) <==> props[i].shas[a] == shas[b];
        }
      }
      forall a, b | 0 <= a < b < |shas| ensures shas[a] != shas[b] {
        assert SameName(props, n, a, n, b) <==> shas[a] == shas[b];
      }
    }
    forall i, a | 0 <= i < n && 0 <= a < |props[i].shas| ensures props[i].shas[a] in SeenBefore(props, n) {
      assert props[i].shas[a] in props[i].shas;
    }
  }

  lemma {:induction false} AllSoundIff(props: seq<Proposal>, rows: seq<Row>, env: Env, n: nat)
    requires n <= |props|
    ensures AllSound(props, rows, env, n) <==> AllAreSound(props, rows, env, n) && NamedOnce(props, n)
  {
    if n > 0 {
      AllSoundIff(props, rows, env, n - 1);
      SoundIff(props[n - 1], rows, env, SeenBefore(props, n - 1));
      NamedOnceNext(props, n - 1);
      AllAreSoundNext(props, rows, env, n - 1);
    }
  }

  lemma AllAreSoundNext(props: seq<Proposal>, rows: seq<Row>, env: Env, n: nat)
    requires n < |props|
    ensures AllAreSound(props, rows, env, n + 1) <==> AllAreSound(props, rows, env, n) && IsSound(props[n], rows, env)
  {
  }

  // ---------------------------------------------------------------- families

  lemma {:induction false} ListingIff(props: seq<Proposal>, f: string, s: string)
    ensures s in Listing(props, f) <==> exists i :: 0 <= i < |props| && props[i].family == f && s in props[i].shas
  {
    if props != [] {
      ListingIff(props[1..], f, s);
      if i :| 0 <= i < |props| && props[i].family == f && s in props[i].shas && i > 0 {
        assert props[1..][i - 1] == props[i];
      }
    }
  }

  lemma ListedIff(props: seq<Proposal>, f: string, r: Row)
    ensures ListedUnder(props, f, r) <==> exists s :: s in Listing(props, f) && HasString(r, "sha256", s)
  {
    if s :| s in Listing(props, f) && HasString(r, "sha256", s) {
      ListingIff(props, f, s);
      var i :| 0 <= i < |props| && props[i].family == f && s in props[i].shas;
      assert Lists(props, i, r);
    }
    if i :| Lists(props, i, r) && props[i].family == f {
      var s :| s in props[i].shas && HasString(r, "sha256", s);
      ListingIff(props, f, s);
    }
  }

  lemma {:induction false} FamilyIsListed(props: seq<Proposal>, rows: seq<Row>, f: string)
    ensures FamilyRows(props, AllMembers(props, rows), f) == Members(rows, Listing(props, f))
  {
    if props != [] {
      FamilyIsListed(props[1..], rows, f);
      assert AllMembers(props, rows)[1..] == AllMembers(props[1..], rows);
      MembersConcat(rows, if props[0].family == f then props[0].shas else [], Listing(props[1..], f));
    }
  }

  lemma {:induction false} MembersConcat(rows: seq<Row>, a: seq<string>, b: seq<string>)
    ensures Members(rows, a + b) == Members(rows, a) + Members(rows, b)
  {
    if a == [] {
      assert a + b == b;
    } else {
      assert (a + b)[1..] == a[1..] + b;
      MembersConcat(rows, a[1..], b);
      ConcatAssociates(Member(rows, a[0]), Members(rows, a[1..]), Members(rows, b));
    }
  }

  /** Of a sound session: the rows of a family are those listed under it. */
  lemma FamilyIs(props: seq<Proposal>, rows: seq<Row>, env: Env, f: string)
    requires AllSound(props, rows, env, |props|)
    ensures var family := FamilyRows(props, AllMembers(props, rows), f);
            && AreRows(family, Listing(props, f), rows)
            && (family == [] <==> Listing(props, f) == [])
            && forall r :: r in family <==> r in rows && ListedUnder(props, f, r)
  {
    var family, shas := FamilyRows(props, AllMembers(props, rows), f), Listing(props, f);
    SoundIsLookable(props, rows, env);
    forall s | s in shas ensures exists k :: IsTheRow(rows, s, k) {
      ListingIff(props, f, s);
      HitsAt(rows, s);
    }
    FamilyIsListed(props, rows, f);
    MembersAreRows(rows, shas);
    forall r ensures r in family <==> r in rows && ListedUnder(props, f, r) {
      RowIsListed(rows, shas, family, r);
      ListedIff(props, f, r);
    }
  }

  lemma RowIsListed(rows: seq<Row>, shas: seq<string>, family: seq<Row>, r: Row)
    requires AreRows(family, shas, rows)
    ensures r in family <==> r in rows && exists s :: s in shas && HasString(r, "sha256", s)
  {
    if r in family {
      var a :| 0 <= a < |family| && family[a] == r;
      var k :| IsTheRow(rows, shas[a], k) && family[a] == rows[k];
      assert shas[a] in shas && HasString(r, "sha256", shas[a]);
    }
    if r in rows && exists s :: s in shas && HasString(r, "sha256", s) {
      var s :| s in shas && HasString(r, "sha256", s);
      var a :| 0 <= a < |shas| && shas[a] == s;
      var j :| 0 <= j < |rows| && rows[j] == r;
      var k :| IsTheRow(rows, shas[a], k) && family[a] == rows[k];
      assert j == k;
    }
  }

  lemma DeterminedIff(props: seq<Proposal>, rows: seq<Row>, env: Env, f: string)
    requires AllSound(props, rows, env, |props|)
    ensures Determined(FamilyRows(props, AllMembers(props, rows), f), Population(rows, env.conditioned), env.key)
            <==> IsDetermined(props, rows, env, f)
  {
    var family, population := FamilyRows(props, AllMembers(props, rows), f), Population(rows, env.conditioned);
    FamilyIs(props, rows, env, f);
    forall p ensures p in population <==> p in rows && IsReviewable(p, env.conditioned) {
      ReviewableIff(p, env.conditioned);
    }
    forall p | p in rows ensures (exists m :: m in family && Sha(m) == Sha(p)) <==> ListedUnder(props, f, p) {
      SameShaIsListed(props, rows, f, family, p);
    }
  }

  /** A row that has the sha256 of a listed one is that row. */
  lemma SameShaIsListed(props: seq<Proposal>, rows: seq<Row>, f: string, family: seq<Row>, p: Row)
    requires AreRows(family, Listing(props, f), rows) && p in rows
    requires forall r :: r in family <==> r in rows && ListedUnder(props, f, r)
    ensures (exists m :: m in family && Sha(m) == Sha(p)) <==> ListedUnder(props, f, p)
  {
    if m :| m in family && Sha(m) == Sha(p) {
      ListedIff(props, f, m);
      ListedIff(props, f, p);
      var s :| s in Listing(props, f) && HasString(m, "sha256", s);
      assert HasString(p, "sha256", s);
    }
  }

  // ---------------------------------------------------------------- the session

  lemma HasRowsIff(props: seq<Proposal>, rows: seq<Row>, env: Env, f: string)
    requires AllSound(props, rows, env, |props|)
    ensures FamilyRows(props, AllMembers(props, rows), f) != [] <==> exists i :: 0 <= i < |props| && props[i].family == f && props[i].shas != []
  {
    FamilyIs(props, rows, env, f);
    if Listing(props, f) != [] {
      ListingIff(props, f, Listing(props, f)[0]);
    }
    if i :| 0 <= i < |props| && props[i].family == f && props[i].shas != [] {
      ListingIff(props, f, props[i].shas[0]);
    }
  }

  lemma SaysNothingIff(props: seq<Proposal>, rows: seq<Row>, env: Env)
    requires AllSound(props, rows, env, |props|)
    ensures SaysNothing(props, AllMembers(props, rows), Population(rows, env.conditioned), env.key) <==> !SaysSomething(props, rows, env)
  {
    var per := AllMembers(props, rows);
    forall i | 0 <= i < |props|
      ensures Determined(FamilyRows(props, per, props[i].family), Population(rows, env.conditioned), env.key)
              <==> IsDetermined(props, rows, env, props[i].family)
      ensures FamilyRows(props, per, props[i].family) != []
              <==> exists j :: 0 <= j < |props| && props[j].family == props[i].family && props[j].shas != []
    {
      DeterminedIff(props, rows, env, props[i].family);
      HasRowsIff(props, rows, env, props[i].family);
    }
  }

  lemma NoPileIff(rows: seq<Row>, session: Option<string>)
    ensures HoldsNoPile(rows, session) <==> NoneIsPile(rows, session)
  {
    if HoldsNoPile(rows, session) {
      forall f ensures !IsPile(rows, session, f) {
        PileIff(rows, session, f);
        assert !PileLike(Mine(rows, session, f));
      }
    }
    if NoneIsPile(rows, session) {
      forall f ensures !PileLike(Mine(rows, session, f)) {
        PileIff(rows, session, f);
      }
    }
  }

  /** A session is accepted exactly when nothing is wrong with it. */
  lemma AcceptedIff(props: seq<Proposal>, rows: seq<Row>, env: Env)
    ensures Acceptable(props, rows, env) <==> IsAccepted(props, rows, env, PostState(props, rows, env))
  {
    AllSoundIff(props, rows, env, |props|);
    if AllSound(props, rows, env, |props|) {
      SaysNothingIff(props, rows, env);
      NoPileIff(PostState(props, rows, env), OfSession(props));
    }
  }

  // ---------------------------------------------------------------- what it writes

  /** What is recorded beside the family: who decided it, on what, and what was found out about it. */
  ghost predicate IsRecord(e: Fields, p: Proposal, props: seq<Proposal>, rows: seq<Row>, env: Env, r: Row) {
    && e.Keys == {"assigned_by", "session", "decided_by", "decided_at", "recorded_at", "basis", "markers", "review_unit",
                  "ruleset_determined", "dispersion", "sampling_frame", "review_seconds"}
    && e["assigned_by"] == Str("corpus/assign-family.py") && e["session"] == Str(p.session)
    && e["decided_by"] == Str(p.decidedBy) && e["decided_at"] == Str(p.decidedAt) && e["recorded_at"] == Str(env.now)
    && e["basis"] == Str(p.basis) && InCodePointOrder(e["markers"], p.markers)
    && e["review_unit"] == Obj(map["kind" := Str("expect.must_detect"), "key" := Str(env.key(r))])
    && e["ruleset_determined"].Bool? && (e["ruleset_determined"].b <==> IsDetermined(props, rows, env, p.family))
    && (exists family :: AreRows(family, Listing(props, p.family), rows) && e["dispersion"] == env.dispersion(family))
    && e["sampling_frame"] == env.frame && e["review_seconds"] == p.reviewSeconds
  }

  /** The same strings, none before one of lower code points. */
  ghost predicate InCodePointOrder(j: Json, strings: seq<string>) {
    && j.Arr? && (forall i :: 0 <= i < |j.items| ==> j.items[i].Str?)
    && (forall x :: multiset(j.items)[Str(x)] == multiset(strings)[x])
    && forall i :: 0 < i < |j.items| ==> !Less(Codes(j.items[i].s), Codes(j.items[i - 1].s))
  }

  ghost predicate IsWritten(was: Row, now: Row, p: Proposal, props: seq<Proposal>, rows: seq<Row>, env: Env) {
    && now.Keys == was.Keys + {"family", "family_evidence"}
    && (forall k :: k in was && k != "family" && k != "family_evidence" ==> now[k] == was[k])
    && now["family"] == Str(p.family)
    && now["family_evidence"].Obj? && IsRecord(now["family_evidence"].fields, p, props, rows, env, was)
  }

  lemma StrsCons(m: string, rest: seq<string>)
    ensures Strs([m] + rest) == [Str(m)] + Strs(rest)
  {
  }

  lemma CountCons<T>(a: T, b: seq<T>, x: T)
    ensures multiset([a] + b)[x] == multiset(b)[x] + if a == x then 1 else 0
  {
  }

  lemma {:induction false} MultisetOfStrs(ms: seq<string>, x: string)
    ensures multiset(Strs(ms))[Str(x)] == multiset(ms)[x]
  {
    if ms != [] {
      var m, rest := ms[0], ms[1..];
      MultisetOfStrs(rest, x);
      assert ms == [m] + rest;
      StrsCons(m, rest);
      CountCons(m, rest, x);
      CountCons(Str(m), Strs(rest), Str(x));
    }
  }

  lemma MarkersInOrder(ms: seq<string>)
    ensures InCodePointOrder(Arr(Strs(Sorted(ms))), ms)
  {
    SortedMarkers(ms);
    forall x ensures multiset(Strs(Sorted(ms)))[Str(x)] == multiset(ms)[x] {
      MultisetOfStrs(Sorted(ms), x);
    }
  }

  lemma EvidenceReads(p: Proposal, cluster: string, j: Judged)
    ensures var e := EvidenceOf(p, cluster, j);
            && e.Obj?
            && e.fields.Keys == {"assigned_by", "session", "decided_by", "decided_at", "recorded_at", "basis", "markers", "review_unit",
                                 "ruleset_determined", "dispersion", "sampling_frame", "review_seconds"}
            && e.fields["assigned_by"] == Str("corpus/assign-family.py") && e.fields["session"] == Str(p.session)
            && e.fields["decided_by"] == Str(p.decidedBy) && e.fields["decided_at"] == Str(p.decidedAt)
            && e.fields["recorded_at"] == Str(j.now) && e.fields["basis"] == Str(p.basis)
            && e.fields["markers"] == Arr(Strs(Sorted(p.markers)))
            && e.fields["review_unit"] == Obj(map["kind" := Str("expect.must_detect"), "key" := Str(cluster)])
            && e.fields["ruleset_determined"] == Bool(j.determined) && e.fields["dispersion"] == j.dispersion
            && e.fields["sampling_frame"] == j.frame && e.fields["review_seconds"] == p.reviewSeconds
  {
  }

  lemma RecordIs(props: seq<Proposal>, rows: seq<Row>, env: Env, i: nat, r: Row)
    requires AllSound(props, rows, env, |props|) && i < |props|
    ensures var p := props[i];
            var family := FamilyRows(props, AllMembers(props, rows), p.family);
            var e := EvidenceOf(p, env.key(r), JudgedOf(family, Population(rows, env.conditioned), env));
            e.Obj? && IsRecord(e.fields, p, props, rows, env, r)
  {
    var p := props[i];
    var family := FamilyRows(props, AllMembers(props, rows), p.family);
    var j := JudgedOf(family, Population(rows, env.conditioned), env);
    EvidenceReads(p, env.key(r), j);
    MarkersInOrder(p.markers);
    DeterminedIff(props, rows, env, p.family);
    assert AreRows(family, Listing(props, p.family), rows) by {
      FamilyIs(props, rows, env, p.family);
    }
  }

  lemma AppliedReads(r: Row, p: Proposal, cluster: string, j: Judged)
    ensures var now := ApplyToRow(r, p, cluster, j);
            && now.Keys == r.Keys + {"family", "family_evidence"}
            && (forall k :: k in r && k != "family" && k != "family_evidence" ==> now[k] == r[k])
            && now["family"] == Str(p.family) && now["family_evidence"] == EvidenceOf(p, cluster, j)
  {
  }

  lemma WrittenIs(props: seq<Proposal>, rows: seq<Row>, env: Env, i: nat, was: Row, now: Row)
    requires AllSound(props, rows, env, |props|) && i < |props|
    requires var family := FamilyRows(props, AllMembers(props, rows), props[i].family);
             now == ApplyToRow(was, props[i], env.key(was), JudgedOf(family, Population(rows, env.conditioned), env))
    ensures IsWritten(was, now, props[i], props, rows, env)
  {
    var family := FamilyRows(props, AllMembers(props, rows), props[i].family);
    AppliedReads(was, props[i], env.key(was), JudgedOf(family, Population(rows, env.conditioned), env));
    RecordIs(props, rows, env, i, was);
  }

  lemma OwnerIsOnly(props: seq<Proposal>, r: Row)
    requires NamedOnce(props, |props|)
    ensures forall i :: Lists(props, i, r) <==> Owner(props, |props|, r) == Some(i)
  {
    var o := Owner(props, |props|, r);
    if o.Some? {
      assert Lists(props, o.value, r);
    }
    forall i | Lists(props, i, r) ensures o == Some(i) {
      ListedByOne(props, r, i, o.value);
    }
  }

  lemma RowAfterIs(props: seq<Proposal>, rows: seq<Row>, env: Env, was: Row, now: Row, i: int)
    requires AllSound(props, rows, env, |props|) && Owner(props, |props|, was) == Some(i)
    requires now == RowAfter(props, |props|, AllMembers(props, rows), Population(rows, env.conditioned), env, was)
    ensures IsWritten(was, now, props[i], props, rows, env)
  {
    WrittenIs(props, rows, env, i, was, now);
  }

  /** A session writes each row it lists, under the one proposal that lists it, and no other. */
  lemma AfterIs(props: seq<Proposal>, rows: seq<Row>, env: Env, k: nat, i: int)
    requires AllSound(props, rows, env, |props|) && k < |rows|
    ensures (forall j :: !Lists(props, j, rows[k])) ==> PostState(props, rows, env)[k] == rows[k]
    ensures Lists(props, i, rows[k]) ==> IsWritten(rows[k], PostState(props, rows, env)[k], props[i], props, rows, env)
  {
    AllSoundIff(props, rows, env, |props|);
    OwnerIsOnly(props, rows[k]);
    if Lists(props, i, rows[k]) {
      RowAfterIs(props, rows, env, rows[k], PostState(props, rows, env)[k], i);
    } else if o: nat :| Owner(props, |props|, rows[k]) == Some(o) {
      assert Lists(props, o, rows[k]);
    }
  }

  lemma ListedByOne(props: seq<Proposal>, r: Row, i: int, j: int)
    requires NamedOnce(props, |props|) && Lists(props, i, r) && Lists(props, j, r)
    ensures i == j
  {
    var s :| s in props[i].shas && HasString(r, "sha256", s);
    var t :| t in props[j].shas && HasString(r, "sha256", t);
    var a :| 0 <= a < |props[i].shas| && props[i].shas[a] == s;
    var b :| 0 <= b < |props[j].shas| && props[j].shas[b] == t;
    assert SameName(props, i, a, j, b);
  }
}
