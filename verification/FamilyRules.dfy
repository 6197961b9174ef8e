/** The rows, rules, markers and piles of the family tools, read off the keys of the rows and the bytes of the samples. */
module FamilyRules {
  import opened AssignFamily
  import opened FamilyEvidence
  import opened JsonValues
  import opened Prelude

  // ---------------------------------------------------------------- rows to review

  /** Ruled malicious, kept as evidence, not there for a conditioned reason, and without a family. */
  ghost predicate IsReviewable(r: Row, conditioned: set<string>) {
    && HasString(r, "verdict", "malicious") && HasString(r, "bucket", "quarantine/evidence")
    && !("reason" in r && r["reason"].Str? && r["reason"].s in conditioned)
    && ("family" in r ==> r["family"] in {Null, Bool(false), Int(0), Str(""), Arr([]), Obj(map[])})
  }

  lemma ReviewableIff(r: Row, conditioned: set<string>)
    ensures InPopulation(r, conditioned) <==> IsReviewable(r, conditioned)
  {
    TruthyIff(Get(r, "family"));
  }

  /** The one row with that sha256. */
  ghost predicate IsTheRow(rows: seq<Row>, s: string, k: int) {
    0 <= k < |rows| && forall j :: 0 <= j < |rows| ==> (HasString(rows[j], "sha256", s) <==> j == k)
  }

  lemma {:induction false} HitsAt(rows: seq<Row>, s: string)
    ensures |Hits(rows, s)| == 1 <==> exists k :: IsTheRow(rows, s, k)
    ensures forall k :: IsTheRow(rows, s, k) ==> Hits(rows, s) == [rows[k]]
    ensures Hits(rows, s) == [] <==> forall j :: 0 <= j < |rows| ==> !HasString(rows[j], "sha256", s)
  {
    if rows != [] {
      var rest := rows[1..];
      HitsAt(rest, s);
      assert forall j :: 0 < j < |rows| ==> rows[j] == rest[j - 1];
      if k :| IsTheRow(rest, s, k) && !HasString(rows[0], "sha256", s) {
        assert IsTheRow(rows, s, k + 1);
      }
      if HasString(rows[0], "sha256", s) && Hits(rest, s) == [] {
        assert IsTheRow(rows, s, 0);
      }
      forall k | IsTheRow(rows, s, k) ensures Hits(rows, s) == [rows[k]] {
        if k > 0 {
          assert IsTheRow(rest, s, k - 1);
          assert !HasString(rows[0], "sha256", s);
        }
      }
    }
  }

  // ---------------------------------------------------------------- rules

  ghost predicate Expects(r: Row, rule: string) {
    && "expect" in r && r["expect"].Obj? && "must_detect" in r["expect"].fields && r["expect"].fields["must_detect"].Arr?
    && Str(rule) in r["expect"].fields["must_detect"].items
  }

  lemma {:induction false} StringsIff(items: seq<Json>, s: string)
    ensures s in Strings(items) <==> Str(s) in items
  {
    if items != [] {
      StringsIff(items[1..], s);
      assert items == [items[0]] + items[1..];
    }
  }

  lemma RulesIff(r: Row, rule: string)
    ensures rule in Rules(r) <==> Expects(r, rule)
  {
    if "expect" in r && r["expect"].Obj? && Get(r["expect"].fields, "must_detect").Arr? {
      StringsIff(Get(r["expect"].fields, "must_detect").items, rule);
    }
  }

  // ---------------------------------------------------------------- markers

  /** The bytes of the row's sample are there, and the marker stands in them from some place on. */
  ghost predicate HasMarker(r: Row, marker: string, store: Store) {
    exists sha, data :: IsSha(r, sha) && store(sha) == Some(data) && StandsIn(marker, data)
  }

  ghost predicate IsSha(r: Row, sha: Json) {
    if "sha256" in r then sha == r["sha256"] else sha == Null
  }

  ghost predicate StandsIn(marker: string, data: seq<byte>) {
    exists i: nat :: StandsAt(marker, data, i)
  }

  ghost predicate StandsAt(marker: string, data: seq<byte>, i: nat) {
    i + |marker| <= |data| && forall k :: 0 <= k < |marker| ==> marker[k] as int == data[i + k]
  }

  lemma CarriesIff(r: Row, marker: string, store: Store)
    ensures Carries(r, marker, store) <==> HasMarker(r, marker, store)
  {
    assert IsSha(r, Sha(r));
    if store(Sha(r)).Some? {
      StandsIff(marker, store(Sha(r)).value);
    }
  }

  lemma StandsIff(marker: string, data: seq<byte>)
    ensures OccursIn(marker, data) <==> StandsIn(marker, data)
  {
    if i :| 0 <= i <= |data| && OccursAt(marker, data, i) {
      assert StandsAt(marker, data, i);
    }
    if i: nat :| StandsAt(marker, data, i) {
      assert 0 <= i <= |data| && OccursAt(marker, data, i);
    }
  }

  ghost function Where(rows: seq<Row>, p: Row -> bool): set<int> {
    set k | 0 <= k < |rows| && p(rows[k])
  }

  lemma WhereSnoc(rows: seq<Row>, r: Row, p: Row -> bool)
    ensures |Where(rows + [r], p)| == |Where(rows, p)| + if p(r) then 1 else 0
  {
    assert forall k :: 0 <= k < |rows| ==> (rows + [r])[k] == rows[k];
    assert Where(rows + [r], p) == Where(rows, p) + if p(r) then {|rows|} else {};
  }

  ghost function CarriersOf(family: seq<Row>, marker: string, store: Store): set<int> {
    set a | 0 <= a < |family| && HasMarker(family[a], marker, store)
  }

  lemma {:induction false} ListedIs(markers: seq<string>, m: string)
    ensures Listed(markers, m) == multiset(markers)[m]
  {
    if markers != [] {
      ListedIs(markers[1..], m);
      assert markers == [markers[0]] + markers[1..];
    }
  }

  lemma {:induction false} TallyIs(family: seq<Row>, markers: seq<string>, m: string, store: Store)
    ensures Tally(family, markers, m, store) == multiset(markers)[m] * |CarriersOf(family, m, store)|
  {
    if family == [] {
      assert CarriersOf(family, m, store) == {};
    } else {
      var n := |family| - 1;
      TallyIs(family[..n], markers, m, store);
      TallyNext(family[..n], family[n], markers, m, store);
      assert family == family[..n] + [family[n]];
    }
  }

  lemma TallyNext(family: seq<Row>, r: Row, markers: seq<string>, m: string, store: Store)
    requires Tally(family, markers, m, store) == multiset(markers)[m] * |CarriersOf(family, m, store)|
    ensures Tally(family + [r], markers, m, store) == multiset(markers)[m] * |CarriersOf(family + [r], m, store)|
  {
    ListedIs(markers, m);
    TallySnoc(family, r, markers, m, store);
    CarriesIff(r, m, store);
    CarriersNext(family, r, m, store);
    TimesOneMore(multiset(markers)[m], |CarriersOf(family, m, store)|);
  }

  lemma CarriersNext(family: seq<Row>, r: Row, m: string, store: Store)
    ensures |CarriersOf(family + [r], m, store)| == |CarriersOf(family, m, store)| + if HasMarker(r, m, store) then 1 else 0
  {
    var p := (x: Row) => HasMarker(x, m, store);
    WhereSnoc(family, r, p);
    assert CarriersOf(family, m, store) == Where(family, p) && CarriersOf(family + [r], m, store) == Where(family + [r], p);
  }

  lemma TimesOneMore(a: nat, b: nat)
    ensures a * (b + 1) == a * b + a
  {
  }

  /**
    * There are markers, all ASCII; the bytes of every member are there and hold one of them; and
    * each marker stands in two members, or in one if it is listed twice.
    */
  ghost predicate HasEvidence(family: seq<Row>, markers: seq<string>, store: Store) {
    && markers != [] && (forall m, i :: m in markers && 0 <= i < |m| ==> m[i] as int < 128)
    && (forall r :: r in family ==> exists m :: m in markers && HasMarker(r, m, store))
    && (forall m :: m in markers ==> multiset(markers)[m] * |CarriersOf(family, m, store)| >= 2)
  }

  lemma EvidenceIff(family: seq<Row>, markers: seq<string>, store: Store)
    ensures MarkersPass(family, markers, store) <==> HasEvidence(family, markers, store)
  {
    forall m ensures Tally(family, markers, m, store) == multiset(markers)[m] * |CarriersOf(family, m, store)| {
      TallyIs(family, markers, m, store);
    }
    forall r, m ensures Carries(r, m, store) <==> HasMarker(r, m, store) {
      CarriesIff(r, m, store);
    }
    assert (forall m :: m in markers ==> IsAscii(m)) <==> forall m, i :: m in markers && 0 <= i < |m| ==> m[i] as int < 128;
  }

  // ---------------------------------------------------------------- piles

  /** The row was assigned to the family, in the session asked about if one is. */
  ghost predicate IsAssigned(r: Row, session: Option<string>, f: string) {
    && HasString(r, "verdict", "malicious") && f != "" && HasString(r, "family", f)
    && "family_evidence" in r && r["family_evidence"].Obj?
    && (session.Some? ==> HasString(r["family_evidence"].fields, "session", session.value))
  }

  lemma AssignedIff(r: Row, session: Option<string>, f: string)
    ensures AssignedIn(r, session, f) <==> IsAssigned(r, session, f)
  {
  }

  ghost function Expecting(rows: seq<Row>, session: Option<string>, f: string, rule: string): set<int> {
    set k | 0 <= k < |rows| && IsAssigned(rows[k], session, f) && Expects(rows[k], rule)
  }

  ghost function ExpectingAny(rows: seq<Row>, session: Option<string>, f: string): set<int> {
    set k | 0 <= k < |rows| && IsAssigned(rows[k], session, f) && exists rule :: Expects(rows[k], rule)
  }

  /** Of the assigned rows that expect a rule, none is expected by as much as half, to four places. */
  ghost predicate IsPile(rows: seq<Row>, session: Option<string>, f: string) {
    && ExpectingAny(rows, session, f) != {}
    && forall rule :: 20000 * |Expecting(rows, session, f, rule)| < 9999 * |ExpectingAny(rows, session, f)|
  }

  lemma {:induction false} MineSnoc(rows: seq<Row>, r: Row, session: Option<string>, f: string)
    ensures Mine(rows + [r], session, f) == Mine(rows, session, f) + if AssignedIn(r, session, f) then [r] else []
  {
    if rows == [] {
      assert rows + [r] == [r];
    } else {
      assert (rows + [r])[1..] == rows[1..] + [r];
      MineSnoc(rows[1..], r, session, f);
      if AssignedIn(rows[0], session, f) {
        ConcatAssociates([rows[0]], Mine(rows[1..], session, f), if AssignedIn(r, session, f) then [r] else []);
      }
    }
  }

  lemma DetectedOne(r: Row)
    ensures Detected([r]) == if exists rule :: Expects(r, rule) then [Rules(r)] else []
  {
    assert [r][1..] == [] && Detected([]) == [];
    if rule :| rule in Rules(r) {
      RulesIff(r, rule);
    }
    if rule :| Expects(r, rule) {
      RulesIff(r, rule);
    }
  }

  lemma {:induction false} DetectedCounts(rows: seq<Row>, session: Option<string>, f: string, rule: string)
    ensures var sets := Detected(Mine(rows, session, f));
            |sets| == |ExpectingAny(rows, session, f)| && Occurs(sets, rule) == |Expecting(rows, session, f, rule)|
  {
    if rows == [] {
      assert ExpectingAny(rows, session, f) == {} && Expecting(rows, session, f, rule) == {};
    } else {
      var n := |rows| - 1;
      var front, r := rows[..n], rows[n];
      assert rows == front + [r];
      DetectedCounts(front, session, f, rule);
      AssignedIff(r, session, f);
      RulesIff(r, rule);
      DetectedNext(front, r, session, f, rule);
      ExpectingNext(front, r, session, f, rule);
    }
  }

  lemma DetectedNext(rows: seq<Row>, r: Row, session: Option<string>, f: string, rule: string)
    ensures var before, after := Detected(Mine(rows, session, f)), Detected(Mine(rows + [r], session, f));
            && |after| == |before| + (if AssignedIn(r, session, f) && exists x :: Expects(r, x) then 1 else 0)
            && Occurs(after, rule) == Occurs(before, rule) + if AssignedIn(r, session, f) && rule in Rules(r) then 1 else 0
  {
    MineSnoc(rows, r, session, f);
    DetectedOne(r);
    RulesIff(r, rule);
    var before := Detected(Mine(rows, session, f));
    if AssignedIn(r, session, f) {
      DetectedConcat(Mine(rows, session, f), [r]);
      if exists x :: Expects(r, x) {
        OccursSnoc(before, Rules(r), rule);
      } else {
        assert before + [] == before;
      }
    } else {
      assert Mine(rows, session, f) + [] == Mine(rows, session, f);
    }
  }

  lemma ExpectingNext(rows: seq<Row>, r: Row, session: Option<string>, f: string, rule: string)
    ensures |ExpectingAny(rows + [r], session, f)|
            == |ExpectingAny(rows, session, f)| + if IsAssigned(r, session, f) && exists x :: Expects(r, x) then 1 else 0
    ensures |Expecting(rows + [r], session, f, rule)|
            == |Expecting(rows, session, f, rule)| + if IsAssigned(r, session, f) && Expects(r, rule) then 1 else 0
  {
    var one := (q: Row) => IsAssigned(q, session, f) && Expects(q, rule);
    var some := (q: Row) => IsAssigned(q, session, f) && exists x :: Expects(q, x);
    WhereSnoc(rows, r, one);
    WhereSnoc(rows, r, some);
    assert Expecting(rows, session, f, rule) == Where(rows, one) && Expecting(rows + [r], session, f, rule) == Where(rows + [r], one);
    assert ExpectingAny(rows, session, f) == Where(rows, some) && ExpectingAny(rows + [r], session, f) == Where(rows + [r], some);
  }

  lemma {:induction false} SomeTop(sets: seq<set<string>>) returns (top: nat)
    requires sets != []
    ensures IsTop(sets, top)
  {
    var best := "";
    top := |sets|;
    while !exists x :: Occurs(sets, x) == top
      invariant forall x :: Occurs(sets, x) <= top
      decreases top
    {
      assert Occurs(sets, best) <= top;
      top := top - 1;
    }
  }

  /** A family is refused as a pile exactly when its rows are one. */
  lemma PileIff(rows: seq<Row>, session: Option<string>, f: string)
    ensures PileLike(Mine(rows, session, f)) <==> IsPile(rows, session, f)
  {
    var mine := Mine(rows, session, f);
    forall rule
      ensures |Detected(mine)| == |ExpectingAny(rows, session, f)| && Occurs(Detected(mine), rule) == |Expecting(rows, session, f, rule)|
    {
      DetectedCounts(rows, session, f, rule);
    }
    assert |Detected(mine)| == |ExpectingAny(rows, session, f)| by {
      DetectedCounts(rows, session, f, "");
    }
    if Detected(mine) != [] {
      var top := SomeTop(Detected(mine));
      PileLikeIff(mine, top);
      var best :| Occurs(Detected(mine), best) == top;
    }
  }
}
