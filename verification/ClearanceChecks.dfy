/**
  * The two assertions made before a row is written: what exactly each of them accepts.
  */
module ClearanceChecks {
  import opened Prelude
  import opened JsonValues
  import opened Clearance
  import opened ClearFinding

  datatype Complaint = Outside | Count | Rewritten(at: nat) | Changed(at: nat) | Overwritten(at: nat) | OtherValue(at: nat) | Existing

  function Without(row: Fields): Fields {
    map k | k in row && k != "clearances" :: row[k]
  }

  function Moved(x: Fields, y: Fields): set<string> {
    set k | k in x.Keys + y.Keys && Get(x, k) != Get(y, k)
  }

  function CheckPair(x: Json, y: Json, reasonedBy: string, at: nat): Option<Complaint> {
    if !x.Obj? || !y.Obj? then (if x != y then Some(Rewritten(at)) else None)
    else if Moved(x.fields, y.fields) == {} then None
    else if Moved(x.fields, y.fields) != {REASONED_BY} then Some(Changed(at))
    else if Truthy(Get(x.fields, REASONED_BY)) then Some(Overwritten(at))
    else if Get(y.fields, REASONED_BY) != Str(Strip(reasonedBy)) then Some(OtherValue(at))
    else None
  }

  function CheckPairs(cb: seq<Json>, ca: seq<Json>, reasonedBy: string, at: nat): Option<Complaint>
    requires |cb| == |ca| && at <= |cb|
    decreases |cb| - at
  {
    if at == |cb| then None
    else if CheckPair(cb[at], ca[at], reasonedBy, at).Some? then CheckPair(cb[at], ca[at], reasonedBy, at)
    else CheckPairs(cb, ca, reasonedBy, at + 1)
  }

  function AssertBackfilled(before: Fields, after: Fields, reasonedBy: string): Option<Complaint> {
    if Without(before) != Without(after) then Some(Outside)
    else if |RowClearances(before)| != |RowClearances(after)| then Some(Count)
    else CheckPairs(RowClearances(before), RowClearances(after), reasonedBy, 0)
  }

  function AssertAdditive(before: Fields, after: Fields): Option<Complaint> {
    var n := |RowClearances(before)|;
    if Without(before) != Without(after) then Some(Outside)
    else if |RowClearances(after)| != n + 1 then Some(Count)
    else if RowClearances(after)[..n] != RowClearances(before) then Some(Existing)
    else None
  }

  /** It accepts exactly the row with one clearance appended and nothing else moved. */
  lemma AdditiveIff(before: Fields, after: Fields)
    ensures AssertAdditive(before, after).None? <==> exists c :: after == WithClearance(before, c)
  {
    if AssertAdditive(before, after).None? {
      var cs := RowClearances(after);
      var c := cs[|cs| - 1];
      assert cs == RowClearances(before) + [c];
      SameOutside(before, after, Arr(cs));
      assert after == WithClearance(before, c);
    }
    if c :| after == WithClearance(before, c) {
      assert RowClearances(after) == RowClearances(before) + [c];
      assert Without(before) == Without(after);
    }
  }

  lemma SameOutside(before: Fields, after: Fields, value: Json)
    requires Without(before) == Without(after) && "clearances" in after && after["clearances"] == value
    ensures after == before["clearances" := value]
  {
    forall k ensures k in after <==> k in before["clearances" := value] {
      assert k in Without(before) <==> k in before && k != "clearances";
      assert k in Without(after) <==> k in after && k != "clearances";
    }
    forall k | k in after ensures after[k] == before["clearances" := value][k] {
      if k != "clearances" {
        assert k in Without(after) && Without(after)[k] == after[k];
        assert k in Without(before) && Without(before)[k] == before[k];
      }
    }
  }

  /** One clearance before and after: as it was, or with `reasoned_by` recorded where none was. */
  ghost predicate FilledOrSame(x: Json, y: Json, reasonedBy: string) {
    if !x.Obj? || !y.Obj? then x == y
    else
      && (forall k :: k != REASONED_BY ==> Get(x.fields, k) == Get(y.fields, k))
      && (Get(y.fields, REASONED_BY) == Get(x.fields, REASONED_BY)
          || (!Truthy(Get(x.fields, REASONED_BY)) && Get(y.fields, REASONED_BY) == Str(Strip(reasonedBy))))
  }

  lemma CheckPairIff(x: Json, y: Json, reasonedBy: string, at: nat)
    ensures CheckPair(x, y, reasonedBy, at).None? <==> FilledOrSame(x, y, reasonedBy)
  {
    if x.Obj? && y.Obj? {
      var moved := Moved(x.fields, y.fields);
      forall k ensures k in moved <==> Get(x.fields, k) != Get(y.fields, k) {
      }
      if moved <= {REASONED_BY} {
        assert moved == {} || moved == {REASONED_BY};
      } else {
        var k :| k in moved && k != REASONED_BY;
      }
    }
  }

  lemma {:induction false} CheckPairsIff(cb: seq<Json>, ca: seq<Json>, reasonedBy: string, at: nat)
    requires |cb| == |ca| && at <= |cb|
    ensures CheckPairs(cb, ca, reasonedBy, at).None? <==> forall i :: at <= i < |cb| ==> FilledOrSame(cb[i], ca[i], reasonedBy)
    decreases |cb| - at
  {
    if at < |cb| {
      CheckPairIff(cb[at], ca[at], reasonedBy, at);
      CheckPairsIff(cb, ca, reasonedBy, at + 1);
    }
  }

  /** It accepts exactly the rows whose clearances gained the asked-for `reasoned_by`, here or there, and nothing else. */
  lemma BackfilledIff(before: Fields, after: Fields, reasonedBy: string)
    ensures AssertBackfilled(before, after, reasonedBy).None?
       <==> && Without(before) == Without(after) && |RowClearances(before)| == |RowClearances(after)|
            && forall i :: 0 <= i < |RowClearances(before)| ==>
                 FilledOrSame(RowClearances(before)[i], RowClearances(after)[i], reasonedBy)
  {
    if |RowClearances(before)| == |RowClearances(after)| {
      CheckPairsIff(RowClearances(before), RowClearances(after), reasonedBy, 0);
    }
  }

  /** The backfill always passes its own assertion. */
  lemma BackfillPasses(row: Fields, reasonedBy: string)
    ensures AssertBackfilled(row, Backfilled(row, reasonedBy), reasonedBy).None?
  {
    var after := Backfilled(row, reasonedBy);
    BackfilledClearances(row, reasonedBy);
    forall k ensures k in Without(row) <==> k in Without(after) {
    }
    forall k | k in Without(row) ensures Without(row)[k] == Without(after)[k] {
      assert Get(after, k) == Get(row, k);
    }
    forall i | 0 <= i < |RowClearances(row)|
      ensures FilledOrSame(RowClearances(row)[i], RowClearances(after)[i], reasonedBy)
    {
    }
    BackfilledIff(row, after, reasonedBy);
  }

  /** Anything it accepts leaves every answer, on every gate, what it was. */
  lemma AcceptedBackfillChangesNoAnswer(before: Fields, after: Fields, reasonedBy: string, i: nat, gate: string)
    requires AssertBackfilled(before, after, reasonedBy).None? && i < |RowClearances(before)|
    ensures i < |RowClearances(after)|
    ensures Applies(RowClearances(after)[i], after, gate) == Applies(RowClearances(before)[i], before, gate)
  {
    BackfilledIff(before, after, reasonedBy);
    var x, y := RowClearances(before)[i], RowClearances(after)[i];
    assert FilledOrSame(x, y, reasonedBy);
    WithoutIsJudged(before, after);
    if x.Obj? && y.Obj? {
      ReasonedByIsNotJudged(x, y, before, gate);
    }
    AppliesReadsTwoFields(y, before, after, gate);
  }

  lemma WithoutIsJudged(before: Fields, after: Fields)
    requires Without(before) == Without(after)
    ensures SameJudged(before, after)
  {
    forall k | k in {"masking", "sensitivity"} ensures Get(before, k) == Get(after, k) {
      assert k in Without(before) <==> k in before;
      assert k in Without(after) <==> k in after;
      assert k in before ==> Without(before)[k] == before[k];
      assert k in after ==> Without(after)[k] == after[k];
    }
  }
}
