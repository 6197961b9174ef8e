/**
  * Whole histories of one row: signing, backfilling, re-measuring, re-stamping,
  * re-tagging and any other edit, in any order.
  */
module ClearanceRuns {
  import opened JsonValues
  import opened Clearance
  import opened ClearFinding
  import opened ClearanceChecks

  datatype Step =
    | Sign(q: Request)
    | BackfillRow(reasonedBy: string)
    | Remeasure(masking: Json)
    | Restamp(provenance: Json)
    | Retag(sensitivity: Json)
    | Edit(key: string, value: Json)

  /** `row.setdefault("clearances", []).append(c)` needs a list, or nothing there at all. */
  predicate Appendable(row: Fields) {
    "clearances" in row ==> row["clearances"].Arr?
  }

  /** A signature is written only if it was built and the write is additive; an edit leaves clearances alone. */
  ghost predicate Enabled(row: Fields, s: Step) {
    match s
    case Sign(q) => !IsBlank(q.at) && Appendable(row) && Built(row, q).Signed?
                    && AssertAdditive(row, WithClearance(row, Built(row, q).clearance)).None?
    case BackfillRow(who) => !IsBlank(who) && AssertBackfilled(row, Backfilled(row, who), who).None?
    case Edit(key, _) => key != "clearances"
    case _ => true
  }

  function After(row: Fields, s: Step): Fields {
    match s
    case Sign(q) => if Built(row, q).Signed? then WithClearance(row, Built(row, q).clearance) else row
    case BackfillRow(who) => Backfilled(row, who)
    case Remeasure(masking) => row["masking" := masking]
    case Restamp(provenance) => row["masking" := Obj(ObjectAt(row, "masking")["provenance" := provenance])]
    case Retag(sensitivity) => row["sensitivity" := sensitivity]
    case Edit(key, value) => row[key := value]
  }

  ghost predicate Leads(row: Fields, steps: seq<Step>, row': Fields)
    decreases |steps|
  {
    if steps == [] then row' == row
    else Enabled(row, steps[0]) && Leads(After(row, steps[0]), steps[1..], row')
  }

  // ---------------------------------------------------------------- distinct judgements

  /** The same finding of the same gate, judged against the same pin. */
  predicate SameJudgement(c: Json, d: Json) {
    && c.Obj? && d.Obj?
    && Get(c.fields, "gate") == Get(d.fields, "gate")
    && Get(c.fields, "finding_digest") == Get(d.fields, "finding_digest")
    && ProvKey(Get(c.fields, "gate_provenance")) == ProvKey(Get(d.fields, "gate_provenance"))
  }

  predicate Distinct(cs: seq<Json>) {
    forall i, j :: 0 <= i < j < |cs| ==> !SameJudgement(cs[i], cs[j])
  }

  lemma SignKeepsDistinct(row: Fields, q: Request, c: Json)
    requires Distinct(RowClearances(row)) && Built(row, q) == Signed(c) && !IsBlank(q.at)
    ensures Distinct(RowClearances(WithClearance(row, c)))
  {
    var cs, m := RowClearances(row), ObjectAt(row, "masking");
    SignedIsReadable(row, q, c);
    assert FirstDuplicate(cs, q.gate, FindingDigest(m, q.gate), Pin(m)).None?;
    forall d | d in cs ensures !SameJudgement(d, c) {
      assert !IsDuplicate(d, q.gate, FindingDigest(m, q.gate), Pin(m));
    }
    assert RowClearances(WithClearance(row, c)) == cs + [c];
  }

  lemma StepKeepsDistinct(row: Fields, s: Step)
    requires Distinct(RowClearances(row)) && Enabled(row, s)
    ensures Distinct(RowClearances(After(row, s)))
  {
    if s.Sign? {
      SignKeepsDistinct(row, s.q, Built(row, s.q).clearance);
    } else if s.BackfillRow? {
    } else {
      assert RowClearances(After(row, s)) == RowClearances(row);
    }
  }

  /** No judgement is ever made twice, so at most one clearance answers for a gate, and none on a forbidden row. */
  lemma {:induction false} RunKeepsDistinct(row: Fields, steps: seq<Step>, row': Fields)
    requires Distinct(RowClearances(row)) && Leads(row, steps, row')
    ensures Distinct(RowClearances(row'))
    decreases |steps|
  {
    if steps != [] {
      StepKeepsDistinct(row, steps[0]);
      RunKeepsDistinct(After(row, steps[0]), steps[1..], row');
    }
  }

  /** From a row with no clearances, over any history. */
  lemma OneAnswerPerGate(row: Fields, steps: seq<Step>, row': Fields, gate: string)
    requires RowClearances(row) == [] && Leads(row, steps, row')
    ensures Distinct(RowClearances(row'))
    ensures forall i, j :: (0 <= i < |RowClearances(row')| && 0 <= j < |RowClearances(row')|
                            && Applies(RowClearances(row')[i], row', gate) && Applies(RowClearances(row')[j], row', gate)) ==> i == j
    ensures NeverPublishable(row') ==> Applicable(row', gate).None?
  {
    RunKeepsDistinct(row, steps, row');
    forall i: nat, j: nat | i < |RowClearances(row')| && j < |RowClearances(row')|
                            && Applies(RowClearances(row')[i], row', gate) && Applies(RowClearances(row')[j], row', gate)
      ensures i == j
    {
    }
  }

  // ---------------------------------------------------------------- append-only

  /** The record itself, or the same with `reasoned_by` filled in where it said nothing. */
  predicate Kept(c: Json, d: Json) {
    d == c || (c.Obj? && !Truthy(Get(c.fields, REASONED_BY)) && d.Obj? && REASONED_BY in d.fields
               && Truthy(d.fields[REASONED_BY]) && d == Obj(c.fields[REASONED_BY := d.fields[REASONED_BY]]))
  }

  predicate History(before: seq<Json>, after: seq<Json>) {
    |before| <= |after| && forall i :: 0 <= i < |before| ==> Kept(before[i], after[i])
  }

  lemma StepAppends(row: Fields, s: Step)
    requires Enabled(row, s)
    ensures History(RowClearances(row), RowClearances(After(row, s)))
  {
    var cs := RowClearances(row);
    if s.Sign? {
      assert RowClearances(After(row, s)) == cs + [Built(row, s.q).clearance];
    } else if s.BackfillRow? {
      BackfilledClearances(row, s.reasonedBy);
      forall i | 0 <= i < |cs| ensures Kept(cs[i], RowClearances(After(row, s))[i]) {
      }
    } else {
      assert RowClearances(After(row, s)) == cs;
    }
  }

  /** Between any two moments of a history: every earlier clearance is still there, at its place, as it was. */
  lemma {:induction false} RunAppendsOnly(row: Fields, steps: seq<Step>, row': Fields)
    requires Leads(row, steps, row')
    ensures History(RowClearances(row), RowClearances(row'))
    decreases |steps|
  {
    if steps != [] {
      var next := After(row, steps[0]);
      StepAppends(row, steps[0]);
      RunAppendsOnly(next, steps[1..], row');
      var cs, ds, es := RowClearances(row), RowClearances(next), RowClearances(row');
      forall i | 0 <= i < |cs| ensures Kept(cs[i], es[i]) {
      }
    }
  }

  /** A step is only ever refused before it starts: built and backfilled rows always pass their assertion. */
  lemma WritesAreNeverRefused(row: Fields, s: Step)
    ensures s.Sign? ==> (Enabled(row, s) <==> !IsBlank(s.q.at) && Appendable(row) && Built(row, s.q).Signed?)
    ensures s.BackfillRow? ==> (Enabled(row, s) <==> !IsBlank(s.reasonedBy))
  {
    if s.Sign? && Built(row, s.q).Signed? {
      AdditiveIff(row, WithClearance(row, Built(row, s.q).clearance));
    }
    if s.BackfillRow? {
      BackfillPasses(row, s.reasonedBy);
    }
  }

  /**
    * A clearance signed at some moment applies again at a later one exactly when the
    * finding and the pin are back to what was judged, and no tag forbids it.
    */
  lemma SignedThenApplies(row: Fields, q: Request, steps: seq<Step>, row': Fields)
    requires Enabled(row, Sign(q)) && Leads(After(row, Sign(q)), steps, row')
    ensures var at, m, n := |RowClearances(row)|, ObjectAt(row, "masking"), ObjectAt(row', "masking");
            && at < |RowClearances(row')|
            && (Applies(RowClearances(row')[at], row', q.gate)
                <==> && !NeverPublishable(row') && q.gate in n && SameFinding(m, n, q.gate)
                     && ProvKey(Get(n, "provenance")) == ProvKey(Get(m, "provenance")))
  {
    var c, signed := Built(row, q).clearance, After(row, Sign(q));
    SignedAppliesAtOnce(row, q, c, q.gate);
    RunAppendsOnly(signed, steps, row');
    assert RowClearances(signed) == RowClearances(row) + [c];
    var d := RowClearances(row')[|RowClearances(row)|];
    assert Kept(c, d);
    SignedIsReadable(row, q, c);
    assert d == c;
    assert ObjectAt(signed, "masking") == ObjectAt(row, "masking");
    AppliesIffUnmoved(c, signed, row', q.gate);
  }
}
