/**
  * Comparing a recorded gate result with today's measurement, and whether a clearance
  * keyed to the record is still keyed to it after the repair the comparison allows.
  */
module GateEvidence {
  import opened Prelude
  import opened JsonValues
  import opened Clearance

  const STAMPED_GATES: seq<string> := ["plaintext_gate", "encoded_layer_gate", "secret_gate"]

  datatype State = NotRecorded | Agrees | CannotCheck | VerdictMoved | EvidenceMoved

  /** `moved` are the recorded evidence fields that differ today, `unrecorded` those measured but not recorded. */
  datatype Outcome = Outcome(state: State, moved: set<string>, unrecorded: set<string>)

  const WHOLE := "<the finding itself>"

  function EvidenceKey(gate: string): Option<string> {
    if EvidenceKeys(gate) == [] then None else Some(EvidenceKeys(gate)[0])
  }

  /** `evidence_for(...).get(key)`: what is recorded, or null when nothing is. */
  function Recorded(masking: Fields, gate: string): Json {
    match EvidenceKey(gate)
    case None => Null
    case Some(key) => Get(EvidenceFor(masking, gate), key)
  }

  function MovedFields(recorded: Json, today: Json): set<string> {
    match recorded
    case Obj(fields) =>
      var now := if today.Obj? then today.fields else map[];
      set k | k in fields && fields[k] != Get(now, k)
    case Null => {}
    case _ => if recorded != today then {WHOLE} else {}
  }

  function UnrecordedFields(recorded: Json, today: Json): set<string> {
    if recorded.Obj? && today.Obj? then today.fields.Keys - recorded.fields.Keys else {}
  }

  /** One gate. `verdictClass` is the class of a stored or measured gate value. */
  function CompareGate(masking: Fields, gate: string, verdict: Json, evidence: Json, verdictClass: Json -> string): Outcome {
    if gate !in masking then Outcome(NotRecorded, {}, {})
    else
      var recorded := Recorded(masking, gate);
      var moved, unrecorded := MovedFields(recorded, evidence), UnrecordedFields(recorded, evidence);
      if verdictClass(masking[gate]) != verdictClass(verdict) then Outcome(VerdictMoved, moved, unrecorded)
      else if moved != {} then Outcome(EvidenceMoved, moved, unrecorded)
      else Outcome(Agrees, moved, unrecorded)
  }

  // ---------------------------------------------------------------- every gate

  datatype Measured = Measured(verdict: Json, evidence: Json)

  function Rank(s: State): nat {
    match s
    case NotRecorded => 0
    case Agrees => 0
    case CannotCheck => 1
    case VerdictMoved => 2
    case EvidenceMoved => 2
  }

  function GateOutcome(masking: Fields, today: map<string, Measured>, gate: string, verdictClass: Json -> string): Outcome {
    if gate !in today then Outcome(CannotCheck, {}, {})
    else CompareGate(masking, gate, today[gate].verdict, today[gate].evidence, verdictClass)
  }

  /** The first of the gates of which something moved. */
  ghost predicate FirstMoved(per: map<string, Outcome>, gates: seq<string>, k: int) {
    && 0 <= k < |gates| && gates[k] in per && per[gates[k]].state in {VerdictMoved, EvidenceMoved}
    && forall j :: 0 <= j < k && gates[j] in per ==> per[gates[j]].state !in {VerdictMoved, EvidenceMoved}
  }

  /** What moved first; where nothing moved, whether some gate could not be checked. */
  ghost predicate IsWorst(worst: State, per: map<string, Outcome>, gates: seq<string>) {
    match worst
    case NotRecorded => false
    case Agrees => forall g :: g in per ==> per[g].state == Agrees
    case CannotCheck =>
      && (exists g :: g in per && per[g].state == CannotCheck)
      && forall g :: g in per ==> per[g].state in {Agrees, CannotCheck}
    case _ => exists k :: FirstMoved(per, gates, k) && per[gates[k]].state == worst
  }

  lemma WorstNext(worst: State, per: map<string, Outcome>, gates: seq<string>, g: string, o: Outcome)
    requires IsWorst(worst, per, gates) && (forall h :: h in per ==> h in gates && per[h].state != NotRecorded)
    requires o.state != NotRecorded && (g in per ==> per[g] == o) && (g !in per ==> g !in gates)
    ensures IsWorst(if Rank(o.state) > Rank(worst) then o.state else worst, per[g := o], gates + [g])
  {
    var all, more := gates + [g], per[g := o];
    if worst.VerdictMoved? || worst.EvidenceMoved? {
      var k :| FirstMoved(per, gates, k) && per[gates[k]].state == worst;
      MovedStays(per, gates, g, o, k);
    } else if o.state.VerdictMoved? || o.state.EvidenceMoved? {
      assert g !in per && all[|gates|] == g;
      assert FirstMoved(more, all, |gates|);
    } else if worst == CannotCheck {
      var h :| h in per && per[h].state == CannotCheck;
      assert h in more && more[h].state == CannotCheck;
    } else if o.state == CannotCheck {
      assert g in more && more[g].state == CannotCheck;
    }
  }

  lemma MovedStays(per: map<string, Outcome>, gates: seq<string>, g: string, o: Outcome, k: int)
    requires FirstMoved(per, gates, k) && (forall h :: h in per ==> h in gates) && (g in per ==> per[g] == o)
    requires g !in per ==> g !in gates
    ensures FirstMoved(per[g := o], gates + [g], k) && per[g := o][gates[k]] == per[gates[k]]
  {
    var all := gates + [g];
    assert all[k] == gates[k];
    assert forall j :: 0 <= j < k ==> all[j] == gates[j];
  }

  /** A gate the row does not record has no part in it. */
  lemma WorstSkips(worst: State, per: map<string, Outcome>, gates: seq<string>, g: string)
    requires IsWorst(worst, per, gates) && g !in per
    ensures IsWorst(worst, per, gates + [g])
  {
    if worst.VerdictMoved? || worst.EvidenceMoved? {
      var k :| FirstMoved(per, gates, k) && per[gates[k]].state == worst;
      assert forall j :: 0 <= j <= k ==> (gates + [g])[j] == gates[j];
      assert FirstMoved(per, gates + [g], k);
    }
  }

  /** The worst of the gates the row records; a gate nobody measured is never read as agreement. */
  method Compare(masking: Fields, today: map<string, Measured>, verdictClass: Json -> string, gates: seq<string>)
    returns (worst: State, per: map<string, Outcome>)
    ensures per.Keys == set g | g in gates && g in masking
    ensures forall g :: g in per ==> per[g] == GateOutcome(masking, today, g, verdictClass)
    ensures IsWorst(worst, per, gates)
    ensures worst == Agrees <==>
            forall g :: g in gates && g in masking ==>
              g in today && CompareGate(masking, g, today[g].verdict, today[g].evidence, verdictClass).state == Agrees
    ensures worst == CannotCheck <==>
            && (exists g :: g in gates && g in masking && g !in today)
            && forall g :: g in gates && g in masking && g in today ==>
                 CompareGate(masking, g, today[g].verdict, today[g].evidence, verdictClass).state == Agrees
  {
    worst, per := Agrees, map[];
    for k := 0 to |gates|
      invariant per.Keys == set g | g in gates[..k] && g in masking
      invariant forall g :: g in per ==> per[g] == GateOutcome(masking, today, g, verdictClass)
      invariant IsWorst(worst, per, gates[..k])
    {
      var g := gates[k];
      assert gates[..k + 1] == gates[..k] + [g];
      if g in masking {
        var o := GateOutcome(masking, today, g, verdictClass);
        WorstNext(worst, per, gates[..k], g, o);
        per := per[g := o];
        if Rank(o.state) > Rank(worst) {
          worst := o.state;
        }
      } else {
        WorstSkips(worst, per, gates[..k], g);
      }
    }
    assert gates[..|gates|] == gates;
    ComparedIff(masking, today, verdictClass, gates, worst, per);
  }

  lemma ComparedIff(masking: Fields, today: map<string, Measured>, verdictClass: Json -> string, gates: seq<string>,
                    worst: State, per: map<string, Outcome>)
    requires per.Keys == (set g | g in gates && g in masking) && IsWorst(worst, per, gates)
    requires forall g :: g in per ==> per[g] == GateOutcome(masking, today, g, verdictClass)
    ensures worst == Agrees <==>
            forall g :: g in gates && g in masking ==>
              g in today && CompareGate(masking, g, today[g].verdict, today[g].evidence, verdictClass).state == Agrees
    ensures worst == CannotCheck <==>
            && (exists g :: g in gates && g in masking && g !in today)
            && forall g :: g in gates && g in masking && g in today ==>
                 CompareGate(masking, g, today[g].verdict, today[g].evidence, verdictClass).state == Agrees
  {
    forall g ensures g in gates && g in masking <==> g in per {
    }
    forall g | g in per ensures per[g].state != NotRecorded && (per[g].state == CannotCheck <==> g !in today) {
    }
    WorstIsOfOne(worst, per, gates);
  }

  /** The worst is what it is of some gate, and agreement of all. */
  lemma WorstIsOfOne(worst: State, per: map<string, Outcome>, gates: seq<string>)
    requires IsWorst(worst, per, gates)
    ensures worst == Agrees <==> forall g :: g in per ==> per[g].state == Agrees
    ensures worst == CannotCheck <==>
            && (exists g :: g in per && per[g].state == CannotCheck)
            && forall g :: g in per ==> per[g].state in {Agrees, CannotCheck}
  {
    if worst.VerdictMoved? || worst.EvidenceMoved? {
      var k :| FirstMoved(per, gates, k) && per[gates[k]].state == worst;
      assert gates[k] in per;
    }
  }

  // ---------------------------------------------------------------- the repair

  /** The masking block as the repair would leave it. */
  function Repaired(masking: Fields, gate: string, verdict: Json, evidence: Json, verdictClass: Json -> string): Fields
    requires gate in masking && EvidenceKey(gate).Some?
  {
    var key := EvidenceKey(gate).value;
    var recorded := Recorded(masking, gate);
    var kept := masking - {"gate_categories"};
    var judged := if verdictClass(masking[gate]) != verdictClass(verdict) then kept[gate := verdict] else kept;
    match recorded
    case Null => judged - {key}
    case Obj(fields) =>
      if evidence.Obj? then judged[key := Obj(map k | k in fields :: Get(evidence.fields, k))]
      else if evidence.Null? then judged - {key} else judged[key := evidence]
    case _ => if evidence.Null? then judged - {key} else judged[key := evidence]
  }

  predicate SameFindingAfter(masking: Fields, gate: string, verdict: Json, evidence: Json, verdictClass: Json -> string)
    requires gate in masking && EvidenceKey(gate).Some?
  {
    FindingDigest(masking, gate) == FindingDigest(Repaired(masking, gate, verdict, evidence, verdictClass), gate)
  }

  /** An evidence block is recorded, and what it holds is an explicit null. */
  predicate RecordedNull(masking: Fields, gate: string)
    requires EvidenceKey(gate).Some?
  {
    EvidenceKey(gate).value in EvidenceFor(masking, gate) && Recorded(masking, gate).Null?
  }

  /** The recorded block holds only nulls, or nothing, and today there is no block at all. */
  predicate HollowAgainstNothing(masking: Fields, gate: string, evidence: Json) {
    var recorded := Recorded(masking, gate);
    recorded.Obj? && !evidence.Obj? && forall k :: k in recorded.fields ==> recorded.fields[k].Null?
  }

  lemma OneKey(masking: Fields, gate: string)
    requires gate in STAMPED_GATES
    ensures EvidenceKey(gate).Some?
    ensures var key := EvidenceKey(gate).value;
            && EvidenceKeys(gate) == [key] && key != gate && key != "gate_categories" && gate != "gate_categories"
            && key != "provenance"
            && EvidenceFor(masking, gate)
            == if key in masking then map[key := masking[key]]
               else if key in ObjectAt(masking, "gate_categories") then map[key := ObjectAt(masking, "gate_categories")[key]]
               else map[]
  {
    var key := EvidenceKey(gate).value;
    assert EvidenceKeys(gate)[1..] == [];
    assert Evidence(masking, []) == map[];
  }

  /** The evidence of the repaired block, case by case. */
  lemma RepairedEvidence(masking: Fields, gate: string, verdict: Json, evidence: Json, verdictClass: Json -> string)
    requires gate in STAMPED_GATES && gate in masking
    ensures EvidenceKey(gate).Some?
    ensures var key, recorded := EvidenceKey(gate).value, Recorded(masking, gate);
            EvidenceFor(Repaired(masking, gate, verdict, evidence, verdictClass), gate)
            == if recorded.Null? then map[]
               else if recorded.Obj? && evidence.Obj? then map[key := Obj(map k | k in recorded.fields :: Get(evidence.fields, k))]
               else if evidence.Null? then map[] else map[key := evidence]
  {
    OneKey(masking, gate);
    OneKey(Repaired(masking, gate, verdict, evidence, verdictClass), gate);
  }

  lemma SameEvidenceIff(masking: Fields, gate: string, verdict: Json, evidence: Json, verdictClass: Json -> string)
    requires gate in STAMPED_GATES && gate in masking
    ensures EvidenceKey(gate).Some?
    ensures EvidenceFor(Repaired(masking, gate, verdict, evidence, verdictClass), gate) == EvidenceFor(masking, gate)
       <==> && MovedFields(Recorded(masking, gate), evidence) == {}
            && !RecordedNull(masking, gate) && !HollowAgainstNothing(masking, gate, evidence)
  {
    OneKey(masking, gate);
    RepairedEvidence(masking, gate, verdict, evidence, verdictClass);
    var key, was, recorded := EvidenceKey(gate).value, EvidenceFor(masking, gate), Recorded(masking, gate);
    if !recorded.Null? {
      assert was == map[key := recorded];
      if recorded.Obj? && evidence.Obj? {
        SameFieldsIff(key, recorded, evidence);
      } else if recorded.Obj? {
        HollowIff(recorded, evidence);
        assert was != map[];
        assert map[key := evidence][key] == evidence && was[key] == recorded;
      } else {
        assert was != map[];
        assert map[key := evidence][key] == evidence && was[key] == recorded;
        assert WHOLE in {WHOLE};
      }
    }
  }

  lemma SameFieldsIff(key: string, recorded: Json, evidence: Json)
    requires recorded.Obj? && evidence.Obj?
    ensures map[key := Obj(map k | k in recorded.fields :: Get(evidence.fields, k))] == map[key := recorded]
       <==> MovedFields(recorded, evidence) == {}
  {
    var remade := map k | k in recorded.fields :: Get(evidence.fields, k);
    var moved := MovedFields(recorded, evidence);
    assert map[key := Obj(remade)][key] == Obj(remade) && map[key := recorded][key] == recorded;
    if moved == {} {
      forall k | k in recorded.fields ensures remade[k] == recorded.fields[k] {
        assert k !in moved;
      }
      assert remade == recorded.fields;
    } else {
      var k :| k in moved;
      assert remade[k] != recorded.fields[k];
    }
  }

  lemma HollowIff(recorded: Json, evidence: Json)
    requires recorded.Obj? && !evidence.Obj?
    ensures MovedFields(recorded, evidence) == {} <==> forall k :: k in recorded.fields ==> recorded.fields[k].Null?
  {
    var moved := MovedFields(recorded, evidence);
    forall k | k in recorded.fields ensures k in moved <==> !recorded.fields[k].Null? {
    }
    if k :| k in recorded.fields && !recorded.fields[k].Null? {
      assert k in moved;
    }
  }

  /**
    * The comparison and the digest agree: whatever keeps the digest is reported as
    * agreement, and agreement keeps the digest unless the record is an explicit null,
    * or a block of nothing but nulls measured as no block.
    */
  lemma SameFindingIff(masking: Fields, gate: string, verdict: Json, evidence: Json, verdictClass: Json -> string)
    requires gate in STAMPED_GATES && gate in masking
    ensures EvidenceKey(gate).Some?
    ensures SameFindingAfter(masking, gate, verdict, evidence, verdictClass)
       <==> && CompareGate(masking, gate, verdict, evidence, verdictClass).state == Agrees
            && !RecordedNull(masking, gate) && !HollowAgainstNothing(masking, gate, evidence)
  {
    var fixed := Repaired(masking, gate, verdict, evidence, verdictClass);
    DigestIsTheFinding(masking, fixed, gate);
    SameEvidenceIff(masking, gate, verdict, evidence, verdictClass);
  }

  /** A recorded `null`, and nothing measured: agreement is reported and the repair drops the key, so the digest moves. */
  lemma RecordedNullMovesTheDigest(verdictClass: Json -> string) returns (masking: Fields, gate: string, verdict: Json, evidence: Json)
    ensures gate in STAMPED_GATES && gate in masking && EvidenceKey(gate).Some? && RecordedNull(masking, gate)
    ensures CompareGate(masking, gate, verdict, evidence, verdictClass).state == Agrees
    ensures !SameFindingAfter(masking, gate, verdict, evidence, verdictClass)
  {
    gate, verdict, evidence := "plaintext_gate", Str("clean"), Null;
    masking := map[gate := verdict, "plaintext_finding" := Null];
    assert Recorded(masking, gate) == Null;
    SameFindingIff(masking, gate, verdict, evidence, verdictClass);
  }

  /** A recorded block of nothing but nulls, and no block measured: again agreement, and again the digest moves. */
  lemma HollowBlockMovesTheDigest(verdictClass: Json -> string) returns (masking: Fields, gate: string, verdict: Json, evidence: Json)
    ensures gate in STAMPED_GATES && gate in masking && EvidenceKey(gate).Some? && HollowAgainstNothing(masking, gate, evidence)
    ensures CompareGate(masking, gate, verdict, evidence, verdictClass).state == Agrees
    ensures !SameFindingAfter(masking, gate, verdict, evidence, verdictClass)
  {
    gate, verdict, evidence := "plaintext_gate", Str("clean"), Null;
    masking := map[gate := verdict, "plaintext_finding" := Obj(map["count" := Null])];
    assert Recorded(masking, gate) == Obj(map["count" := Null]);
    HollowIff(Recorded(masking, gate), evidence);
    SameFindingIff(masking, gate, verdict, evidence, verdictClass);
  }

  /** So a repair that keeps the finding, re-stamped under the same pin, keeps every clearance of that gate. */
  lemma RepairKeepsClearance(row: Fields, gate: string, verdict: Json, evidence: Json, verdictClass: Json -> string,
                             stamp: Json, c: Json)
    requires gate in STAMPED_GATES && Applies(c, row, gate)
    ensures EvidenceKey(gate).Some?
    ensures var m := ObjectAt(row, "masking");
            var fixed := Repaired(m, gate, verdict, evidence, verdictClass)["provenance" := stamp];
            ProvKey(stamp) == ProvKey(Get(m, "provenance")) ==>
              (Applies(c, row["masking" := Obj(fixed)], gate) <==> SameFindingAfter(m, gate, verdict, evidence, verdictClass))
  {
    var m := ObjectAt(row, "masking");
    OneKey(m, gate);
    var repaired := Repaired(m, gate, verdict, evidence, verdictClass);
    var fixed := repaired["provenance" := stamp];
    var after := row["masking" := Obj(fixed)];
    OneKey(repaired, gate);
    OneKey(fixed, gate);
    assert ObjectAt(after, "masking") == fixed;
    AppliesIffUnmoved(c, row, after, gate);
    DigestIsTheFinding(m, repaired, gate);
    assert SameFinding(m, fixed, gate) == SameFinding(m, repaired, gate);
  }
}
