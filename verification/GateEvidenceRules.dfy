/** What one gate's comparison reports, and what the repair leaves, read off the keys of the masking block. */
module GateEvidenceRules {
  import opened Clearance
  import opened ClearanceRules
  import opened GateEvidence
  import opened JsonValues

  /** The evidence compared is recorded under the first key of its gate. */
  ghost predicate IsComparedKey(gate: string, k: string) {
    || (gate == "plaintext_gate" && k == "plaintext_finding")
    || (gate == "encoded_layer_gate" && k == "encoded_layer_finding")
    || (gate == "secret_gate" && k == "secret_literals")
    || (gate == "detection_survived" && k == "rules_before")
  }

  /** What is recorded, in the masking block or else among its categories; null where nothing is. */
  ghost predicate IsRecorded(m: Fields, gate: string, v: Json) {
    && (forall k :: IsComparedKey(gate, k) ==>
          v == if k in m then m[k] else if InCategories(m, k) then m["gate_categories"].fields[k] else Null)
    && ((forall k :: !IsComparedKey(gate, k)) ==> v == Null)
  }

  /** The recorded field `k` is not what is measured today. */
  ghost predicate HasMoved(recorded: Json, today: Json, k: string) {
    match recorded
    case Obj(fields) => k in fields && fields[k] != if today.Obj? && k in today.fields then today.fields[k] else Null
    case Null => false
    case _ => k == "<the finding itself>" && recorded != today
  }

  lemma RecordedIs(m: Fields, gate: string, v: Json)
    ensures Recorded(m, gate) == v <==> IsRecorded(m, gate, v)
  {
    assert forall k, l :: IsComparedKey(gate, k) && IsComparedKey(gate, l) ==> k == l;
    assert EvidenceKey(gate).Some? <==> exists k :: IsComparedKey(gate, k) by {
      assert EvidenceKey(gate).Some? ==> IsComparedKey(gate, EvidenceKey(gate).value);
    }
    if EvidenceKey(gate).Some? {
      var k := EvidenceKey(gate).value;
      assert IsComparedKey(gate, k) && IsEvidenceKey(gate, k);
      EvidenceIs(m, gate, EvidenceFor(m, gate));
    }
  }

  /**
    * Nothing is owed for a gate the row does not record. Otherwise the verdict's class is
    * looked at before the evidence, and every field that differs and every one measured but
    * not recorded is reported whatever the state.
    */
  lemma ComparedGateIs(m: Fields, gate: string, verdict: Json, today: Json, verdictClass: Json -> string, recorded: Json)
    requires IsRecorded(m, gate, recorded)
    ensures var o := CompareGate(m, gate, verdict, today, verdictClass);
            && (gate !in m <==> o.state == NotRecorded)
            && (gate in m ==>
                  && (o.state == VerdictMoved <==> verdictClass(m[gate]) != verdictClass(verdict))
                  && (o.state == EvidenceMoved
                      <==> verdictClass(m[gate]) == verdictClass(verdict) && exists k :: HasMoved(recorded, today, k))
                  && o.state != CannotCheck
                  && (forall k :: k in o.moved <==> HasMoved(recorded, today, k))
                  && forall k :: k in o.unrecorded <==> recorded.Obj? && today.Obj? && k in today.fields && k !in recorded.fields)
  {
    RecordedIs(m, gate, recorded);
    var moved := MovedFields(recorded, today);
    assert forall k :: k in moved <==> HasMoved(recorded, today, k);
    if k :| HasMoved(recorded, today, k) {
      assert k in moved;
    }
  }
}
