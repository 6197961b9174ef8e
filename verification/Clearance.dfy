/**
  * Clearances: a human judgement keyed to one finding and one provenance pin, and
  * whether it clears a gate on a row as the row stands now.
  */
module Clearance {
  import opened Prelude
  import opened JsonValues

  const CLEARABLE_GATES: set<string> := {"plaintext_gate", "encoded_layer_gate", "secret_gate", "detection_survived"}
  const NEVER_CLEARABLE_TAGS: set<string> := {"pii", "content"}
  const REASONED_BY := "reasoned_by"

  function EvidenceKeys(gate: string): seq<string> {
    if gate == "plaintext_gate" then ["plaintext_finding"]
    else if gate == "encoded_layer_gate" then ["encoded_layer_finding"]
    else if gate == "secret_gate" then ["secret_literals"]
    else if gate == "detection_survived" then ["rules_before", "rules_after"]
    else []
  }

  /** `row.get(k) or {}` where an object is read from it. */
  function ObjectAt(o: Fields, k: string): Fields {
    if Get(o, k).Obj? then Get(o, k).fields else map[]
  }

  function Evidence(masking: Fields, keys: seq<string>): Fields {
    if keys == [] then map[]
    else
      var rest := Evidence(masking, keys[1..]);
      var cats := ObjectAt(masking, "gate_categories");
      if keys[0] in masking then rest[keys[0] := masking[keys[0]]]
      else if keys[0] in cats then rest[keys[0] := cats[keys[0]]]
      else rest
  }

  function EvidenceFor(masking: Fields, gate: string): Fields {
    Evidence(masking, EvidenceKeys(gate))
  }

  function FindingDigest(masking: Fields, gate: string): Json {
    Digest(Obj(map["gate" := Str(gate), "result" := Get(masking, gate), "evidence" := Obj(EvidenceFor(masking, gate))]))
  }

  /** The half of a stamp that is about the gate; null when there is no stamp. */
  function ProvKey(prov: Json): Json {
    if prov.Obj? then Obj(map["tools" := Get(prov.fields, "tools"), "map" := Get(prov.fields, "map")]) else Null
  }

  const REQUIRED: seq<string> := ["gate", "finding_digest", "by", "at", "reason", "gate_provenance"]

  predicate Malformed(c: Json) {
    || !c.Obj?
    || (exists k :: k in REQUIRED && !Truthy(Get(c.fields, k)))
    || !Get(c.fields, "gate").Str? || Get(c.fields, "gate").s !in CLEARABLE_GATES
    || !SaysSomething(Get(c.fields, "by")) || !SaysSomething(Get(c.fields, "reason"))
    || !SaysSomething(Get(c.fields, "at")) || !SaysSomething(Get(c.fields, "finding_digest"))
    || !Get(c.fields, "gate_provenance").Obj? || !Truthy(Get(Get(c.fields, "gate_provenance").fields, "tools"))
  }

  /** `set(row.get("sensitivity") or [])` meets the tags that are never publishable. */
  predicate NeverPublishable(row: Fields) {
    match Get(row, "sensitivity")
    case Arr(items) => exists t :: t in NEVER_CLEARABLE_TAGS && Str(t) in items
    case Obj(fields) => exists t :: t in NEVER_CLEARABLE_TAGS && t in fields
    case _ => false
  }

  predicate Applies(c: Json, row: Fields, gate: string) {
    var m := ObjectAt(row, "masking");
    && !Malformed(c)
    && Get(c.fields, "gate") == Str(gate)
    && !NeverPublishable(row)
    && gate in m
    && Get(c.fields, "finding_digest") == FindingDigest(m, gate)
    && ProvKey(Get(c.fields, "gate_provenance")) == ProvKey(Get(m, "provenance"))
  }

  function RowClearances(row: Fields): seq<Json> {
    if Get(row, "clearances").Arr? then Get(row, "clearances").items else []
  }

  function FirstApplying(cs: seq<Json>, row: Fields, gate: string): (r: Option<Json>)
    ensures r.Some? ==> r.value in cs && Applies(r.value, row, gate)
    ensures r.None? ==> forall c :: c in cs ==> !Applies(c, row, gate)
  {
    if cs == [] then None else if Applies(cs[0], row, gate) then Some(cs[0]) else FirstApplying(cs[1..], row, gate)
  }

  /** The first clearance on the row that clears the gate. */
  function Applicable(row: Fields, gate: string): Option<Json> {
    FirstApplying(RowClearances(row), row, gate)
  }

  // ---------------------------------------------------------------- what an answer depends on

  /** The two fields of a row an answer reads. */
  predicate SameJudged(row: Fields, other: Fields) {
    Get(row, "masking") == Get(other, "masking") && Get(row, "sensitivity") == Get(other, "sensitivity")
  }

  lemma AppliesReadsTwoFields(c: Json, row: Fields, other: Fields, gate: string)
    requires SameJudged(row, other)
    ensures Applies(c, row, gate) == Applies(c, other, gate)
  {
  }

  /** Two records a reader of `.get` cannot tell apart, but for `reasoned_by`. */
  ghost predicate SameButReasonedBy(x: Json, y: Json) {
    x.Obj? && y.Obj? && forall k :: k != REASONED_BY ==> Get(x.fields, k) == Get(y.fields, k)
  }

  /** Who drafted the argument has no part in whether it applies. */
  lemma ReasonedByIsNotJudged(x: Json, y: Json, row: Fields, gate: string)
    requires SameButReasonedBy(x, y)
    ensures Applies(x, row, gate) == Applies(y, row, gate)
  {
    assert forall k :: k in REQUIRED ==> Get(x.fields, k) == Get(y.fields, k);
  }

  /** The finding a digest is over: the recorded verdict and the evidence beside it. */
  predicate SameFinding(m: Fields, other: Fields, gate: string) {
    Get(m, gate) == Get(other, gate) && EvidenceFor(m, gate) == EvidenceFor(other, gate)
  }

  lemma DigestIsTheFinding(m: Fields, other: Fields, gate: string)
    ensures FindingDigest(m, gate) == FindingDigest(other, gate) <==> SameFinding(m, other, gate)
  {
    var a := map["gate" := Str(gate), "result" := Get(m, gate), "evidence" := Obj(EvidenceFor(m, gate))];
    var b := map["gate" := Str(gate), "result" := Get(other, gate), "evidence" := Obj(EvidenceFor(other, gate))];
    assert a["result"] == Get(m, gate) && b["result"] == Get(other, gate);
    assert a["evidence"] == Obj(EvidenceFor(m, gate)) && b["evidence"] == Obj(EvidenceFor(other, gate));
  }

  lemma ProvKeyParts(p: Json, q: Json)
    requires p.Obj? && q.Obj?
    ensures ProvKey(p) == ProvKey(q)
       <==> Get(p.fields, "tools") == Get(q.fields, "tools") && Get(p.fields, "map") == Get(q.fields, "map")
  {
    var a := map["tools" := Get(p.fields, "tools"), "map" := Get(p.fields, "map")];
    var b := map["tools" := Get(q.fields, "tools"), "map" := Get(q.fields, "map")];
    assert a["tools"] == Get(p.fields, "tools") && b["tools"] == Get(q.fields, "tools");
    assert a["map"] == Get(p.fields, "map") && b["map"] == Get(q.fields, "map");
  }

  /**
    * Once it applied, a clearance applies to a later state of the row exactly when the
    * finding and the pin are what they were, the gate is still recorded and no tag forbids it.
    */
  lemma AppliesIffUnmoved(c: Json, row: Fields, later: Fields, gate: string)
    requires Applies(c, row, gate)
    ensures var m, n := ObjectAt(row, "masking"), ObjectAt(later, "masking");
            Applies(c, later, gate)
            <==> && !NeverPublishable(later) && gate in n && SameFinding(m, n, gate)
                 && ProvKey(Get(n, "provenance")) == ProvKey(Get(m, "provenance"))
  {
    DigestIsTheFinding(ObjectAt(row, "masking"), ObjectAt(later, "masking"), gate);
  }
}
