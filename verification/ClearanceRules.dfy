/** When a clearance clears a gate, read off the keys of the clearance and of the row. */
module ClearanceRules {
  import opened Clearance
  import opened JsonValues
  import opened Prelude

  // ---------------------------------------------------------------- the parts

  /** `o.get(k)` is `v`. */
  ghost predicate ReadsAs(o: Fields, k: string, v: Json) {
    if k in o then o[k] == v else v == Null
  }

  ghost predicate ReadAlike(o: Fields, p: Fields, k: string) {
    (if k in o then o[k] else Null) == (if k in p then p[k] else Null)
  }

  ghost predicate IsGate(gate: string) {
    gate in {"plaintext_gate", "encoded_layer_gate", "secret_gate", "detection_survived"}
  }

  /** Some character is not white space. */
  ghost predicate HasText(s: string) {
    exists i :: 0 <= i < |s| && s[i] as int !in {9, 10, 11, 12, 13, 28, 29, 30, 31, 32}
  }

  ghost predicate HasTextAt(o: Fields, k: string) {
    k in o && (o[k].Digest? || (o[k].Str? && HasText(o[k].s)))
  }

  /** A value for `tools` that says something: neither null, false, zero nor empty. */
  ghost predicate IsStamp(j: Json) {
    j.Obj? && "tools" in j.fields && j.fields["tools"] !in {Null, Bool(false), Int(0), Str(""), Arr([]), Obj(map[])}
  }

  ghost predicate IsTagged(row: Fields) {
    && "sensitivity" in row
    && match row["sensitivity"]
       case Arr(items) => Str("pii") in items || Str("content") in items
       case Obj(fields) => "pii" in fields || "content" in fields
       case _ => false
  }

  ghost predicate IsMasking(row: Fields, m: Fields) {
    if "masking" in row && row["masking"].Obj? then m == row["masking"].fields else m == map[]
  }

  ghost predicate IsEvidenceKey(gate: string, k: string) {
    || (gate == "plaintext_gate" && k == "plaintext_finding")
    || (gate == "encoded_layer_gate" && k == "encoded_layer_finding")
    || (gate == "secret_gate" && k == "secret_literals")
    || (gate == "detection_survived" && (k == "rules_before" || k == "rules_after"))
  }

  ghost predicate InCategories(m: Fields, k: string) {
    "gate_categories" in m && m["gate_categories"].Obj? && k in m["gate_categories"].fields
  }

  /** What is recorded beside the verdict of a gate: in the masking block itself, or else among its categories. */
  ghost predicate IsEvidence(m: Fields, gate: string, e: Fields) {
    && (forall k :: k in e <==> IsEvidenceKey(gate, k) && (k in m || InCategories(m, k)))
    && forall k :: k in e ==> e[k] == if k in m then m[k] else if InCategories(m, k) then m["gate_categories"].fields[k] else Null
  }

  /** The digest of the verdict recorded for the gate and of the evidence beside it. */
  ghost predicate IsFindingDigest(m: Fields, gate: string, d: Json) {
    exists verdict, e :: ReadsAs(m, gate, verdict) && IsEvidence(m, gate, e)
                         && d == Digest(Obj(map["gate" := Str(gate), "result" := verdict, "evidence" := Obj(e)]))
  }

  /** Both are stamps of the same tools and map, or neither is an object. */
  ghost predicate SamePin(p: Json, q: Json) {
    if p.Obj? && q.Obj? then ReadAlike(p.fields, q.fields, "tools") && ReadAlike(p.fields, q.fields, "map")
    else !p.Obj? && !q.Obj?
  }

  ghost predicate AtItsPin(c: Json, m: Fields)
    requires c.Obj?
  {
    exists p, q :: ReadsAs(c.fields, "gate_provenance", p) && ReadsAs(m, "provenance", q) && SamePin(p, q)
  }

  // ---------------------------------------------------------------- clearing a gate

  /** A clearance of this very finding under the row's present pin, by someone, for a reason, on a row no tag forbids. */
  ghost predicate Clears(c: Json, row: Fields, gate: string) {
    && c.Obj? && IsGate(gate) && "gate" in c.fields && c.fields["gate"] == Str(gate)
    && HasTextAt(c.fields, "by") && HasTextAt(c.fields, "reason") && HasTextAt(c.fields, "at")
    && HasTextAt(c.fields, "finding_digest")
    && "gate_provenance" in c.fields && IsStamp(c.fields["gate_provenance"])
    && !IsTagged(row)
    && exists m :: IsMasking(row, m) && gate in m && IsFindingDigest(m, gate, c.fields["finding_digest"]) && AtItsPin(c, m)
  }

  lemma SaysIff(o: Fields, k: string)
    ensures SaysSomething(Get(o, k)) <==> HasTextAt(o, k)
    ensures HasTextAt(o, k) ==> Truthy(Get(o, k))
  {
    if k in o && o[k].Str? {
      BlankIff(o[k].s);
    }
  }

  lemma BlankIff(s: string)
    ensures IsBlank(s) <==> !HasText(s)
  {
    forall i | 0 <= i < |s| ensures IsSpace(s[i]) <==> s[i] as int in {9, 10, 11, 12, 13, 28, 29, 30, 31, 32} {
      SpaceIff(s[i]);
    }
  }

  lemma StampIff(j: Json)
    ensures IsStamp(j) <==> j.Obj? && Truthy(Get(j.fields, "tools"))
    ensures IsStamp(j) ==> Truthy(j)
  {
    if j.Obj? {
      TruthyIff(Get(j.fields, "tools"));
    }
  }

  lemma MalformedIff(c: Json)
    ensures !Malformed(c)
            <==> && c.Obj? && "gate" in c.fields && c.fields["gate"].Str? && IsGate(c.fields["gate"].s)
                 && HasTextAt(c.fields, "by") && HasTextAt(c.fields, "reason") && HasTextAt(c.fields, "at")
                 && HasTextAt(c.fields, "finding_digest")
                 && "gate_provenance" in c.fields && IsStamp(c.fields["gate_provenance"])
  {
    if c.Obj? {
      SaysIff(c.fields, "by");
      SaysIff(c.fields, "reason");
      SaysIff(c.fields, "at");
      SaysIff(c.fields, "finding_digest");
      StampIff(Get(c.fields, "gate_provenance"));
      assert REQUIRED == ["gate", "finding_digest", "by", "at", "reason", "gate_provenance"];
      assert forall k :: k in REQUIRED <==> k in {"gate", "finding_digest", "by", "at", "reason", "gate_provenance"};
    }
  }

  lemma TaggedIff(row: Fields)
    ensures NeverPublishable(row) <==> IsTagged(row)
  {
    assert "pii" in NEVER_CLEARABLE_TAGS && "content" in NEVER_CLEARABLE_TAGS;
  }

  lemma MaskingIs(row: Fields, m: Fields)
    ensures IsMasking(row, m) <==> m == ObjectAt(row, "masking")
  {
  }

  /** The evidence of a gate is looked up under its own keys, in the one place and then in the other. */
  lemma EvidenceIs(m: Fields, gate: string, e: Fields)
    ensures EvidenceFor(m, gate) == e <==> IsEvidence(m, gate, e)
  {
    var x := EvidenceFor(m, gate);
    EvidenceOf(m, EvidenceKeys(gate));
    assert forall k :: k in EvidenceKeys(gate) <==> IsEvidenceKey(gate, k);
    assert IsEvidence(m, gate, x);
    if IsEvidence(m, gate, e) {
      assert e.Keys == x.Keys;
    }
  }

  lemma {:induction false} EvidenceOf(m: Fields, keys: seq<string>)
    ensures var e := Evidence(m, keys);
            && (forall k :: k in e <==> k in keys && (k in m || InCategories(m, k)))
            && forall k :: k in e ==> e[k] == if k in m then m[k] else if InCategories(m, k) then m["gate_categories"].fields[k] else Null
  {
    if keys != [] {
      EvidenceOf(m, keys[1..]);
      assert forall k :: k in keys <==> k == keys[0] || k in keys[1..];
    }
  }

  lemma DigestIff(m: Fields, gate: string, d: Json)
    ensures FindingDigest(m, gate) == d <==> IsFindingDigest(m, gate, d)
  {
    EvidenceIs(m, gate, EvidenceFor(m, gate));
    if FindingDigest(m, gate) == d {
      assert ReadsAs(m, gate, Get(m, gate)) && IsEvidence(m, gate, EvidenceFor(m, gate));
    }
    if IsFindingDigest(m, gate, d) {
      var verdict, e :| ReadsAs(m, gate, verdict) && IsEvidence(m, gate, e)
                        && d == Digest(Obj(map["gate" := Str(gate), "result" := verdict, "evidence" := Obj(e)]));
      EvidenceIs(m, gate, e);
      assert verdict == Get(m, gate);
    }
  }

  lemma PinIff(p: Json, q: Json)
    ensures ProvKey(p) == ProvKey(q) <==> SamePin(p, q)
  {
    if p.Obj? && q.Obj? {
      ProvKeyParts(p, q);
    }
  }

  lemma AtItsPinIff(c: Json, m: Fields)
    requires c.Obj?
    ensures AtItsPin(c, m) <==> ProvKey(Get(c.fields, "gate_provenance")) == ProvKey(Get(m, "provenance"))
  {
    var p, q := Get(c.fields, "gate_provenance"), Get(m, "provenance");
    PinIff(p, q);
    assert ReadsAs(c.fields, "gate_provenance", p) && ReadsAs(m, "provenance", q);
  }

  /** A clearance applies exactly when it clears the gate. */
  lemma AppliesIff(c: Json, row: Fields, gate: string)
    ensures Applies(c, row, gate) <==> Clears(c, row, gate)
  {
    var m := ObjectAt(row, "masking");
    MalformedIff(c);
    TaggedIff(row);
    MaskingIs(row, m);
    if c.Obj? && "finding_digest" in c.fields {
      DigestIff(m, gate, c.fields["finding_digest"]);
      AtItsPinIff(c, m);
    }
    forall n | IsMasking(row, n) ensures n == m {
      MaskingIs(row, n);
    }
  }

  /** The clearances a row records: its list, or none where no list is. */
  ghost predicate AreClearances(row: Fields, cs: seq<Json>) {
    if "clearances" in row && row["clearances"].Arr? then cs == row["clearances"].items else cs == []
  }

  /** The clearance found for a gate is the first of the row's that clears it. */
  lemma ApplicableIff(row: Fields, gate: string, cs: seq<Json>, i: nat)
    requires AreClearances(row, cs) && i < |cs|
    ensures Applicable(row, gate) == None <==> forall k :: 0 <= k < |cs| ==> !Clears(cs[k], row, gate)
    ensures Clears(cs[i], row, gate) && (forall k :: 0 <= k < i ==> !Clears(cs[k], row, gate)) ==> Applicable(row, gate) == Some(cs[i])
  {
    forall k | 0 <= k < |cs| ensures Applies(cs[k], row, gate) <==> Clears(cs[k], row, gate) {
      AppliesIff(cs[k], row, gate);
    }
    if Clears(cs[i], row, gate) && forall k :: 0 <= k < i ==> !Clears(cs[k], row, gate) {
      FirstIsThat(cs, row, gate, i);
    }
  }

  lemma {:induction false} FirstIsThat(cs: seq<Json>, row: Fields, gate: string, i: nat)
    requires i < |cs| && Applies(cs[i], row, gate) && forall k :: 0 <= k < i ==> !Applies(cs[k], row, gate)
    ensures FirstApplying(cs, row, gate) == Some(cs[i])
  {
    if i > 0 {
      FirstIsThat(cs[1..], row, gate, i - 1);
    }
  }
}
