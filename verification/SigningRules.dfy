/** When a clearance is signed and what it then holds, read off the keys of the records. */
module SigningRules {
  import opened ClearFinding
  import opened Clearance
  import opened ClearanceRules
  import opened JsonValues
  import opened Prelude

  // ---------------------------------------------------------------- the reasons to refuse

  ghost predicate OverTheFinding(c: Json, m: Fields, gate: string) {
    && c.Obj? && "gate" in c.fields && c.fields["gate"] == Str(gate)
    && exists d :: ReadsAs(c.fields, "finding_digest", d) && IsFindingDigest(m, gate, d)
  }

  /** A clearance of the finding the row records now, under the pin it records now. */
  ghost predicate Judges(c: Json, m: Fields, gate: string) {
    OverTheFinding(c, m, gate) && AtItsPin(c, m)
  }

  /** The stamp is there, its tools are those of now, and its map is that of now where the maps are present. */
  ghost predicate IsCurrent(m: Fields, now: Current) {
    && "provenance" in m && IsStamp(m["provenance"]) && m["provenance"].fields["tools"] == Str(now.tools)
    && (now.maps.Some? ==> ReadsAs(m["provenance"].fields, "map", now.maps.value))
  }

  /** The reasons to refuse, in the order they are looked at. */
  ghost predicate Stands(n: nat, row: Fields, q: Request, m: Fields, cs: seq<Json>) {
    || (n == 0 && !IsGate(q.gate))
    || (n == 1 && !HasText(q.author))
    || (n == 2 && !HasText(q.reasonedBy))
    || (n == 3 && !HasText(q.reason))
    || (n == 4 && IsTagged(row))
    || (n == 5 && q.gate !in m)
    || (n == 6 && q.gate in m && q.passes(m[q.gate], q.gate))
    || (n == 7 && !IsCurrent(m, q.now))
    || (n == 8 && q.namesCustomer(q.reason))
    || (n == 9 && exists i :: 0 <= i < |cs| && Judges(cs[i], m, q.gate))
  }

  ghost predicate FirstToStand(n: nat, row: Fields, q: Request, m: Fields, cs: seq<Json>) {
    Stands(n, row, q, m, cs) && forall k: nat :: k < n ==> !Stands(k, row, q, m, cs)
  }

  /** What is answered when the reason `n` is the first to stand. */
  ghost predicate Tells(why: Refusal, n: nat, m: Fields, cs: seq<Json>, gate: string) {
    match why
    case NotAGate => n == 0
    case NoAuthor => n == 1
    case NoReasonedBy => n == 2
    case NoReason => n == 3
    case Unpublishable => n == 4
    case NoResult => n == 5
    case Passed => n == 6
    case Provenance(state) => n == 7 && state == if "provenance" in m && IsStamp(m["provenance"]) then Stale else Absent
    case NamesACustomer => n == 8
    case Duplicate(author) => n == 9 && exists i :: 0 <= i < |cs| && ByFirstJudge(i, author, m, cs, gate)
  }

  /** The author of the first clearance that judges the finding already. */
  ghost predicate ByFirstJudge(i: int, author: Json, m: Fields, cs: seq<Json>, gate: string)
    requires 0 <= i < |cs|
  {
    Judges(cs[i], m, gate) && (forall k :: 0 <= k < i ==> !Judges(cs[k], m, gate)) && ReadsAs(cs[i].fields, "by", author)
  }

  // ---------------------------------------------------------------- the two agree

  lemma CurrentIff(m: Fields, now: Current)
    ensures IsCurrent(m, now) <==> VerifyProvenance(Get(m, "provenance"), now) == Ok
    ensures VerifyProvenance(Get(m, "provenance"), now) == Absent <==> !("provenance" in m && IsStamp(m["provenance"]))
  {
    StampIff(Get(m, "provenance"));
  }

  lemma OverFindingIff(c: Json, m: Fields, gate: string)
    ensures OverFinding(c, gate, FindingDigest(m, gate)) <==> OverTheFinding(c, m, gate)
  {
    if c.Obj? {
      var d := Get(c.fields, "finding_digest");
      DigestIff(m, gate, d);
      assert ReadsAs(c.fields, "finding_digest", d);
    }
  }

  lemma JudgesIff(c: Json, m: Fields, gate: string)
    ensures IsDuplicate(c, gate, FindingDigest(m, gate), Pin(m)) <==> Judges(c, m, gate)
  {
    OverFindingIff(c, m, gate);
    if c.Obj? {
      AtItsPinIff(c, m);
    }
  }

  lemma RefuseIff(row: Fields, q: Request, m: Fields, cs: seq<Json>)
    requires IsMasking(row, m)
    ensures Refuse(row, q).None? <==> forall n: nat :: n < 9 ==> !Stands(n, row, q, m, cs)
    ensures Refuse(row, q).Some? ==>
              exists n: nat :: n < 9 && FirstToStand(n, row, q, m, cs) && Tells(Refuse(row, q).value, n, m, cs, q.gate)
  {
    MaskingIs(row, m);
    TaggedIff(row);
    CurrentIff(m, q.now);
    BlankIff(q.author);
    BlankIff(q.reasonedBy);
    BlankIff(q.reason);
    assert q.gate in CLEARABLE_GATES <==> IsGate(q.gate);
    if Refuse(row, q).Some? {
      var n: nat := match Refuse(row, q).value
        case NotAGate => 0
        case NoAuthor => 1
        case NoReasonedBy => 2
        case NoReason => 3
        case Unpublishable => 4
        case NoResult => 5
        case Passed => 6
        case Provenance(_) => 7
        case _ => 8;
      assert FirstToStand(n, row, q, m, cs) && Tells(Refuse(row, q).value, n, m, cs, q.gate);
    }
  }

  lemma {:induction false} FirstDuplicateAt(cs: seq<Json>, gate: string, digest: Json, pin: Json) returns (i: nat)
    ensures FirstDuplicate(cs, gate, digest, pin).Some? ==>
              && i < |cs| && FirstDuplicate(cs, gate, digest, pin) == Some(cs[i])
              && forall k :: 0 <= k < i ==> !IsDuplicate(cs[k], gate, digest, pin)
  {
    i := 0;
    if cs != [] && !IsDuplicate(cs[0], gate, digest, pin) {
      i := FirstDuplicateAt(cs[1..], gate, digest, pin);
      i := i + 1;
      assert forall k :: 0 < k < |cs| ==> cs[k] == cs[1..][k - 1];
    }
  }

  /** A clearance is signed if and only if no reason to refuse stands; a refusal tells the first that does. */
  lemma SignedIff(row: Fields, q: Request, m: Fields, cs: seq<Json>)
    requires IsMasking(row, m) && AreClearances(row, cs)
    ensures Built(row, q).Signed? <==> forall n: nat :: !Stands(n, row, q, m, cs)
    ensures Built(row, q).Refused? ==> exists n: nat :: FirstToStand(n, row, q, m, cs) && Tells(Built(row, q).why, n, m, cs, q.gate)
  {
    MaskingIs(row, m);
    RefuseIff(row, q, m, cs);
    forall i | 0 <= i < |cs| ensures IsDuplicate(cs[i], q.gate, FindingDigest(m, q.gate), Pin(m)) <==> Judges(cs[i], m, q.gate) {
      JudgesIff(cs[i], m, q.gate);
    }
    var i := FirstDuplicateAt(cs, q.gate, FindingDigest(m, q.gate), Pin(m));
    if Built(row, q).Refused? && Refuse(row, q).None? {
      assert ByFirstJudge(i, Built(row, q).why.author, m, cs, q.gate);
      assert FirstToStand(9, row, q, m, cs) && Tells(Built(row, q).why, 9, m, cs, q.gate);
    }
  }

  // ---------------------------------------------------------------- what is signed

  /** What stands between the white space at both ends. */
  ghost predicate IsTrimmed(t: Json, s: string) {
    exists i: nat, j: nat :: TrimmedAt(s, i, j) && t == Str(s[i..j])
  }

  /** Every key of a clearance, but the one it supersedes. */
  ghost predicate IsSigned(c: Fields, q: Request, m: Fields) {
    && c.Keys - {"supersedes"} == {"gate", "finding_digest", "by", "reasoned_by", "at", "reason", "gate_provenance"}
    && c["gate"] == Str(q.gate) && IsFindingDigest(m, q.gate, c["finding_digest"]) && c["at"] == Str(q.at)
    && IsTrimmed(c["by"], q.author) && IsTrimmed(c["reasoned_by"], q.reasonedBy) && IsTrimmed(c["reason"], q.reason)
    && IsPinOf(c["gate_provenance"], m)
  }

  /** The tools and the map of the stamp the row records, and nothing else of it. */
  ghost predicate IsPinOf(pin: Json, m: Fields) {
    pin.Obj? && pin.fields.Keys == {"tools", "map"} && exists p :: ReadsAs(m, "provenance", p) && SamePin(pin, p)
  }

  /** It supersedes the last clearance over the same finding, by date, author and pin, and nothing where there is none. */
  ghost predicate SupersedesLast(c: Fields, m: Fields, cs: seq<Json>, gate: string) {
    && ("supersedes" in c <==> exists i :: 0 <= i < |cs| && OverTheFinding(cs[i], m, gate))
    && forall i :: 0 <= i < |cs| && OverTheFinding(cs[i], m, gate) && (forall k :: i < k < |cs| ==> !OverTheFinding(cs[k], m, gate))
         ==> c["supersedes"].Obj? && c["supersedes"].fields.Keys == {"at", "by", "gate_provenance"}
             && forall k :: k in {"at", "by", "gate_provenance"} ==> ReadAlike(c["supersedes"].fields, cs[i].fields, k)
  }

  lemma {:induction false} LastOverIs(cs: seq<Json>, gate: string, digest: Json, i: nat)
    requires i < |cs| && OverFinding(cs[i], gate, digest) && forall k :: i < k < |cs| ==> !OverFinding(cs[k], gate, digest)
    ensures LastOver(cs, gate, digest) == Some(cs[i])
  {
    if i < |cs| - 1 {
      LastOverIs(cs[..|cs| - 1], gate, digest, i);
    }
  }

  lemma StrippedIsTrimmed(s: string)
    ensures IsTrimmed(Str(Strip(s)), s)
  {
    var i, j := StripTrims(s);
  }

  lemma NewHasItsKeys(row: Fields, q: Request)
    ensures NewClearance(row, q).Keys == {"gate", "finding_digest", "by", "reasoned_by", "at", "reason", "gate_provenance"}
  {
  }

  lemma ReadIsSigned(n: Fields, q: Request, m: Fields)
    requires n.Keys == {"gate", "finding_digest", "by", "reasoned_by", "at", "reason", "gate_provenance"}
    requires Get(n, "gate") == Str(q.gate) && IsFindingDigest(m, q.gate, Get(n, "finding_digest")) && Get(n, "at") == Str(q.at)
    requires IsTrimmed(Get(n, "by"), q.author) && IsTrimmed(Get(n, "reasoned_by"), q.reasonedBy)
    requires IsTrimmed(Get(n, "reason"), q.reason) && IsPinOf(Get(n, "gate_provenance"), m)
    ensures IsSigned(n, q, m) && "supersedes" !in n
  {
    assert n.Keys - {"supersedes"} == n.Keys;
    assert forall k :: k in n.Keys ==> n[k] == Get(n, k);
  }

  lemma NewIsSigned(row: Fields, q: Request, m: Fields)
    requires IsMasking(row, m) && Pin(m).Obj?
    ensures IsSigned(NewClearance(row, q), q, m) && "supersedes" !in NewClearance(row, q)
  {
    MaskingIs(row, m);
    NewHasItsKeys(row, q);
    NewClearanceFields(row, q);
    DigestIff(m, q.gate, FindingDigest(m, q.gate));
    StrippedIsTrimmed(q.author);
    StrippedIsTrimmed(q.reasonedBy);
    StrippedIsTrimmed(q.reason);
    PinIsOf(m);
    ReadIsSigned(NewClearance(row, q), q, m);
  }

  lemma PinIsOf(m: Fields)
    requires Pin(m).Obj?
    ensures IsPinOf(Pin(m), m)
  {
    var p := Get(m, "provenance");
    assert ReadsAs(m, "provenance", p) && SamePin(Pin(m), p);
  }

  lemma SupersededReads(c: Json)
    requires c.Obj?
    ensures var s := Supersedes(c).fields;
            s.Keys == {"at", "by", "gate_provenance"} && forall k :: k in s.Keys ==> ReadAlike(s, c.fields, k)
  {
  }

  lemma SignedWithMore(n: Fields, q: Request, m: Fields, s: Json)
    requires IsSigned(n, q, m)
    ensures IsSigned(n["supersedes" := s], q, m)
  {
    var c := n["supersedes" := s];
    assert c.Keys - {"supersedes"} == n.Keys - {"supersedes"};
    assert forall k :: k in n.Keys - {"supersedes"} ==> c[k] == n[k];
  }

  lemma SupersedesIs(row: Fields, q: Request, m: Fields, cs: seq<Json>, c: Fields)
    requires c == match LastOver(cs, q.gate, FindingDigest(m, q.gate))
                  case Some(last) => NewClearance(row, q)["supersedes" := Supersedes(last)]
                  case None => NewClearance(row, q)
    ensures SupersedesLast(c, m, cs, q.gate)
  {
    var d := FindingDigest(m, q.gate);
    var last := LastOver(cs, q.gate, d);
    NewHasItsKeys(row, q);
    forall i | 0 <= i < |cs| ensures OverFinding(cs[i], q.gate, d) <==> OverTheFinding(cs[i], m, q.gate) {
      OverFindingIff(cs[i], m, q.gate);
    }
    forall i | 0 <= i < |cs| && OverTheFinding(cs[i], m, q.gate) && (forall k :: i < k < |cs| ==> !OverTheFinding(cs[k], m, q.gate))
      ensures last == Some(cs[i])
    {
      LastOverIs(cs, q.gate, d, i);
    }
    if last.Some? {
      SupersededReads(last.value);
    }
  }

  /** What is signed holds what was asked for, over the finding and the pin the row records now. */
  lemma SignedHolds(row: Fields, q: Request, m: Fields, cs: seq<Json>, c: Json)
    requires IsMasking(row, m) && AreClearances(row, cs) && Built(row, q) == Signed(c)
    ensures c.Obj? && IsSigned(c.fields, q, m) && SupersedesLast(c.fields, m, cs, q.gate)
  {
    MaskingIs(row, m);
    PinIsStamped(row, q);
    NewIsSigned(row, q, m);
    SupersedesIs(row, q, m, cs, c.fields);
    var last := LastOver(cs, q.gate, FindingDigest(m, q.gate));
    if last.Some? {
      SignedWithMore(NewClearance(row, q), q, m, Supersedes(last.value));
    }
  }

  // ---------------------------------------------------------------- the backfill

  /** A backfill records who drafted it on the clearances that clear their own gate and do not say, and changes nothing else. */
  lemma BackfilledAt(row: Fields, reasonedBy: string, cs: seq<Json>, i: nat)
    requires AreClearances(row, cs) && i < |cs|
    ensures var after, c := Backfilled(row, reasonedBy), cs[i];
            var fills := && c.Obj? && "gate" in c.fields && c.fields["gate"].Str? && Clears(c, row, c.fields["gate"].s)
                         && ("reasoned_by" in c.fields ==> c.fields["reasoned_by"] in {Null, Bool(false), Int(0), Str(""), Arr([]), Obj(map[])});
            && (forall k :: k != "clearances" ==> ReadAlike(after, row, k))
            && exists ds :: AreClearances(after, ds) && |ds| == |cs|
                 && if fills then exists t :: IsTrimmed(t, reasonedBy) && ds[i] == Obj(c.fields["reasoned_by" := t]) else ds[i] == c
  {
    var c := cs[i];
    BackfilledClearances(row, reasonedBy);
    StrippedIsTrimmed(reasonedBy);
    assert AreClearances(Backfilled(row, reasonedBy), RowClearances(Backfilled(row, reasonedBy)));
    if c.Obj? {
      TruthyIff(Get(c.fields, "reasoned_by"));
      if "gate" in c.fields && c.fields["gate"].Str? {
        AppliesIff(c, row, c.fields["gate"].s);
      }
    }
  }
}
