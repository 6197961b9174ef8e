/**
  * The only writer of clearances: signing one, the backfill of `reasoned_by`, and the
  * two assertions made before either is written.
  */
module ClearFinding {
  import opened Prelude
  import opened JsonValues
  import opened Clearance

  /** What the tools and the maps hash to now; no map digest where the maps are not present. */
  datatype Current = Current(tools: string, maps: Option<Json>)

  datatype State = Ok | Absent | Stale

  function VerifyProvenance(stored: Json, now: Current): State {
    if !stored.Obj? || !Truthy(Get(stored.fields, "tools")) then Absent
    else if Get(stored.fields, "tools") != Str(now.tools) then Stale
    else if now.maps.None? then Ok
    else if Get(stored.fields, "map") != now.maps.value then Stale
    else Ok
  }

  /** What is asked for, and the judgements made elsewhere: does a verdict pass, does a text name a customer. */
  datatype Request = Request(gate: string, author: string, reasonedBy: string, reason: string, at: string, now: Current,
                             passes: (Json, string) -> bool, namesCustomer: string -> bool)

  datatype Refusal =
    | NotAGate | NoAuthor | NoReasonedBy | NoReason | Unpublishable | NoResult | Passed
    | Provenance(state: State) | NamesACustomer | Duplicate(author: Json)

  datatype Answer = Signed(clearance: Json) | Refused(why: Refusal)

  // ---------------------------------------------------------------- signing

  /** A clearance over this very finding, whatever it was judged against. */
  predicate OverFinding(c: Json, gate: string, digest: Json) {
    c.Obj? && Get(c.fields, "gate") == Str(gate) && Get(c.fields, "finding_digest") == digest
  }

  function Pin(masking: Fields): Json {
    ProvKey(Get(masking, "provenance"))
  }

  predicate IsDuplicate(c: Json, gate: string, digest: Json, pin: Json) {
    OverFinding(c, gate, digest) && ProvKey(Get(c.fields, "gate_provenance")) == pin
  }

  /** Why nothing may be signed, short of a duplicate. */
  function Refuse(row: Fields, q: Request): Option<Refusal> {
    var m := ObjectAt(row, "masking");
    if q.gate !in CLEARABLE_GATES then Some(NotAGate)
    else if IsBlank(q.author) then Some(NoAuthor)
    else if IsBlank(q.reasonedBy) then Some(NoReasonedBy)
    else if IsBlank(q.reason) then Some(NoReason)
    else if NeverPublishable(row) then Some(Unpublishable)
    else if q.gate !in m then Some(NoResult)
    else if q.passes(m[q.gate], q.gate) then Some(Passed)
    else if VerifyProvenance(Get(m, "provenance"), q.now) != Ok then Some(Provenance(VerifyProvenance(Get(m, "provenance"), q.now)))
    else if q.namesCustomer(q.reason) then Some(NamesACustomer)
    else None
  }

  function Supersedes(c: Json): Json
    requires c.Obj?
  {
    Obj(map["at" := Get(c.fields, "at"), "by" := Get(c.fields, "by"), "gate_provenance" := Get(c.fields, "gate_provenance")])
  }

  function NewClearance(row: Fields, q: Request): Fields {
    var m := ObjectAt(row, "masking");
    map["gate" := Str(q.gate), "finding_digest" := FindingDigest(m, q.gate), "by" := Str(Strip(q.author)),
        REASONED_BY := Str(Strip(q.reasonedBy)), "at" := Str(q.at), "reason" := Str(Strip(q.reason)),
        "gate_provenance" := Pin(m)]
  }

  /** The first clearance that already judges this finding under this pin. */
  function FirstDuplicate(cs: seq<Json>, gate: string, digest: Json, pin: Json): (r: Option<Json>)
    ensures r.Some? ==> r.value in cs && IsDuplicate(r.value, gate, digest, pin)
    ensures r.None? ==> forall c :: c in cs ==> !IsDuplicate(c, gate, digest, pin)
  {
    if cs == [] then None
    else if IsDuplicate(cs[0], gate, digest, pin) then Some(cs[0])
    else FirstDuplicate(cs[1..], gate, digest, pin)
  }

  /** The last clearance over this finding. */
  function LastOver(cs: seq<Json>, gate: string, digest: Json): (r: Option<Json>)
    ensures r.Some? ==> r.value in cs && OverFinding(r.value, gate, digest)
    ensures r.None? ==> forall c :: c in cs ==> !OverFinding(c, gate, digest)
  {
    if cs == [] then None
    else if OverFinding(cs[|cs| - 1], gate, digest) then Some(cs[|cs| - 1])
    else LastOver(cs[..|cs| - 1], gate, digest)
  }

  function Built(row: Fields, q: Request): Answer {
    var m := ObjectAt(row, "masking");
    var digest, cs := FindingDigest(m, q.gate), RowClearances(row);
    var duplicate, superseded := FirstDuplicate(cs, q.gate, digest, Pin(m)), LastOver(cs, q.gate, digest);
    if Refuse(row, q).Some? then Refused(Refuse(row, q).value)
    else if duplicate.Some? then Refused(Duplicate(Get(duplicate.value.fields, "by")))
    else if superseded.Some? then Signed(Obj(NewClearance(row, q)["supersedes" := Supersedes(superseded.value)]))
    else Signed(Obj(NewClearance(row, q)))
  }

  /** Signs against the finding and the pin the row holds now; the last one over the same finding is superseded. */
  method Build(row: Fields, q: Request) returns (a: Answer)
    ensures a == Built(row, q)
  {
    var refusal := Refuse(row, q);
    if refusal.Some? {
      return Refused(refusal.value);
    }
    var m := ObjectAt(row, "masking");
    var digest, pin, cs := FindingDigest(m, q.gate), Pin(m), RowClearances(row);
    var superseded: Option<Json> := None;
    for i := 0 to |cs|
      invariant FirstDuplicate(cs, q.gate, digest, pin) == FirstDuplicate(cs[i..], q.gate, digest, pin)
      invariant superseded == LastOver(cs[..i], q.gate, digest)
      invariant superseded.Some? ==> superseded.value.Obj?
    {
      assert cs[..i + 1][..i] == cs[..i] && cs[i..][1..] == cs[i + 1..];
      if OverFinding(cs[i], q.gate, digest) {
        if ProvKey(Get(cs[i].fields, "gate_provenance")) == pin {
          return Refused(Duplicate(Get(cs[i].fields, "by")));
        }
        superseded := Some(cs[i]);
      }
    }
    assert cs[..|cs|] == cs;
    var c := NewClearance(row, q);
    if superseded.Some? {
      c := c["supersedes" := Supersedes(superseded.value)];
    }
    a := Signed(Obj(c));
  }

  lemma PinIsStamped(row: Fields, q: Request)
    requires Refuse(row, q).None?
    ensures var pin := Pin(ObjectAt(row, "masking"));
            pin.Obj? && Truthy(Get(pin.fields, "tools")) && ProvKey(pin) == pin
  {
  }

  lemma SignedIsReadable(row: Fields, q: Request, c: Json)
    requires Built(row, q) == Signed(c) && !IsBlank(q.at)
    ensures !Malformed(c) && Get(c.fields, "gate") == Str(q.gate) && Truthy(Get(c.fields, REASONED_BY))
    ensures Get(c.fields, "finding_digest") == FindingDigest(ObjectAt(row, "masking"), q.gate)
    ensures ProvKey(Get(c.fields, "gate_provenance")) == Pin(ObjectAt(row, "masking"))
  {
    PinIsStamped(row, q);
    NewClearanceIsReadable(row, q);
    SignedFields(row, q, c);
    SameFieldsSameReading(Obj(NewClearance(row, q)), c);
  }

  /** Only `supersedes` is ever added to what is built. */
  lemma SignedFields(row: Fields, q: Request, c: Json)
    requires Built(row, q) == Signed(c)
    ensures c.Obj? && forall k :: k != "supersedes" ==> Get(NewClearance(row, q), k) == Get(c.fields, k)
    ensures Refuse(row, q).None?
  {
  }

  lemma NewClearanceFields(row: Fields, q: Request)
    ensures var n, m := NewClearance(row, q), ObjectAt(row, "masking");
            && Get(n, "gate") == Str(q.gate) && Get(n, "finding_digest") == FindingDigest(m, q.gate)
            && Get(n, "by") == Str(Strip(q.author)) && Get(n, "reason") == Str(Strip(q.reason)) && Get(n, "at") == Str(q.at)
            && Get(n, REASONED_BY) == Str(Strip(q.reasonedBy)) && Get(n, "gate_provenance") == Pin(m)
  {
  }

  lemma NewClearanceIsReadable(row: Fields, q: Request)
    requires Refuse(row, q).None? && !IsBlank(q.at)
    ensures var n := NewClearance(row, q);
            && !Malformed(Obj(n)) && Get(n, "gate") == Str(q.gate) && Truthy(Get(n, REASONED_BY))
            && Get(n, "finding_digest") == FindingDigest(ObjectAt(row, "masking"), q.gate)
            && Get(n, "gate_provenance") == Pin(ObjectAt(row, "masking"))
  {
    PinIsStamped(row, q);
    StripSaysSomething(q.author);
    StripSaysSomething(q.reason);
    StripSaysSomething(q.reasonedBy);
    NewClearanceFields(row, q);
    assert q.at != "";
    ReadableFields(NewClearance(row, q), q.gate);
  }

  lemma ReadableFields(n: Fields, gate: string)
    requires Get(n, "gate") == Str(gate) && gate in CLEARABLE_GATES && gate != ""
    requires forall k :: k in {"by", "reason", "at", "finding_digest"} ==> SaysSomething(Get(n, k)) && Truthy(Get(n, k))
    requires Get(n, "gate_provenance").Obj? && Truthy(Get(Get(n, "gate_provenance").fields, "tools"))
    ensures !Malformed(Obj(n))
  {
    assert "tools" in Get(n, "gate_provenance").fields;
  }

  lemma SameFieldsSameReading(x: Json, y: Json)
    requires x.Obj? && y.Obj? && forall k :: k != "supersedes" ==> Get(x.fields, k) == Get(y.fields, k)
    ensures Malformed(x) == Malformed(y)
  {
    assert forall k :: k in REQUIRED ==> Get(x.fields, k) == Get(y.fields, k);
  }

  lemma {:induction false} StripSaysSomething(s: string)
    requires !IsBlank(s)
    ensures SaysSomething(Str(Strip(s))) && Truthy(Str(Strip(s)))
    decreases |s|
  {
    if IsSpace(s[0]) {
      StripSaysSomething(s[1..]);
    } else if IsSpace(s[|s| - 1]) {
      StripSaysSomething(s[..|s| - 1]);
    }
  }

  function WithClearance(row: Fields, c: Json): Fields {
    row["clearances" := Arr(RowClearances(row) + [c])]
  }

  /** A signed clearance clears its own gate at once, no other, and it is the one a reader finds. */
  lemma SignedAppliesAtOnce(row: Fields, q: Request, c: Json, other: string)
    requires Built(row, q) == Signed(c) && !IsBlank(q.at)
    ensures Applies(c, WithClearance(row, c), other) <==> other == q.gate
    ensures Applicable(row, q.gate) == None && Applicable(WithClearance(row, c), q.gate) == Some(c)
  {
    var after := WithClearance(row, c);
    SignedIsReadable(row, q, c);
    assert SameJudged(row, after);
    NoneApplied(row, q, c);
    FirstIsTheLast(RowClearances(row), c, after, q.gate);
  }

  lemma NoneApplied(row: Fields, q: Request, c: Json)
    requires Built(row, q) == Signed(c)
    ensures forall d :: d in RowClearances(row) ==> !Applies(d, row, q.gate)
  {
    var m := ObjectAt(row, "masking");
    assert FirstDuplicate(RowClearances(row), q.gate, FindingDigest(m, q.gate), Pin(m)).None?;
  }

  lemma {:induction false} FirstIsTheLast(cs: seq<Json>, c: Json, row: Fields, gate: string)
    requires (forall d :: d in cs ==> !Applies(d, row, gate)) && Applies(c, row, gate)
    ensures FirstApplying(cs + [c], row, gate) == Some(c)
  {
    if cs != [] {
      FirstIsTheLast(cs[1..], c, row, gate);
      assert (cs + [c])[1..] == cs[1..] + [c];
    }
  }

  // ---------------------------------------------------------------- backfilling

  /** An applying clearance that records nobody. */
  predicate Fillable(c: Json, row: Fields) {
    && c.Obj? && !Truthy(Get(c.fields, REASONED_BY))
    && Get(c.fields, "gate").Str? && Applies(c, row, Get(c.fields, "gate").s)
  }

  function Filled(c: Json, reasonedBy: string): Json
    requires c.Obj?
  {
    Obj(c.fields[REASONED_BY := Str(Strip(reasonedBy))])
  }

  function BackfillOne(c: Json, row: Fields, reasonedBy: string): Json {
    if Fillable(c, row) then Filled(c, reasonedBy) else c
  }

  function BackfillAll(cs: seq<Json>, row: Fields, reasonedBy: string): (r: seq<Json>)
    ensures |r| == |cs| && forall i :: 0 <= i < |cs| ==> r[i] == BackfillOne(cs[i], row, reasonedBy)
  {
    seq(|cs|, i requires 0 <= i < |cs| => BackfillOne(cs[i], row, reasonedBy))
  }

  function BackfilledTo(row: Fields, reasonedBy: string, k: nat): Fields
    requires k <= |RowClearances(row)|
  {
    var cs := RowClearances(row);
    if Get(row, "clearances").Arr? then row["clearances" := Arr(BackfillAll(cs, row, reasonedBy)[..k] + cs[k..])] else row
  }

  function Backfilled(row: Fields, reasonedBy: string): Fields {
    BackfilledTo(row, reasonedBy, |RowClearances(row)|)
  }

  lemma BackfillStarts(row: Fields, reasonedBy: string)
    ensures BackfilledTo(row, reasonedBy, 0) == row
  {
    var cs := RowClearances(row);
    assert BackfillAll(cs, row, reasonedBy)[..0] + cs[0..] == cs;
  }

  lemma BackfillStep(row: Fields, reasonedBy: string, k: nat)
    requires k < |RowClearances(row)|
    ensures var cs, so := RowClearances(row), BackfilledTo(row, reasonedBy, k);
            && |RowClearances(so)| == |cs| && RowClearances(so)[k] == cs[k] && Fillable(cs[k], so) == Fillable(cs[k], row)
            && BackfilledTo(row, reasonedBy, k + 1)
            == if Fillable(cs[k], row) then so["clearances" := Arr(RowClearances(so)[k := Filled(cs[k], reasonedBy)])] else so
  {
    var cs, so := RowClearances(row), BackfilledTo(row, reasonedBy, k);
    var all := BackfillAll(cs, row, reasonedBy);
    assert RowClearances(so) == all[..k] + cs[k..];
    assert (all[..k] + cs[k..])[k := all[k]] == all[..k + 1] + cs[k + 1..];
    if cs[k].Obj? && Get(cs[k].fields, "gate").Str? {
      AppliesReadsTwoFields(cs[k], row, so, Get(cs[k].fields, "gate").s);
    }
    if !Fillable(cs[k], row) {
      assert all[..k] + cs[k..] == all[..k + 1] + cs[k + 1..];
    }
  }

  /** The positions below `k` of the clearances a backfill fills. */
  ghost predicate FilledBelow(touched: seq<int>, row: Fields, k: nat)
    requires k <= |RowClearances(row)|
  {
    forall i :: i in touched <==> 0 <= i < k && Fillable(RowClearances(row)[i], row)
  }

  lemma FilledOneMore(touched: seq<int>, row: Fields, k: nat)
    requires k < |RowClearances(row)| && FilledBelow(touched, row, k)
    ensures FilledBelow(if Fillable(RowClearances(row)[k], row) then touched + [k] else touched, row, k + 1)
  {
  }

  /** One clearance of the copied row: filled and counted, or left alone. */
  method BackfillAt(row: Fields, reasonedBy: string, so: Fields, k: nat) returns (after: Fields, filled: bool)
    requires k < |RowClearances(row)| && so == BackfilledTo(row, reasonedBy, k)
    ensures after == BackfilledTo(row, reasonedBy, k + 1) && (filled <==> Fillable(RowClearances(row)[k], row))
  {
    BackfillStep(row, reasonedBy, k);
    var c := RowClearances(so)[k];
    after, filled := so, Fillable(c, so);
    if filled {
      after := so["clearances" := Arr(RowClearances(so)[k := Filled(c, reasonedBy)])];
    }
  }

  /** Records who drafted each applying clearance that does not say; `touched` are their positions. */
  method Backfill(row: Fields, reasonedBy: string) returns (after: Fields, touched: seq<int>)
    ensures after == Backfilled(row, reasonedBy)
    ensures forall i :: i in touched <==> 0 <= i < |RowClearances(row)| && Fillable(RowClearances(row)[i], row)
  {
    after, touched := row, [];
    BackfillStarts(row, reasonedBy);
    for k := 0 to |RowClearances(row)|
      invariant after == BackfilledTo(row, reasonedBy, k)
      invariant FilledBelow(touched, row, k)
    {
      var filled;
      after, filled := BackfillAt(row, reasonedBy, after, k);
      FilledOneMore(touched, row, k);
      if filled {
        touched := touched + [k];
      }
    }
  }

  lemma BackfilledClearances(row: Fields, reasonedBy: string)
    ensures RowClearances(Backfilled(row, reasonedBy)) == BackfillAll(RowClearances(row), row, reasonedBy)
    ensures SameJudged(row, Backfilled(row, reasonedBy))
    ensures forall k :: k != "clearances" ==> (k in row <==> k in Backfilled(row, reasonedBy)) && Get(Backfilled(row, reasonedBy), k) == Get(row, k)
  {
    var cs := RowClearances(row);
    var all := BackfillAll(cs, row, reasonedBy);
    assert all[..|cs|] + cs[|cs|..] == all;
    assert !Get(row, "clearances").Arr? ==> all == [];
  }

  /** Filling in who drafted it changes no answer, on any gate. */
  lemma BackfillChangesNoAnswer(row: Fields, reasonedBy: string, i: nat, gate: string)
    requires i < |RowClearances(row)|
    ensures |RowClearances(Backfilled(row, reasonedBy))| == |RowClearances(row)|
    ensures Applies(RowClearances(Backfilled(row, reasonedBy))[i], Backfilled(row, reasonedBy), gate)
         == Applies(RowClearances(row)[i], row, gate)
  {
    var c, after := RowClearances(row)[i], Backfilled(row, reasonedBy);
    var d := BackfillOne(c, row, reasonedBy);
    BackfilledClearances(row, reasonedBy);
    if c.Obj? {
      assert SameButReasonedBy(c, d);
      ReasonedByIsNotJudged(c, d, row, gate);
    }
    AppliesReadsTwoFields(d, row, after, gate);
  }

  /** A second backfill, with the same value, changes nothing. */
  lemma BackfillIsIdempotent(row: Fields, reasonedBy: string)
    ensures Backfilled(Backfilled(row, reasonedBy), reasonedBy) == Backfilled(row, reasonedBy)
  {
    var once := Backfilled(row, reasonedBy);
    BackfilledClearances(row, reasonedBy);
    if Get(row, "clearances").Arr? {
      var cs, ds := RowClearances(row), RowClearances(once);
      forall i | 0 <= i < |cs| ensures BackfillOne(ds[i], once, reasonedBy) == ds[i] {
        BackfillOneTwice(cs[i], row, once, reasonedBy);
      }
      assert BackfillAll(ds, once, reasonedBy) == ds;
      assert ds[..|ds|] + ds[|ds|..] == ds;
      assert once["clearances" := Arr(ds)] == once;
    }
  }

  lemma BackfillOneTwice(c: Json, row: Fields, once: Fields, reasonedBy: string)
    requires SameJudged(row, once)
    ensures var d := BackfillOne(c, row, reasonedBy); BackfillOne(d, once, reasonedBy) == d
  {
    var d := BackfillOne(c, row, reasonedBy);
    if d == c {
      if c.Obj? && Get(c.fields, "gate").Str? {
        AppliesReadsTwoFields(c, row, once, Get(c.fields, "gate").s);
      }
    } else {
      assert Get(d.fields, REASONED_BY) == Str(Strip(reasonedBy));
    }
  }
}
