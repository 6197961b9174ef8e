/** Which names are masked, as what and how widely, read off the entries of the map and the vocabulary. */
module NameRules {
  import opened IncidentMask
  import opened KeptSpans
  import opened MaskPairs
  import opened MaskTiers
  import opened Prelude
  import opened Scanner
  import opened Splitting

  // ---------------------------------------------------------------- tables

  /** Of the first `n` entries, the last whose name is that in lower case. */
  ghost predicate LastOf(entries: seq<Entry>, n: nat, k: string, i: int)
    requires n <= |entries|
  {
    0 <= i < n && IsLowered(entries[i].name, k) && forall j :: i < j < n ==> !IsLowered(entries[j].name, k)
  }

  ghost predicate LastGives(entries: seq<Entry>, n: nat, k: string, v: string)
    requires n <= |entries|
  {
    exists i :: LastOf(entries, n, k, i) && entries[i].pseudo == v
  }

  ghost predicate Lists(entries: seq<Entry>, k: string) {
    exists i :: 0 <= i < |entries| && IsLowered(entries[i].name, k)
  }

  lemma LastNext(entries: seq<Entry>, n: nat, k: string, i: int)
    requires n < |entries|
    ensures LastOf(entries, n + 1, k, i) <==> if IsLowered(entries[n].name, k) then i == n else LastOf(entries, n, k, i)
  {
  }

  lemma {:induction false} TableIs(entries: seq<Entry>, n: nat, k: string, v: string)
    requires n <= |entries|
    ensures k in TableTo(entries, n) && TableTo(entries, n)[k] == v <==> LastGives(entries, n, k, v)
  {
    if n > 0 {
      TableIs(entries, n - 1, k, v);
      LoweredIff(entries[n - 1].name, k);
      forall i ensures LastOf(entries, n, k, i) <==> if IsLowered(entries[n - 1].name, k) then i == n - 1 else LastOf(entries, n - 1, k, i) {
        LastNext(entries, n - 1, k, i);
      }
      assert LastGives(entries, n, k, v) <==>
        if IsLowered(entries[n - 1].name, k) then entries[n - 1].pseudo == v else LastGives(entries, n - 1, k, v);
    }
  }

  lemma TableHas(entries: seq<Entry>, k: string)
    ensures k in Table(entries) <==> Lists(entries, k)
    ensures k in Table(entries) ==> LastGives(entries, |entries|, k, Table(entries)[k])
  {
    forall i | 0 <= i < |entries| ensures IsLowered(entries[i].name, k) <==> Lower(entries[i].name) == k {
      LoweredIff(entries[i].name, k);
    }
    if k in Table(entries) {
      TableIs(entries, |entries|, k, Table(entries)[k]);
    }
  }

  // ---------------------------------------------------------------- labels

  ghost predicate Rising(at: seq<int>) {
    forall i, j :: 0 <= i < j < |at| ==> at[i] < at[j]
  }

  /** The parts that are not empty, by their places in order. */
  ghost predicate AreNotEmpty(parts: seq<string>, at: seq<int>) {
    && Rising(at) && (forall i :: 0 <= i < |at| ==> 0 <= at[i] < |parts|)
    && forall p :: p in at <==> 0 <= p < |parts| && parts[p] != ""
  }

  /** The part before the public suffix, which has two parts or one; empty parts do not count. */
  ghost predicate IsRegistrable(m: IncidentMap, domain: string, lab: string) {
    exists at :: AreNotEmpty(Split(domain, '.'), at) && BeforeSuffix(m, Split(domain, '.'), at, lab)
  }

  ghost predicate BeforeSuffix(m: IncidentMap, parts: seq<string>, at: seq<int>, lab: string)
    requires forall i :: 0 <= i < |at| ==> 0 <= at[i] < |parts|
  {
    var k := |at|;
    if k >= 3 && parts[at[k - 2]] + "." + parts[at[k - 1]] in m.multiSuffix then lab == parts[at[k - 3]]
    else if k >= 2 then lab == parts[at[k - 2]] else if k == 1 then lab == parts[at[0]] else lab == ""
  }

  lemma {:induction false} NotEmptyAt(parts: seq<string>) returns (at: seq<int>)
    ensures AreNotEmpty(parts, at) && |at| == |NonEmpty(parts)|
    ensures forall i :: 0 <= i < |at| ==> 0 <= at[i] < |parts| && NonEmpty(parts)[i] == parts[at[i]]
  {
    if parts == [] {
      at := [];
    } else {
      var n := |parts| - 1;
      at := NotEmptyAt(parts[..n]);
      NonEmptySnoc(parts[..n], parts[n]);
      assert parts == parts[..n] + [parts[n]];
      if parts[n] != "" {
        at := at + [n];
      }
    }
  }

  lemma {:induction false} NonEmptySnoc(parts: seq<string>, p: string)
    ensures NonEmpty(parts + [p]) == NonEmpty(parts) + if p != "" then [p] else []
  {
    if parts == [] {
      assert parts + [p] == [p];
    } else {
      assert (parts + [p])[1..] == parts[1..] + [p];
      NonEmptySnoc(parts[1..], p);
    }
  }

  lemma {:induction false} SameRising(a: seq<int>, b: seq<int>)
    requires Rising(a) && Rising(b) && forall x :: x in a <==> x in b
    ensures a == b
    decreases |a|
  {
    if a != [] {
      assert a[0] in a;
    }
    if b != [] {
      assert b[0] in b;
    }
    if a != [] {
      assert a[0] == b[0];
      forall x ensures x in a[1..] <==> x in b[1..] {
        assert x in a <==> x == a[0] || x in a[1..];
        assert x in b <==> x == b[0] || x in b[1..];
        assert a[0] !in a[1..] && b[0] !in b[1..];
      }
      SameRising(a[1..], b[1..]);
    }
  }

  lemma LabelBeforeSuffix(m: IncidentMap, domain: string, at: seq<int>, lab: string)
    requires var parts := Split(domain, '.');
             |at| == |NonEmpty(parts)| && forall i :: 0 <= i < |at| ==> 0 <= at[i] < |parts| && NonEmpty(parts)[i] == parts[at[i]]
    ensures BeforeSuffix(m, Split(domain, '.'), at, lab) <==> lab == RegistrableLabel(m, domain)
  {
  }

  lemma RegistrableIs(m: IncidentMap, domain: string, lab: string)
    ensures IsRegistrable(m, domain, lab) <==> lab == RegistrableLabel(m, domain)
  {
    var parts := Split(domain, '.');
    var at := NotEmptyAt(parts);
    assert BeforeSuffix(m, parts, at, lab) <==> lab == RegistrableLabel(m, domain) by {
      LabelBeforeSuffix(m, domain, at, lab);
    }
    forall other | AreNotEmpty(parts, other) ensures other == at {
      SameRising(other, at);
    }
  }

  /** A usable label of the domain: three characters or more, and no generic word. */
  ghost predicate HasLabel(m: IncidentMap, e: Entry, lab: string) {
    |lab| >= 3 && lab !in m.generic && exists part :: IsRegistrable(m, e.name, part) && IsLowered(part, lab)
  }

  lemma LabelIff(m: IncidentMap, e: Entry, lab: string)
    ensures HasLabel(m, e, lab) <==> LabelOf(m, e) == lab && Usable(m, lab)
  {
    RegistrableIs(m, e.name, RegistrableLabel(m, e.name));
    LoweredIff(RegistrableLabel(m, e.name), lab);
    if HasLabel(m, e, lab) {
      var part :| IsRegistrable(m, e.name, part) && IsLowered(part, lab);
      RegistrableIs(m, e.name, part);
    }
  }

  /** One of the first `n` domains has the label, under that pseudonym. */
  ghost predicate LabelGives(m: IncidentMap, n: nat, lab: string, p: string)
    requires n <= |m.domains|
  {
    exists k :: 0 <= k < n && HasLabel(m, m.domains[k], lab) && m.domains[k].pseudo == p
  }

  lemma LabelNext(m: IncidentMap, n: nat, lab: string, p: string)
    requires n < |m.domains|
    ensures LabelGives(m, n + 1, lab, p) <==>
            LabelGives(m, n, lab, p) || (HasLabel(m, m.domains[n], lab) && m.domains[n].pseudo == p)
  {
    if LabelGives(m, n, lab, p) {
      var k :| 0 <= k < n && HasLabel(m, m.domains[k], lab) && m.domains[k].pseudo == p;
      assert 0 <= k < n + 1;
    }
  }

  lemma {:induction false} LabelsAre(m: IncidentMap, n: nat, lab: string, p: string)
    requires n <= |m.domains|
    ensures lab in Labels(m, n) && p in Labels(m, n)[lab] <==> LabelGives(m, n, lab, p)
  {
    if n > 0 {
      LabelsAre(m, n - 1, lab, p);
      LabelIff(m, m.domains[n - 1], lab);
      LabelNext(m, n - 1, lab, p);
    }
  }

  lemma LabelIsThere(m: IncidentMap, lab: string)
    ensures lab in Labels(m, |m.domains|) <==> exists p :: LabelGives(m, |m.domains|, lab, p)
  {
    if lab in Labels(m, |m.domains|) {
      var p :| p in Labels(m, |m.domains|)[lab];
      LabelsAre(m, |m.domains|, lab, p);
    }
    if p :| LabelGives(m, |m.domains|, lab, p) {
      LabelsAre(m, |m.domains|, lab, p);
    }
  }

  // ---------------------------------------------------------------- owners

  /** One begins with the other. */
  ghost predicate AreRelated(a: string, b: string) {
    (|a| <= |b| && b[..|a|] == a) || (|b| <= |a| && a[..|b|] == b)
  }

  /** Account `i` is related to the label, none related is longer, and none before it as long; names in lower case. */
  ghost predicate IsOwner(names: seq<string>, n: nat, lab: string, i: int)
    requires n <= |names|
  {
    && 0 <= i < n && AreRelated(lab, names[i])
    && (forall j :: 0 <= j < n && AreRelated(lab, names[j]) ==> |names[j]| <= |names[i]|)
    && forall j :: 0 <= j < i && AreRelated(lab, names[j]) ==> |names[j]| < |names[i]|
  }

  ghost predicate InLowerCase(entries: seq<Entry>, names: seq<string>) {
    |names| == |entries| && forall i :: 0 <= i < |entries| ==> IsLowered(entries[i].name, names[i])
  }

  lemma {:induction false} OwnerIs(names: seq<string>, n: nat, lab: string) returns (i: int)
    requires n <= |names|
    ensures Owner(names, n, lab) == None <==> forall j :: 0 <= j < n ==> !AreRelated(lab, names[j])
    ensures Owner(names, n, lab).Some? ==> IsOwner(names, n, lab, i) && Owner(names, n, lab) == Some(names[i])
  {
    i := 0;
    forall j | 0 <= j < n ensures AreRelated(lab, names[j]) <==> Related(lab, names[j]) {
    }
    if n > 0 {
      i := OwnerIs(names, n - 1, lab);
      var a := names[n - 1];
      if Related(lab, a) && (Owner(names, n - 1, lab).None? || |a| > |Owner(names, n - 1, lab).value|) {
        i := n - 1;
      }
    }
  }

  // ---------------------------------------------------------------- pairs

  /** A mapped domain's own pseudonym, or else an account's, or else what the label of some domain resolves to. */
  ghost predicate IsPair(m: IncidentMap, name: string, p: Option<string>) {
    if Lists(m.domains, name) then p.Some? && LastGives(m.domains, |m.domains|, name, p.value)
    else if Lists(m.accounts, name) then p.Some? && LastGives(m.accounts, |m.accounts|, name, p.value)
    else if exists q :: LabelGives(m, |m.domains|, name, q) then IsResolved(m, name, p)
    else p == None
  }

  /** The pseudonym of the account that owns the label; without one, that of its domains, less `.tld`, if they agree on one. */
  ghost predicate IsResolved(m: IncidentMap, lab: string, p: Option<string>) {
    exists names :: InLowerCase(m.accounts, names) &&
      if exists i :: IsOwner(names, |names|, lab, i)
      then p.Some? && exists i :: IsOwner(names, |names|, lab, i) && LastGives(m.accounts, |m.accounts|, names[i], p.value)
      else if exists q :: AgreeOn(m, lab, q) then p.Some? && exists q :: AgreeOn(m, lab, q) && p.value == Replace(q, ".tld", "")
      else p == None
  }

  ghost predicate AgreeOn(m: IncidentMap, lab: string, q: string) {
    forall p :: LabelGives(m, |m.domains|, lab, p) <==> p == q
  }

  lemma KeysAreLower(entries: seq<Entry>)
    ensures InLowerCase(entries, Keys(entries))
  {
    forall i | 0 <= i < |entries| {
      LoweredIff(entries[i].name, Keys(entries)[i]);
    }
  }

  lemma AgreeIff(m: IncidentMap, lab: string, q: string)
    requires lab in Labels(m, |m.domains|)
    ensures AgreeOn(m, lab, q) <==> Labels(m, |m.domains|)[lab] == {q}
  {
    var pseudos := Labels(m, |m.domains|)[lab];
    forall p ensures p in pseudos <==> LabelGives(m, |m.domains|, lab, p) {
      LabelsAre(m, |m.domains|, lab, p);
    }
    if AgreeOn(m, lab, q) {
      assert forall p :: p in pseudos <==> p == q;
    }
  }

  lemma OwnedIs(m: IncidentMap, lab: string)
    requires LabelOwner(m, lab).Some?
    ensures LabelOwner(m, lab).value in Table(m.accounts)
    ensures IsResolved(m, lab, Some(Table(m.accounts)[LabelOwner(m, lab).value]))
  {
    var names := Keys(m.accounts);
    KeysAreLower(m.accounts);
    var i := OwnerIs(names, |names|, lab);
    OwnerIsAccount(m, lab);
    TableHas(m.accounts, names[i]);
  }

  lemma UnownedIs(m: IncidentMap, lab: string)
    requires LabelOwner(m, lab).None? && lab in Labels(m, |m.domains|)
    ensures IsResolved(m, lab, ResolvedLabel(m, lab))
  {
    var names, pseudos := Keys(m.accounts), Labels(m, |m.domains|)[lab];
    KeysAreLower(m.accounts);
    var i := OwnerIs(names, |names|, lab);
    forall q ensures AgreeOn(m, lab, q) <==> pseudos == {q} {
      AgreeIff(m, lab, q);
    }
    if |pseudos| == 1 {
      assert AgreeOn(m, lab, TheOnly(pseudos));
    }
  }

  lemma ResolvedIs(m: IncidentMap, lab: string)
    requires lab in Labels(m, |m.domains|)
    ensures IsResolved(m, lab, ResolvedLabel(m, lab))
  {
    if LabelOwner(m, lab).Some? {
      OwnedIs(m, lab);
    } else {
      UnownedIs(m, lab);
    }
  }

  /** What a name is masked as, if it is. */
  lemma PairIs(m: IncidentMap, name: string)
    ensures IsPair(m, name, PairFor(m, name))
  {
    TableHas(m.domains, name);
    TableHas(m.accounts, name);
    LabelIsThere(m, name);
    if name in Labels(m, |m.domains|) {
      ResolvedIs(m, name);
    }
  }

  // ---------------------------------------------------------------- tiers

  ghost predicate StandsAt(n: string, t: string, i: int) {
    0 <= i && i + |n| <= |t| && t[i..i + |n|] == n
  }

  /** The letters of `n` stand in `t` from some place on. */
  ghost predicate StandsIn(n: string, t: string) {
    exists i :: StandsAt(n, t, i)
  }

  /** D: a token, or shorter than three. C: some other token begins with it. A: six or longer, and in no token. B: any other. */
  lemma TierIs(n: string, low: string, vocab: set<string>)
    requires IsLowered(n, low)
    ensures TierOf(n, vocab) == D <==> low in vocab || |low| < 3
    ensures TierOf(n, vocab) == C <==> low !in vocab && |low| >= 3 && exists t :: t in vocab && |low| < |t| && t[..|low|] == low
    ensures TierOf(n, vocab) == A <==> |low| >= 6 && forall t :: t in vocab ==> !StandsIn(low, t)
  {
    LoweredIff(n, low);
    forall t ensures Contains(t, low) <==> StandsIn(low, t) {
      ContainsIff(low, t);
    }
    if t :| t in vocab && |low| < |t| && t[..|low|] == low {
      assert t != low && StartsWith(t, low);
    }
    if t :| t in vocab && t != low && StartsWith(t, low) {
      assert |low| < |t| && t[..|low|] == low;
      assert StandsAt(low, t, 0);
    }
    if low in vocab {
      assert StandsAt(low, low, 0);
    }
  }

  lemma ContainsIff(n: string, t: string)
    ensures Contains(t, n) <==> StandsIn(n, t)
  {
    if i :| 0 <= i <= |t| && n <= t[i..] {
      assert t[i..i + |n|] == t[i..][..|n|] == n;
      assert StandsAt(n, t, i);
    }
    if i :| StandsAt(n, t, i) {
      assert t[i..][..|n|] == t[i..i + |n|];
      assert n <= t[i..];
    }
  }

  // ---------------------------------------------------------------- what is not looked at

  /** Masking leaves alone the empty text and a sha256: 64 hexadecimal digits, before a newline at most. */
  lemma MaskedIs(m: Masker, text: string)
    ensures Masked(m, text)
            == if text == "" || ((|text| == 64 || (|text| == 65 && text[64] == '\n'))
                                 && forall i :: 0 <= i < 64 ==> text[i] in "0123456789abcdef")
               then text else MaskedWith(m, Pseudonymizer(m), text)
  {
    forall c: char ensures c in "0123456789abcdef" <==> '0' <= c <= '9' || 'a' <= c <= 'f' {
      HexDigit(c);
    }
  }

  lemma HexDigit(c: char)
    ensures c in "0123456789abcdef" <==> '0' <= c <= '9' || 'a' <= c <= 'f'
  {
    var s := "0123456789abcdef";
    if '0' <= c <= '9' {
      assert s[c as int - '0' as int] == c;
    } else if 'a' <= c <= 'f' {
      assert s[10 + c as int - 'a' as int] == c;
    }
  }
}
