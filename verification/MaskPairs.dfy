/**
  * Every real name an incident map contains and its pseudonym: accounts, domains, and
  * the label of each domain, which belongs to an account it is a prefix of or begins
  * with. What cannot be resolved to one pseudonym is reported and never guessed.
  */
module MaskPairs {
  import opened Prelude
  import opened Scanner
  import opened Splitting
  import opened KeptSpans

  datatype Entry = Entry(name: string, pseudo: string)

  /** The map's two tables in order, and the fixed word lists of the module. */
  datatype IncidentMap = IncidentMap(accounts: seq<Entry>, domains: seq<Entry>, multiSuffix: set<string>, generic: set<string>)

  function NonEmpty(parts: seq<string>): seq<string> {
    if parts == [] then [] else (if parts[0] != "" then [parts[0]] else []) + NonEmpty(parts[1..])
  }

  /** `a.b.example.com` gives `example`, and so does `example.com.gr`. */
  function RegistrableLabel(m: IncidentMap, domain: string): string {
    var parts := NonEmpty(Split(domain, '.'));
    var k := |parts|;
    if k >= 3 && parts[k - 2] + "." + parts[k - 1] in m.multiSuffix then parts[k - 3]
    else if k >= 2 then parts[k - 2]
    else if k == 1 then parts[0] else ""
  }

  function LabelOf(m: IncidentMap, e: Entry): string {
    Lower(RegistrableLabel(m, e.name))
  }

  predicate Usable(m: IncidentMap, lab: string) {
    |lab| >= 3 && lab !in m.generic
  }

  /** A table's first entries with their names in lower case; of two that fall together, the last one's value. */
  function TableTo(entries: seq<Entry>, n: nat): (t: map<string, string>)
    requires n <= |entries|
    ensures forall k :: k in t <==> exists i :: 0 <= i < n && Lower(entries[i].name) == k
  {
    if n == 0 then map[] else TableTo(entries, n - 1)[Lower(entries[n - 1].name) := entries[n - 1].pseudo]
  }

  function Table(entries: seq<Entry>): (t: map<string, string>)
    ensures forall k :: k in t <==> exists i :: 0 <= i < |entries| && Lower(entries[i].name) == k
  {
    TableTo(entries, |entries|)
  }

  /** One domain's pseudonym added under its label, if that is usable. */
  function WithLabel(m: IncidentMap, t: map<string, set<string>>, e: Entry): map<string, set<string>> {
    var l := LabelOf(m, e);
    if !Usable(m, l) then t else t[l := (if l in t then t[l] else {}) + {e.pseudo}]
  }

  /** The pseudonyms of the first domains, by their usable labels. */
  function Labels(m: IncidentMap, n: nat): (t: map<string, set<string>>)
    requires n <= |m.domains|
    ensures forall l :: l in t ==> t[l] != {} && Usable(m, l)
  {
    if n == 0 then map[] else WithLabel(m, Labels(m, n - 1), m.domains[n - 1])
  }

  predicate Related(lab: string, account: string) {
    account <= lab || lab <= account
  }

  /** Account names in the order their table lists them. */
  function Keys(entries: seq<Entry>): seq<string> {
    seq(|entries|, i requires 0 <= i < |entries| => Lower(entries[i].name))
  }

  /** The longest account related to the label, the first of them if there are several. */
  method OwnerOf(accounts: seq<string>, lab: string) returns (owner: Option<string>)
    ensures owner == Owner(accounts, |accounts|, lab)
  {
    owner := None;
    for k := 0 to |accounts|
      invariant owner == Owner(accounts, k, lab)
    {
      if Related(lab, accounts[k]) && (owner.None? || |accounts[k]| > |owner.value|) {
        owner := Some(accounts[k]);
      }
    }
  }

  function Owner(accounts: seq<string>, n: nat, lab: string): (o: Option<string>)
    requires n <= |accounts|
    ensures o.Some? <==> exists i :: 0 <= i < n && Related(lab, accounts[i])
    ensures o.Some? ==> Related(lab, o.value) && exists i :: 0 <= i < n && accounts[i] == o.value
    ensures o.Some? ==> forall i :: 0 <= i < n && Related(lab, accounts[i]) ==> |accounts[i]| <= |o.value|
  {
    if n == 0 then None
    else
      var before := Owner(accounts, n - 1, lab);
      var a := accounts[n - 1];
      if Related(lab, a) && (before.None? || |a| > |before.value|) then Some(a) else before
  }

  function LabelOwner(m: IncidentMap, lab: string): Option<string> {
    Owner(Keys(m.accounts), |m.accounts|, lab)
  }

  function TheOnly(s: set<string>): (x: string)
    requires |s| == 1
    ensures s == {x}
  {
    var x :| x in s;
    OnlyOne(s, x);
    x
  }

  lemma OnlyOne(s: set<string>, x: string)
    requires |s| == 1 && x in s
    ensures s == {x}
  {
    assert |s - {x}| == 0;
    assert s == (s - {x}) + {x};
  }

  /** What a label that is no account and no domain itself stands for. */
  function ResolvedLabel(m: IncidentMap, lab: string): Option<string>
    requires lab in Labels(m, |m.domains|)
  {
    var pseudos := Labels(m, |m.domains|)[lab];
    var owner := LabelOwner(m, lab);
    if owner.Some? then (OwnerIsAccount(m, lab); Some(Table(m.accounts)[owner.value]))
    else if |pseudos| == 1 then Some(Replace(TheOnly(pseudos), ".tld", ""))
    else None
  }

  lemma OwnerIsAccount(m: IncidentMap, lab: string)
    ensures LabelOwner(m, lab).Some? ==> LabelOwner(m, lab).value in Table(m.accounts)
  {
  }

  /** A key of the result and its pseudonym: a domain's own first, then an account's, then a label's. */
  function PairFor(m: IncidentMap, name: string): Option<string> {
    var accounts, domains, labels := Table(m.accounts), Table(m.domains), Labels(m, |m.domains|);
    if name in domains then Some(domains[name])
    else if name in accounts then Some(accounts[name])
    else if name in labels then ResolvedLabel(m, name)
    else None
  }

  /** Accounts and domains, a domain's pseudonym replacing an account's of the same name; and the labels met. */
  method Direct(m: IncidentMap) returns (out: map<string, string>, labels: map<string, set<string>>)
    ensures out == Table(m.accounts) + Table(m.domains)
    ensures labels == Labels(m, |m.domains|)
  {
    out, labels := Table(m.accounts), map[];
    for k := 0 to |m.domains|
      invariant labels == Labels(m, k)
      invariant out == Table(m.accounts) + TableTo(m.domains, k)
    {
      var e := m.domains[k];
      MergeThenUpdate(Table(m.accounts), TableTo(m.domains, k), Lower(e.name), e.pseudo);
      out := out[Lower(e.name) := e.pseudo];
      labels := WithLabel(m, labels, e);
    }
  }

  lemma MergeThenUpdate(a: map<string, string>, b: map<string, string>, k: string, v: string)
    ensures (a + b)[k := v] == a + b[k := v]
  {
  }

  /** One label: added unless it is there already or has no single answer. */
  method AddLabel(m: IncidentMap, l: string, pseudos: set<string>, before: map<string, string>) returns (out: map<string, string>)
    requires l in Labels(m, |m.domains|) && Labels(m, |m.domains|)[l] == pseudos
    ensures out == if l in before || ResolvedLabel(m, l).None? then before else before[l := ResolvedLabel(m, l).value]
  {
    out := before;
    var owner := OwnerOf(Keys(m.accounts), l);
    assert owner == LabelOwner(m, l);
    if owner.Some? {
      OwnerIsAccount(m, l);
      if l !in out {
        out := out[l := Table(m.accounts)[owner.value]];
      }
    } else if |pseudos| == 1 {
      if l !in out {
        out := out[l := Replace(TheOnly(pseudos), ".tld", "")];
      }
    }
  }

  method Pairs(m: IncidentMap) returns (out: map<string, string>)
    ensures forall n :: if n in out then PairFor(m, n) == Some(out[n]) else PairFor(m, n) == None
  {
    var labels;
    out, labels := Direct(m);
    ghost var named := out;
    var left := labels.Keys;
    while left != {}
      invariant left <= labels.Keys
      invariant forall n :: n in named ==> n in out && out[n] == named[n]
      invariant forall n :: n !in named ==> (n in out <==> n in labels && n !in left && ResolvedLabel(m, n).Some?)
      invariant forall n :: n !in named && n in out ==> out[n] == ResolvedLabel(m, n).value
      decreases left
    {
      var l :| l in left;
      left := left - {l};
      out := AddLabel(m, l, labels[l], out);
    }
  }

  predicate IsUnresolved(m: IncidentMap, lab: string) {
    var labels := Labels(m, |m.domains|);
    lab in labels && |labels[lab]| > 1 && forall i :: 0 <= i < |m.accounts| ==> !Related(lab, Lower(m.accounts[i].name))
  }

  lemma OwnerIff(m: IncidentMap, lab: string)
    ensures LabelOwner(m, lab).Some? <==> exists i :: 0 <= i < |m.accounts| && Related(lab, Lower(m.accounts[i].name))
  {
    var keys := Keys(m.accounts);
    assert forall i :: 0 <= i < |keys| ==> keys[i] == Lower(m.accounts[i].name);
    if i :| 0 <= i < |m.accounts| && Related(lab, Lower(m.accounts[i].name)) {
      assert Related(lab, keys[i]);
    }
  }

  /** Labels no single pseudonym can be given to. */
  method Unresolved(m: IncidentMap) returns (out: map<string, set<string>>)
    ensures forall l :: l in out <==> IsUnresolved(m, l)
    ensures forall l :: l in out ==> l in Labels(m, |m.domains|) && out[l] == Labels(m, |m.domains|)[l]
  {
    var labels := Labels(m, |m.domains|);
    out := map l | l in labels && |labels[l]| > 1 && LabelOwner(m, l).None? :: labels[l];
    forall l ensures l in out <==> IsUnresolved(m, l) {
      OwnerIff(m, l);
    }
  }

  /** Every usable label is masked or reported; it is both only when it is itself a mapped domain. */
  lemma MaskedOrReported(m: IncidentMap, lab: string)
    requires lab in Labels(m, |m.domains|)
    ensures PairFor(m, lab).Some? <==> !IsUnresolved(m, lab) || lab in Table(m.domains)
  {
    OwnerIff(m, lab);
    if lab in Table(m.accounts) {
      var i :| 0 <= i < |m.accounts| && Lower(m.accounts[i].name) == lab;
      assert Related(lab, Lower(m.accounts[i].name));
    }
    var pseudos := Labels(m, |m.domains|)[lab];
    assert |pseudos| > 0;
  }

  /**
    * A label shared by several domains is masked under its own pseudonym where it is itself
    * a mapped domain, and otherwise as an account it is, begins, or begins with.
    */
  lemma SharedLabelIsNotGuessed(m: IncidentMap, lab: string)
    requires lab in Labels(m, |m.domains|) && |Labels(m, |m.domains|)[lab]| > 1
    ensures lab in Table(m.domains) ==> PairFor(m, lab) == Some(Table(m.domains)[lab])
    ensures lab !in Table(m.domains) && PairFor(m, lab).Some? ==>
              exists i :: 0 <= i < |m.accounts| && Related(lab, Lower(m.accounts[i].name))
                && (lab !in Table(m.accounts) ==> PairFor(m, lab) == Some(Table(m.accounts)[Lower(m.accounts[i].name)]))
  {
    MaskedOrReported(m, lab);
    if lab !in Table(m.domains) && PairFor(m, lab).Some? {
      var keys := Keys(m.accounts);
      if lab in Table(m.accounts) {
        var i :| 0 <= i < |m.accounts| && Lower(m.accounts[i].name) == lab;
        assert Related(lab, Lower(m.accounts[i].name));
      } else {
        var owner := LabelOwner(m, lab);
        var i :| 0 <= i < |keys| && keys[i] == owner.value;
        assert Lower(m.accounts[i].name) == owner.value;
      }
    }
  }
}
