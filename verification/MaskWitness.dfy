/**
  * Three maps that leave a name, each against one clause of the condition under which
  * masking leaves none. In each, a short text has one name that fires, and what is put
  * in its place shows the other name to its pattern: by supplying its last character,
  * by standing just before it where a letter stood, or just after it where a letter
  * stood. The tiers are those the map would be given.
  */
module MaskWitness {
  import opened Prelude
  import opened Scanner
  import opened MaskTiers
  import opened KeepHoles
  import opened KeptSpans
  import opened IncidentMask
  import opened MaskClear

  // ---------------------------------------------------------------- two names of one tier

  /** Two bare names of one tier and no keep-list. */
  predicate Two(m: Masker, a: string, b: string, t: Tier) {
    && m.names == [a, b] && m.keep == [] && '.' !in a && '.' !in b && t != D
    && TierFor(m, a) == t && TierFor(m, b) == t
  }

  lemma TwoOf(m: Masker, a: string, b: string, t: Tier, u: Tier)
    requires Two(m, a, b, t)
    ensures Of(m, m.names, u) == if u == t then [a, b] else []
    ensures Domains(m.names) == []
  {
    var rest := m.names[1..];
    assert rest == [b] && rest[1..] == [];
    assert Of(m, rest[1..], u) == [] && Domains(rest[1..]) == [];
    assert Of(m, rest, u) == if u == t then [b] else [];
    assert Domains(rest) == [];
  }

  lemma NamesOfTwo(m: Masker, a: string, b: string, t: Tier, k: nat)
    requires Two(m, a, b, t) && k < 4
    ensures WidePasses(m)[k].names == if k == 1 + Rank(t) then [a, b] else []
  {
    TwoOf(m, a, b, t, if k <= 1 then A else if k == 2 then B else C);
  }

  lemma PassesOfTwo(m: Masker, a: string, b: string, t: Tier)
    requires Two(m, a, b, t)
    ensures Passes(m) == WidePasses(m)
  {
    TwoOf(m, a, b, t, D);
    assert WidePasses(m) + [] == WidePasses(m);
  }

  lemma TwoMasked(m: Masker, a: string, b: string, t: Tier, text: string)
    requires Two(m, a, b, t) && 0 < |text| < 64
    ensures WidePasses(m)[1 + Rank(t)].names == [a, b]
    ensures Masked(m, text) == Sub(WidePasses(m)[1 + Rank(t)], Pseudonymizer(m), text)
  {
    PassesOfTwo(m, a, b, t);
    forall k | 0 <= k < 4 ensures WidePasses(m)[k].names == if k == 1 + Rank(t) then [a, b] else [] {
      NamesOfTwo(m, a, b, t, k);
    }
    OnePassWorks(WidePasses(m), Pseudonymizer(m), text, 1 + Rank(t));
    MaskedIsThePasses(m, text);
  }

  lemma MaskedIsThePasses(m: Masker, text: string)
    requires m.keep == [] && 0 < |text| < 64
    ensures Masked(m, text) == SubAll(Passes(m), Pseudonymizer(m), text)
  {
  }

  // ---------------------------------------------------------------- one match

  lemma DiffersAt(n: string, text: string, i: nat, c: nat)
    requires c < |n| && (i + c < |text| ==> LowerChar(text[i + c]) != n[c])
    ensures !Stands(n, text, i)
  {
  }

  lemma StandsAt(n: string, text: string, i: nat)
    requires i + |n| <= |text| && text[i..i + |n|] == n && Lower(n) == n
    ensures Stands(n, text, i)
  {
  }

  lemma NoneMatches(p: Pattern, text: string, k: nat)
    requires k <= |text| && forall o :: o in p.names ==> !Fires(p, o, text, k)
    ensures Match(p, text, k).None?
  {
    MatchIsLongest(p, text, k);
  }

  lemma ItMatches(p: Pattern, text: string, n: string, x: nat)
    requires x <= |text| && n in p.names && Fires(p, n, text, x) && forall o :: o in p.names && Fires(p, o, text, x) ==> o == n
    ensures Match(p, text, x) == Some(n)
  {
    MatchIsLongest(p, text, x);
  }

  /** The one name that fires anywhere in the text is replaced and the rest is copied. */
  lemma OneMatch(p: Pattern, f: string -> string, text: string, n: string, x: nat)
    requires x + |n| <= |text| && n != "" && n in p.names && Fires(p, n, text, x)
    requires forall o, k: nat :: o in p.names && k <= |text| && Fires(p, o, text, k) ==> o == n && k == x
    ensures Sub(p, f, text) == text[..x] + (f(text[x..x + |n|]) + text[x + |n|..])
  {
    forall k: nat | k <= |text| && k != x ensures Match(p, text, k).None? {
      NoneMatches(p, text, k);
    }
    ItMatches(p, text, n, x);
    CopyStretch(p, f, text, 0, x);
    SilentFrom(p, f, text, x + |n|);
    assert text[0..x] == text[..x];
  }

  /** Of two names only the second fires, and only at `x`. */
  predicate FiresOnce(p: Pattern, a: string, b: string, text: string, x: nat)
    requires x <= |text|
  {
    Fires(p, b, text, x) && forall k: nat :: k <= |text| ==> !Fires(p, a, text, k) && (Fires(p, b, text, k) ==> k == x)
  }

  lemma OnlySecond(m: Masker, a: string, b: string, t: Tier, text: string, x: nat, q: string, out: string)
    requires Two(m, a, b, t) && 0 < |text| < 64 && x + |b| <= |text| && b != "" && text[x..x + |b|] == b && Lower(b) == b
    requires b in m.pseudonym && m.pseudonym[b] == q && FiresOnce(WidePasses(m)[1 + Rank(t)], a, b, text, x)
    requires text[..x] + (q + text[x + |b|..]) == out
    ensures Masked(m, text) == out
  {
    var p := WidePasses(m)[1 + Rank(t)];
    TwoMasked(m, a, b, t, text);
    forall o, k: nat | o in p.names && k <= |text| && Fires(p, o, text, k) ensures o == b && k == x {
      assert o == a || o == b;
    }
    OneMatch(p, Pseudonymizer(m), text, b, x);
  }

  /** A map of two accounts, and no keep-list. */
  predicate Accounts(m: Masker, a: string, q: string, b: string, r: string) {
    m.names == [a, b] && m.keep == [] && m.pseudonym == map[a := q, b := r]
  }

  /** Their tiers as measured against a vocabulary that has neither. */
  predicate Measured(m: Masker, a: string, b: string) {
    m.tier == map[a := TierOf(a, {}), b := TierOf(b, {})]
  }

  lemma MeasuredTiers(m: Masker, a: string, b: string)
    requires Measured(m, a, b) && a != b && |a| >= 3 && |b| >= 3
    ensures TierFor(m, a) == (if |a| >= 6 then A else B) && TierFor(m, b) == (if |b| >= 6 then A else B)
  {
  }

  // ---------------------------------------------------------------- a name that meets a pseudonym

  lemma OnlyBobbob(text: string, k: nat)
    requires text == "acmecbobbob" && k <= |text|
    ensures !Stands("acmeca", text, k)
    ensures Stands("bobbob", text, k) <==> k == 5
  {
    DiffersAt("acmeca", text, k, if k == 0 then 5 else 0);
    if k == 5 {
      StandsAt("bobbob", text, 5);
    } else {
      DiffersAt("bobbob", text, k, if k < 5 then 0 else 5);
    }
  }

  lemma OnlyBobbobFires(p: Pattern, text: string)
    requires p.behind == NothingBehind && p.ahead == NothingAhead && text == "acmecbobbob"
    ensures FiresOnce(p, "acmeca", "bobbob", text, 5)
  {
    forall k: nat | k <= |text| ensures !Stands("acmeca", text, k) && (Stands("bobbob", text, k) <==> k == 5) {
      OnlyBobbob(text, k);
    }
    OnlyBobbob(text, 5);
  }

  lemma AcmecaText(text: string)
    requires text == "acmecbobbob"
    ensures text[5..5 + |"bobbob"|] == "bobbob" && Lower("bobbob") == "bobbob"
    ensures text[..5] + ("acct1" + text[5 + |"bobbob"|..]) == "acmecacct1"
  {
  }

  lemma AcmecaShows(p: Pattern, out: string)
    requires p.behind == NothingBehind && p.ahead == NothingAhead && out == "acmecacct1"
    ensures Fires(p, "acmeca", out, 0)
  {
    assert out[0..6] == "acmeca";
    StandsAt("acmeca", out, 0);
  }

  /** The end of what was copied and the beginning of a pseudonym spell a name that may be replaced anywhere. */
  lemma NameMetIsLeft(m: Masker, text: string)
    requires Accounts(m, "acmeca", "acct2", "bobbob", "acct1") && Measured(m, "acmeca", "bobbob") && text == "acmecbobbob"
    ensures Masked(m, text) == "acmecacct1" && "acmeca" in WidePasses(m)[1].names
    ensures Fires(WidePasses(m)[1], "acmeca", Masked(m, text), 0)
  {
    MeasuredTiers(m, "acmeca", "bobbob");
    TwoOf(m, "acmeca", "bobbob", A, A);
    OnlyBobbobFires(WidePasses(m)[1], text);
    AcmecaText(text);
    OnlySecond(m, "acmeca", "bobbob", A, text, 5, "acct1", "acmecacct1");
    AcmecaShows(WidePasses(m)[1], Masked(m, text));
  }

  // ---------------------------------------------------------------- a name let in from behind

  lemma OnlyAlice(text: string, k: nat)
    requires text == "alicebobby" && k <= |text|
    ensures Stands("bobby", text, k) <==> k == 5
    ensures Stands("alice", text, k) <==> k == 0
  {
    if k == 5 {
      StandsAt("bobby", text, 5);
    } else {
      DiffersAt("bobby", text, k, if k < 5 then 0 else 4);
    }
    if k == 0 {
      StandsAt("alice", text, 0);
    } else {
      DiffersAt("alice", text, k, if k == 1 then 4 else 0);
    }
  }

  lemma OnlyAliceFires(p: Pattern, text: string)
    requires p.behind == NoAlnumBehind && p.ahead == NothingAhead && text == "alicebobby"
    ensures FiresOnce(p, "bobby", "alice", text, 0)
  {
    forall k: nat | k <= |text| ensures (Stands("alice", text, k) <==> k == 0) && (Stands("bobby", text, k) <==> k == 5) {
      OnlyAlice(text, k);
    }
    OnlyAlice(text, 0);
    assert IsAlnum(text[4]);
  }

  lemma BobbyText(text: string)
    requires text == "alicebobby"
    ensures text[0..0 + |"alice"|] == "alice" && Lower("alice") == "alice"
    ensures text[..0] + ("z-" + text[0 + |"alice"|..]) == "z-bobby"
  {
  }

  lemma BobbyShows(p: Pattern, out: string)
    requires p.behind == NoAlnumBehind && p.ahead == NothingAhead && out == "z-bobby"
    ensures Fires(p, "bobby", out, 2)
  {
    assert out[2..7] == "bobby";
    StandsAt("bobby", out, 2);
  }

  lemma NameBehindFires(m: Masker, text: string)
    requires Accounts(m, "bobby", "z2", "alice", "z-") && Measured(m, "bobby", "alice") && text == "alicebobby"
    ensures Masked(m, text) == "z-bobby" && "bobby" in WidePasses(m)[2].names
    ensures Fires(WidePasses(m)[2], "bobby", Masked(m, text), 2)
  {
    MeasuredTiers(m, "bobby", "alice");
    TwoOf(m, "bobby", "alice", B, B);
    OnlyAliceFires(WidePasses(m)[2], text);
    BobbyText(text);
    OnlySecond(m, "bobby", "alice", B, text, 0, "z-", "z-bobby");
    BobbyShows(WidePasses(m)[2], Masked(m, text));
  }

  lemma BehindStaysApart(m: Masker)
    requires Accounts(m, "bobby", "z2", "alice", "z-")
    ensures forall n, o :: n in m.names && o in m.names ==> Apart(n, m.pseudonym[o])
  {
    AllApart(m, "bobby", "z2", "alice", "z-");
  }

  /** A pseudonym that ends in a hyphen lets in the name behind it. */
  lemma NameBehindIsLeft(m: Masker, text: string)
    requires Accounts(m, "bobby", "z2", "alice", "z-") && Measured(m, "bobby", "alice") && text == "alicebobby"
    ensures forall n, o :: n in m.names && o in m.names ==> Apart(n, m.pseudonym[o])
    ensures Masked(m, text) == "z-bobby" && "bobby" in WidePasses(m)[2].names
    ensures Fires(WidePasses(m)[2], "bobby", Masked(m, text), 2)
  {
    BehindStaysApart(m);
    NameBehindFires(m, text);
  }

  predicate NoneShared(n: string, q: string) {
    n != "" && q != "" && forall i, k :: 0 <= i < |n| && 0 <= k < |q| ==> n[i] != LowerChar(q[k])
  }

  lemma ApartIfNoneShared(n: string, q: string)
    requires NoneShared(n, q)
    ensures Apart(n, q)
  {
    forall d | -|q| < d < |n| ensures !Agree(n, q, d) {
      var k := if d < 0 then 0 else d;
      assert n[k] != LowerChar(q[k - d]);
    }
  }

  lemma AllApart(m: Masker, a: string, q: string, b: string, r: string)
    requires Accounts(m, a, q, b, r) && a != b && NoneShared(a, q) && NoneShared(a, r) && NoneShared(b, q) && NoneShared(b, r)
    ensures forall n, o :: n in m.names && o in m.names ==> Apart(n, m.pseudonym[o])
  {
    ApartIfNoneShared(a, q);
    ApartIfNoneShared(a, r);
    ApartIfNoneShared(b, q);
    ApartIfNoneShared(b, r);
  }

  // ---------------------------------------------------------------- a name let in from ahead

  lemma OnlyTheLast(text: string, k: nat)
    requires text == "bob_alice" && k <= |text|
    ensures Stands("bob_", text, k) <==> k == 0
    ensures Stands("alice", text, k) <==> k == 4
  {
    if k == 0 {
      StandsAt("bob_", text, 0);
    } else {
      DiffersAt("bob_", text, k, if k == 2 then 1 else 0);
    }
    if k == 4 {
      StandsAt("alice", text, 4);
    } else {
      DiffersAt("alice", text, k, if k < 4 then 0 else 4);
    }
  }

  lemma OnlyTheLastFires(p: Pattern, text: string)
    requires p.behind == NoAlnumBehind && p.ahead == NoLetterAhead && text == "bob_alice"
    ensures FiresOnce(p, "bob_", "alice", text, 4)
  {
    forall k: nat | k <= |text| ensures (Stands("bob_", text, k) <==> k == 0) && (Stands("alice", text, k) <==> k == 4) {
      OnlyTheLast(text, k);
    }
    OnlyTheLast(text, 4);
    assert IsLetter(text[4]) && !IsAlnum(text[3]);
  }

  lemma BobText(text: string)
    requires text == "bob_alice"
    ensures text[4..4 + |"alice"|] == "alice" && Lower("alice") == "alice"
    ensures text[..4] + ("1z" + text[4 + |"alice"|..]) == "bob_1z"
  {
  }

  lemma BobShows(p: Pattern, out: string)
    requires p.behind == NoAlnumBehind && p.ahead == NoLetterAhead && out == "bob_1z"
    ensures Fires(p, "bob_", out, 0)
  {
    assert out[0..4] == "bob_";
    StandsAt("bob_", out, 0);
  }

  lemma NameAheadFires(m: Masker, text: string)
    requires Accounts(m, "bob_", "z2", "alice", "1z") && m.tier == map[] && text == "bob_alice"
    ensures Masked(m, text) == "bob_1z" && "bob_" in WidePasses(m)[3].names
    ensures Fires(WidePasses(m)[3], "bob_", Masked(m, text), 0)
  {
    TwoOf(m, "bob_", "alice", C, C);
    OnlyTheLastFires(WidePasses(m)[3], text);
    BobText(text);
    OnlySecond(m, "bob_", "alice", C, text, 4, "1z", "bob_1z");
    BobShows(WidePasses(m)[3], Masked(m, text));
  }

  lemma AheadStaysApart(m: Masker)
    requires Accounts(m, "bob_", "z2", "alice", "1z")
    ensures forall n, o :: n in m.names && o in m.names ==> Apart(n, m.pseudonym[o])
  {
    AllApart(m, "bob_", "z2", "alice", "1z");
  }

  /** A pseudonym that begins with a digit lets in the name before it; the map records no tiers. */
  lemma NameAheadIsLeft(m: Masker, text: string)
    requires Accounts(m, "bob_", "z2", "alice", "1z") && m.tier == map[] && text == "bob_alice"
    ensures forall n, o :: n in m.names && o in m.names ==> Apart(n, m.pseudonym[o])
    ensures Masked(m, text) == "bob_1z" && "bob_" in WidePasses(m)[3].names
    ensures Fires(WidePasses(m)[3], "bob_", Masked(m, text), 0)
  {
    AheadStaysApart(m);
    NameAheadFires(m, text);
  }
}
