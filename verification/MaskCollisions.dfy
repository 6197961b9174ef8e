/**
  * The check of a masker against a vocabulary: which tokens it would rewrite, and which
  * identifier each of those is put down to.
  */
module MaskCollisions {
  import opened Prelude
  import opened Scanner
  import opened MaskTiers
  import opened IncidentMask
  import opened MaskVocabulary

  datatype Hit = Hit(token: string, name: Option<string>, exact: bool, becomes: string)

  /** The first name, longest first, that occurs in the token. */
  function Inside(names: seq<string>, token: string): (r: Option<string>)
    ensures r.Some? ==> r.value in names && Contains(Lower(token), r.value)
    ensures r.None? ==> forall n :: n in names ==> !Contains(Lower(token), n)
  {
    if names == [] then None
    else if Contains(Lower(token), names[0]) then Some(names[0])
    else Inside(names[1..], token)
  }

  function HitsOf(m: Masker, token: string): seq<Hit> {
    var found := Inside(Alternation(m.names), token);
    if Masked(m, token) == token then [] else [Hit(token, found, found == Some(Lower(token)), Masked(m, token))]
  }

  /** Every token that masking changes, in order, and nothing else. */
  function Hits(m: Masker, tokens: seq<string>): seq<Hit> {
    if tokens == [] then [] else HitsOf(m, tokens[0]) + Hits(m, tokens[1..])
  }

  method FirstInside(names: seq<string>, token: string) returns (found: Option<string>)
    ensures found == Inside(names, token)
  {
    for i := 0 to |names|
      invariant Inside(names, token) == Inside(names[i..], token)
    {
      if Contains(Lower(token), names[i]) {
        return Some(names[i]);
      }
      assert names[i..][1..] == names[i + 1..];
    }
    return None;
  }

  /** One token: what is reported of it, if masking changes it. */
  method Check(m: Masker, token: string) returns (hit: seq<Hit>)
    ensures hit == HitsOf(m, token)
  {
    var masked := Mask(m, token);
    if masked == token {
      return [];
    }
    var found := FirstInside(Alternation(m.names), token);
    return [Hit(token, found, found == Some(Lower(token)), masked)];
  }

  method Collisions(m: Masker, tokens: seq<string>) returns (out: seq<Hit>)
    ensures out == Hits(m, tokens)
  {
    out := [];
    for k := 0 to |tokens|
      invariant out == Hits(m, tokens[..k])
    {
      var hit := Check(m, tokens[k]);
      HitsSnoc(m, tokens[..k], tokens[k]);
      assert tokens[..k + 1] == tokens[..k] + [tokens[k]];
      out := out + hit;
    }
    assert tokens[..|tokens|] == tokens;
  }

  lemma {:induction false} HitsSnoc(m: Masker, tokens: seq<string>, t: string)
    ensures Hits(m, tokens + [t]) == Hits(m, tokens) + HitsOf(m, t)
  {
    if tokens == [] {
      assert [t][1..] == [] && Hits(m, []) == [] && HitsOf(m, t) + [] == HitsOf(m, t);
      assert tokens + [t] == [t];
    } else {
      assert (tokens + [t])[1..] == tokens[1..] + [t];
      HitsSnoc(m, tokens[1..], t);
      ConcatAssociates(HitsOf(m, tokens[0]), Hits(m, tokens[1..]), HitsOf(m, t));
    }
  }

  lemma {:induction false} HitsAreChanged(m: Masker, tokens: seq<string>, t: string)
    ensures (exists h :: h in Hits(m, tokens) && h.token == t) <==> t in tokens && Masked(m, t) != t
  {
    if tokens != [] {
      HitsAreChanged(m, tokens[1..], t);
      assert tokens == [tokens[0]] + tokens[1..];
      if t == tokens[0] && Masked(m, t) != t {
        assert HitsOf(m, t)[0] in Hits(m, tokens);
      }
    }
  }

  /** A name's pseudonym is letters and digits, and not the name again. */
  ghost predicate PlainPseudonyms(m: Masker) {
    forall n :: n in m.names ==>
      n in m.pseudonym && (!IsDomain(n) ==> Alnum(m.pseudonym[n])) && Lower(m.pseudonym[n]) != n
  }

  /**
    * With tiers measured on this vocabulary, the report over it lists exactly the tokens
    * a tier-C name begins before a digit; so it is empty exactly when there are none.
    */
  lemma CollisionsAreResidues(m: Masker, vocab: set<string>, tokens: seq<string>, t: string)
    requires TieredBy(m, vocab) && PlainPseudonyms(m) && m.keep == []
    requires forall s :: s in tokens ==> IsToken(s, vocab)
    ensures (exists h :: h in Hits(m, tokens) && h.token == t) <==> t in tokens && Residual(m, t) && !IsHex64(t)
  {
    HitsAreChanged(m, tokens, t);
    if t in tokens {
      ChangedIffResidual(m, vocab, t);
    }
  }

  lemma ChangedIffResidual(m: Masker, vocab: set<string>, t: string)
    requires TieredBy(m, vocab) && PlainPseudonyms(m) && m.keep == [] && IsToken(t, vocab)
    ensures Masked(m, t) != t <==> Residual(m, t) && !IsHex64(t)
  {
    if Residual(m, t) {
      var n := ResidueOfVocabulary(m, vocab, t);
      assert Lower(t[..|n|]) == n;
    } else {
      VocabularyUntouched(m, vocab, t);
    }
  }
}
