/**
  * What the row masker does to the stock vocabulary its tiers were measured against:
  * nothing, but for one residue, and what that residue becomes.
  *
  * A vocabulary token is letters and digits, so the domain pass and the five places never
  * match in it; a name inside it is not tier A and one that begins it is not tier B. What
  * is left is the word pattern of tier C, at the start, before a digit.
  */
module MaskVocabulary {
  import opened Prelude
  import opened Scanner
  import opened MaskTiers
  import opened KeptSpans
  import opened IncidentMask

  /** The map's tiers are those `tiers` gives, over `vocab`, for the names without a dot. */
  ghost predicate TieredBy(m: Masker, vocab: set<string>) {
    forall n :: n in m.names ==> Lower(n) == n && ('.' !in n ==> n in m.tier && m.tier[n] == TierOf(n, vocab))
  }

  /** A token of the vocabulary, in any letter case. */
  ghost predicate IsToken(s: string, vocab: set<string>) {
    Alnum(s) && Lower(s) in vocab
  }

  /** `n` is in tier C, begins `s`, and a digit follows it there. */
  predicate Clings(m: Masker, n: string, s: string) {
    !IsDomain(n) && TierFor(m, n) == C && |n| < |s| && n <= Lower(s) && IsDigit(s[|n|])
  }

  ghost predicate Residual(m: Masker, s: string) {
    exists n :: n in m.names && Clings(m, n, s)
  }

  // ---------------------------------------------------------------- which patterns can fire

  lemma StandsInAlnum(name: string, s: string, i: nat)
    requires Alnum(s) && Stands(name, s, i)
    ensures Alnum(name)
  {
    forall k | 0 <= k < |name| ensures IsAlnum(name[k]) {
      assert name[k] == Lower(s[i..i + |name|])[k] == LowerChar(s[i + k]);
    }
  }

  lemma StandsInside(name: string, s: string, i: nat)
    requires Stands(name, s, i)
    ensures Contains(Lower(s), name)
  {
    assert Lower(s)[i..][..|name|] == name;
  }

  lemma StandsFirst(name: string, s: string)
    ensures Stands(name, s, 0) <==> name <= Lower(s)
  {
    if |name| <= |s| {
      assert Lower(s[0..0 + |name|]) == Lower(s)[..|name|];
    }
  }

  lemma DomainsSilent(m: Masker, s: string)
    requires Alnum(s)
    ensures Silent(Pattern(NothingBehind, Domains(m.names), NothingAhead), s, 0)
  {
    var p := Pattern(NothingBehind, Domains(m.names), NothingAhead);
    DomainsAreNames(m.names);
    forall i | 0 <= i <= |s| ensures Match(p, s, i).None? {
      MatchIsLongest(p, s, i);
      forall n: string | Stands(n, s, i) ensures '.' !in n {
        StandsInAlnum(n, s, i);
      }
    }
  }

  /** A bare name standing in a token has the tier that was measured. */
  lemma BareTier(m: Masker, vocab: set<string>, n: string, s: string, i: nat)
    requires TieredBy(m, vocab) && Alnum(s) && n in m.names && Stands(n, s, i)
    ensures TierFor(m, n) == TierOf(n, vocab) && Lower(n) == n
  {
    StandsInAlnum(n, s, i);
    assert '.' !in n;
  }

  lemma InsideIsNotA(m: Masker, vocab: set<string>, s: string)
    requires TieredBy(m, vocab) && IsToken(s, vocab)
    ensures Silent(Pattern(NothingBehind, Of(m, m.names, A), NothingAhead), s, 0)
  {
    var p := Pattern(NothingBehind, Of(m, m.names, A), NothingAhead);
    forall i | 0 <= i <= |s| ensures Match(p, s, i).None? {
      MatchIsLongest(p, s, i);
      forall n | n in m.names && Stands(n, s, i) ensures TierFor(m, n) != A {
        BareTier(m, vocab, n, s, i);
        StandsInside(n, s, i);
        assert InsideOne(n, vocab);
      }
    }
  }

  /** Behind a boundary, a token has only its first position. */
  lemma BoundaryIsStart(s: string, i: nat)
    requires Alnum(s) && i <= |s| && BehindHolds(NoAlnumBehind, s, i)
    ensures i == 0
  {
  }

  lemma StartIsNotB(m: Masker, vocab: set<string>, n: string, s: string)
    requires TieredBy(m, vocab) && IsToken(s, vocab) && n in m.names && Stands(n, s, 0)
    ensures TierFor(m, n) == C || TierFor(m, n) == D
    ensures TierFor(m, n) == C ==> 3 <= |n| < |s| && n <= Lower(s) && !IsDomain(n)
  {
    BareTier(m, vocab, n, s, 0);
    StandsFirst(n, s);
    StandsInAlnum(n, s, 0);
    if n != Lower(s) {
      assert StartsWith(Lower(s), n);
      assert StartsOne(n, vocab);
    }
  }

  lemma LeadingIsNotB(m: Masker, vocab: set<string>, s: string)
    requires TieredBy(m, vocab) && IsToken(s, vocab)
    ensures Silent(Pattern(NoAlnumBehind, Of(m, m.names, B), NothingAhead), s, 0)
  {
    var p := Pattern(NoAlnumBehind, Of(m, m.names, B), NothingAhead);
    forall i | 0 <= i <= |s| ensures Match(p, s, i).None? {
      MatchIsLongest(p, s, i);
      forall n | n in m.names && Fires(p, n, s, i) ensures TierFor(m, n) != B {
        BoundaryIsStart(s, i);
        StartIsNotB(m, vocab, n, s);
      }
    }
  }

  function WordPattern(m: Masker): Pattern {
    Pattern(NoAlnumBehind, Of(m, m.names, C), NoLetterAhead)
  }

  lemma WordPatternSilentLater(m: Masker, s: string, from: nat)
    requires Alnum(s) && 0 < from <= |s|
    ensures Silent(WordPattern(m), s, from)
  {
    forall i | from <= i <= |s| ensures Match(WordPattern(m), s, i).None? {
      MatchIsLongest(WordPattern(m), s, i);
      assert !BehindHolds(NoAlnumBehind, s, i);
    }
  }

  /** The word pattern fires at the start of a token for exactly the names that cling to it. */
  lemma WordPatternFires(m: Masker, vocab: set<string>, s: string, n: string)
    requires TieredBy(m, vocab) && IsToken(s, vocab)
    ensures n in WordPattern(m).names && Fires(WordPattern(m), n, s, 0) <==> n in m.names && Clings(m, n, s)
  {
    StandsFirst(n, s);
    if n in m.names && Stands(n, s, 0) {
      StartIsNotB(m, vocab, n, s);
    }
  }

  // ---------------------------------------------------------------- the places

  lemma PlaceSilent(p: Pattern, s: string, i: nat)
    requires HasMark(p.behind, p.ahead) && Alnum(s) && i <= |s|
    ensures Match(p, s, i).None?
  {
    forall n | n in p.names ensures !Fires(p, n, s, i) {
      PlaceCannotFire(p, n, s, i);
    }
    NothingFires(p, s, i);
  }

  lemma NothingFires(p: Pattern, s: string, i: nat)
    requires i <= |s| && forall n :: n in p.names ==> !Fires(p, n, s, i)
    ensures Match(p, s, i).None?
  {
    MatchIsLongest(p, s, i);
  }

  lemma PlaceCannotFire(p: Pattern, n: string, s: string, i: nat)
    requires HasMark(p.behind, p.ahead) && Alnum(s) && i <= |s|
    ensures !Fires(p, n, s, i)
  {
    if i + |n| <= |s| {
      BehindOrAheadFails(p.behind, p.ahead, s, i, i + |n|);
    }
  }

  ghost predicate HasMark(g: Behind, h: Ahead) {
    g.HomeBehind? || g.HomeDigitBehind? || g.UnderHomeBehind? || g.PhpBehind? || h.PublicHtmlAhead? || h.ConfAhead?
  }

  lemma PlaceHasMark(n: string, p: Pattern)
    requires p in Places(n)
    ensures HasMark(p.behind, p.ahead)
  {
  }

  /** Each place has a mark that is not a letter or digit, behind the name or ahead of it. */
  lemma BehindOrAheadFails(g: Behind, h: Ahead, s: string, i: nat, j: nat)
    requires Alnum(s) && i <= |s| && j <= |s|
    requires HasMark(g, h)
    ensures !(BehindHolds(g, s, i) && AheadHolds(h, s, j))
  {
    MarkNotBehind("/home/", s, i);
    MarkNotBehind("_home_", s, i);
    MarkNotBehind("/", s, i);
    MarkNotBehind("-", s, i);
    MarkNotInAlnum("_public_html", s, j);
    MarkNotInAlnum(".conf", s, j);
  }

  lemma MarkNotBehind(mark: string, s: string, i: nat)
    requires Alnum(s) && mark != "" && !IsAlnum(mark[0])
    ensures !StandsBefore(mark, s, i)
  {
    if |mark| <= i {
      MarkNotInAlnum(mark, s, i - |mark|);
    }
  }

  lemma MarkNotInAlnum(mark: string, s: string, i: nat)
    requires Alnum(s) && mark != "" && !IsAlnum(mark[0])
    ensures !Stands(mark, s, i)
  {
    if Stands(mark, s, i) {
      StandsInAlnum(mark, s, i);
    }
  }

  lemma {:induction false} PlacesSilent(ps: seq<Pattern>, f: string -> string, s: string)
    requires forall p :: p in ps ==> Silent(p, s, 0)
    ensures SubAll(ps, f, s) == s
  {
    if ps != [] {
      SilentFrom(ps[0], f, s, 0);
      assert s[0..] == s;
      PlacesSilent(ps[1..], f, s);
    }
  }

  lemma {:induction false} PlaceOf(names: seq<string>, p: Pattern) returns (n: string)
    requires p in AllPlaces(names)
    ensures n in names && p in Places(n)
  {
    if p in Places(names[0]) {
      n := names[0];
    } else {
      n := PlaceOf(names[1..], p);
    }
  }

  lemma AllPlacesSilent(names: seq<string>, f: string -> string, s: string)
    requires Alnum(s)
    ensures SubAll(AllPlaces(names), f, s) == s
  {
    forall p | p in AllPlaces(names) ensures Silent(p, s, 0) {
      var n := PlaceOf(names, p);
      PlaceHasMark(n, p);
      forall i: nat | i <= |s| ensures Match(p, s, i).None? {
        PlaceSilent(p, s, i);
      }
    }
    PlacesSilent(AllPlaces(names), f, s);
  }

  // ---------------------------------------------------------------- the theorem

  lemma SilentPass(p: Pattern, ps: seq<Pattern>, f: string -> string, s: string)
    requires Silent(p, s, 0)
    ensures SubAll([p] + ps, f, s) == SubAll(ps, f, s)
  {
    SilentFrom(p, f, s, 0);
    assert s[0..] == s && ([p] + ps)[1..] == ps;
  }

  /** On a token, only the word pattern is left of the four wide ones. */
  lemma OnlyWordPattern(m: Masker, vocab: set<string>, f: string -> string, s: string)
    requires TieredBy(m, vocab) && IsToken(s, vocab)
    ensures SubAll(Passes(m), f, s) == SubAll([WordPattern(m)] + AllPlaces(Of(m, m.names, D)), f, s)
  {
    var w, rest := WidePasses(m), [WordPattern(m)] + AllPlaces(Of(m, m.names, D));
    DomainsSilent(m, s);
    InsideIsNotA(m, vocab, s);
    LeadingIsNotB(m, vocab, s);
    assert Passes(m) == [w[0]] + ([w[1]] + ([w[2]] + rest));
    SilentPass(w[0], [w[1]] + ([w[2]] + rest), f, s);
    SilentPass(w[1], [w[2]] + rest, f, s);
    SilentPass(w[2], rest, f, s);
  }

  lemma NotResidualUntouched(m: Masker, vocab: set<string>, f: string -> string, s: string)
    requires TieredBy(m, vocab) && IsToken(s, vocab) && !Residual(m, s)
    ensures SubAll(Passes(m), f, s) == s
  {
    OnlyWordPattern(m, vocab, f, s);
    var p := WordPattern(m);
    forall i: nat | i <= |s| ensures Match(p, s, i).None? {
      if i == 0 {
        MatchIsLongest(p, s, 0);
        forall n ensures !(n in p.names && Fires(p, n, s, 0)) {
          WordPatternFires(m, vocab, s, n);
        }
      } else {
        WordPatternSilentLater(m, s, i);
      }
    }
    SilentPass(p, AllPlaces(Of(m, m.names, D)), f, s);
    AllPlacesSilent(Of(m, m.names, D), f, s);
  }

  /** The name that clings to a residual token, and the longest if there are several. */
  lemma ClingingName(m: Masker, vocab: set<string>, s: string) returns (n: string)
    requires TieredBy(m, vocab) && IsToken(s, vocab) && Residual(m, s)
    ensures n in m.names && Clings(m, n, s) && n != "" && Match(WordPattern(m), s, 0) == Some(n)
    ensures forall o :: o in m.names && Clings(m, o, s) && o != n ==> |o| < |n|
  {
    var p := WordPattern(m);
    MatchIsLongest(p, s, 0);
    forall o ensures o in p.names && Fires(p, o, s, 0) <==> o in m.names && Clings(m, o, s) {
      WordPatternFires(m, vocab, s, o);
    }
    n := Match(p, s, 0).value;
    StartIsNotB(m, vocab, n, s);
  }

  lemma WordReplaced(m: Masker, f: string -> string, s: string, n: string)
    requires Alnum(s) && Match(WordPattern(m), s, 0) == Some(n) && n != ""
    ensures |n| <= |s| && Sub(WordPattern(m), f, s) == f(s[..|n|]) + s[|n|..]
  {
    WordPatternSilentLater(m, s, |n|);
    SilentFrom(WordPattern(m), f, s, |n|);
    assert s[0..0 + |n|] == s[..|n|];
  }

  lemma ResidualRewritten(m: Masker, vocab: set<string>, f: string -> string, s: string) returns (n: string)
    requires TieredBy(m, vocab) && IsToken(s, vocab) && Residual(m, s)
    ensures n in m.names && Clings(m, n, s)
    ensures forall o :: o in m.names && Clings(m, o, s) && o != n ==> |o| < |n|
    ensures Alnum(f(s[..|n|])) ==> SubAll(Passes(m), f, s) == f(s[..|n|]) + s[|n|..]
  {
    n := ClingingName(m, vocab, s);
    if Alnum(f(s[..|n|])) {
      ResidueReplaced(m, vocab, f, s, n);
    }
  }

  lemma ResidueReplaced(m: Masker, vocab: set<string>, f: string -> string, s: string, n: string)
    requires TieredBy(m, vocab) && IsToken(s, vocab)
    requires Match(WordPattern(m), s, 0) == Some(n) && n != "" && Alnum(f(s[..|n|]))
    ensures SubAll(Passes(m), f, s) == f(s[..|n|]) + s[|n|..]
  {
    var p, ps, t := WordPattern(m), AllPlaces(Of(m, m.names, D)), f(s[..|n|]) + s[|n|..];
    OnlyWordPattern(m, vocab, f, s);
    WordReplaced(m, f, s, n);
    assert ([p] + ps)[1..] == ps;
    AllPlacesSilent(Of(m, m.names, D), f, t);
  }

  /**
    * A stock token comes out as it went in unless a tier-C name clings to its start
    * before a digit; the longest such name is then what is replaced, and nothing else.
    */
  lemma VocabularyUntouched(m: Masker, vocab: set<string>, s: string)
    requires TieredBy(m, vocab) && IsToken(s, vocab) && m.keep == [] && !Residual(m, s)
    ensures Masked(m, s) == s
  {
    NotResidualUntouched(m, vocab, Pseudonymizer(m), s);
  }

  lemma ResidueOfVocabulary(m: Masker, vocab: set<string>, s: string) returns (n: string)
    requires TieredBy(m, vocab) && IsToken(s, vocab) && m.keep == [] && Residual(m, s)
    requires forall o :: o in m.names ==> o in m.pseudonym && (!IsDomain(o) ==> Alnum(m.pseudonym[o]))
    ensures n in m.names && Clings(m, n, s)
    ensures forall o :: o in m.names && Clings(m, o, s) && o != n ==> |o| < |n|
    ensures Masked(m, s) == if IsHex64(s) then s else m.pseudonym[n] + s[|n|..]
    ensures Masked(m, s) == s <==> IsHex64(s) || m.pseudonym[n] == s[..|n|]
  {
    n := ResidualRewritten(m, vocab, Pseudonymizer(m), s);
    assert Lower(s[..|n|]) == n;
    SameAfterReplacing(s, |n|, m.pseudonym[n]);
  }

  lemma SameAfterReplacing(s: string, n: nat, put: string)
    requires n <= |s|
    ensures put + s[n..] == s <==> put == s[..n]
  {
    assert s == s[..n] + s[n..];
    if put + s[n..] == s {
      assert |put| == n;
      assert (put + s[n..])[..n] == put;
    }
  }

  // ---------------------------------------------------------------- prefixes

  function PatternOf(m: Masker, t: Tier): Pattern
    requires t != D
  {
    WidePasses(m)[Rank(t) + 1]
  }

  /**
    * Where a name stands with its own guards met, no earlier pass takes a shorter name
    * it begins with, and its own pass takes no such name either. The name is not itself
    * a vocabulary token.
    */
  lemma PrefixNeverFirst(m: Masker, vocab: set<string>, long: string, short: string, text: string, i: nat, t: Tier)
    requires TieredBy(m, vocab) && long in m.names && short in m.names && short < long
    requires '.' !in long && long !in vocab && TierFor(m, long) != D && t != D
    requires i <= |text| && Fires(PatternOf(m, TierFor(m, long)), long, text, i)
    requires Rank(t) <= Rank(TierFor(m, long))
    ensures Match(PatternOf(m, t), text, i) != Some(short)
  {
    var p := PatternOf(m, t);
    assert '.' !in short by {
      assert forall k :: 0 <= k < |short| ==> short[k] == long[k];
    }
    PrefixRank(short, long, vocab);
    MatchIsLongest(p, text, i);
    if short in p.names {
      assert TierFor(m, short) == t;
      assert t == TierFor(m, long);
      assert long in p.names;
    }
  }
}
