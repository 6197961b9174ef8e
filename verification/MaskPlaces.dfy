/** Where each kind of name is masked, read off the text itself; what a masked text can still show, and when nothing is masked. */
module MaskPlaces {
  import opened Scanner
  import opened MaskTiers
  import opened KeptSpans
  import opened IncidentMask
  import opened MaskReach
  import opened MaskClear

  // ---------------------------------------------------------------- places in a text

  /** `word`, in lower case, stands at `i` in any letter case. */
  predicate WordAt(word: string, text: string, i: int) {
    && 0 <= i && i + |word| <= |text|
    && forall k :: 0 <= k < |word| ==> (var c := text[i + k]; if 'A' <= c <= 'Z' then c as int + 32 else c as int) == word[k] as int
  }

  predicate DigitIn(text: string, i: int) {
    0 <= i < |text| && '0' <= text[i] <= '9'
  }

  predicate LetterIn(text: string, i: int) {
    0 <= i < |text| && ('a' <= text[i] <= 'z' || 'A' <= text[i] <= 'Z')
  }

  /** The end of the text, a slash, a quote, a backslash or white space. */
  predicate SegmentEnds(text: string, e: int) {
    e == |text| || (0 <= e < |text| && (text[e] in {'/', '"', '\'', '\\', ' '} || 9 <= text[e] as int <= 13 || 28 <= text[e] as int <= 31))
  }

  /** The five places where a name of tier D is masked, and the stretch of text that makes each one. */
  predicate InAPlace(n: string, text: string, j: nat, lo: int, hi: int) {
    var e := j + |n|;
    || (WordAt("/home/", text, j - 6) && SegmentEnds(text, e) && lo == j - 6 && hi == e + 1)
    || (WordAt("/home", text, j - 7) && DigitIn(text, j - 2) && WordAt("/", text, j - 1) && SegmentEnds(text, e) && lo == j - 7 && hi == e + 1)
    || (WordAt("_home_", text, j - 6) && WordAt("_", text, e) && lo == j - 6 && hi == e + 1)
    || (!LetterIn(text, j - 1) && !DigitIn(text, j - 1) && WordAt("_public_html", text, e) && lo == j - 1 && hi == e + 12)
    || (WordAt("php", text, j - 6) && DigitIn(text, j - 3) && DigitIn(text, j - 2) && WordAt("-", text, j - 1) && WordAt(".conf", text, e)
        && lo == j - 6 && hi == e + 5)
  }

  /** A domain has a dot, and does not begin with one. */
  predicate Dotted(n: string) {
    '.' in n && n[0] != '.'
  }

  /** The tier a map records, or else C, or D for one or two characters. */
  predicate InTier(m: Masker, n: string, t: Tier) {
    !Dotted(n) && (if n in m.tier then m.tier[n] == t else t == if |n| >= 3 then C else D)
  }

  /** A name stands where names of its kind are masked; `lo` to `hi` is what shows it. */
  predicate Shown(m: Masker, n: string, text: string, j: nat, lo: int, hi: int) {
    var e := j + |n|;
    && n in m.names && WordAt(n, text, j)
    && (|| (Dotted(n) && lo == j && hi == e)
        || (InTier(m, n, A) && lo == j && hi == e)
        || (InTier(m, n, B) && !LetterIn(text, j - 1) && !DigitIn(text, j - 1) && lo == j - 1 && hi == e)
        || (InTier(m, n, C) && !LetterIn(text, j - 1) && !DigitIn(text, j - 1) && !LetterIn(text, e) && lo == j - 1 && hi == e + 1)
        || (InTier(m, n, D) && InAPlace(n, text, j, lo, hi)))
  }

  // ---------------------------------------------------------------- the passes look there

  lemma StandsIsWordAt(word: string, text: string, i: nat)
    ensures Stands(word, text, i) <==> WordAt(word, text, i)
  {
    if i + |word| <= |text| {
      var part := text[i..i + |word|];
      forall k | 0 <= k < |word| ensures Lower(part)[k] as int == (var c := text[i + k]; if 'A' <= c <= 'Z' then c as int + 32 else c as int) {
        assert part[k] == text[i + k];
      }
      if WordAt(word, text, i) {
        assert Lower(part) == word;
      }
    }
  }

  lemma BeforeIsWordAt(word: string, text: string, i: nat)
    ensures StandsBefore(word, text, i) <==> WordAt(word, text, i - |word|)
  {
    if |word| <= i {
      StandsIsWordAt(word, text, i - |word|);
    }
  }

  ghost predicate FiresOver(p: Pattern, n: string, text: string, j: nat, lo: int, hi: int) {
    j <= |text| && Fires(p, n, text, j) && From(p, j) == lo && To(p, j, n) == hi
  }

  lemma WideShows(p: Pattern, n: string, text: string, j: nat, lo: int, hi: int)
    requires Wide(p)
    ensures FiresOver(p, n, text, j, lo, hi) <==>
            && WordAt(n, text, j)
            && (p.behind.NoAlnumBehind? ==> !LetterIn(text, j - 1) && !DigitIn(text, j - 1))
            && (p.ahead.NoLetterAhead? ==> !LetterIn(text, j + |n|))
            && lo == (if p.behind.NoAlnumBehind? then j - 1 else j) && hi == (if p.ahead.NoLetterAhead? then j + |n| + 1 else j + |n|)
  {
    StandsIsWordAt(n, text, j);
  }

  lemma HomeShows(n: string, text: string, j: nat, lo: int, hi: int)
    ensures FiresOver(Pattern(HomeBehind, [n], SegmentEndAhead), n, text, j, lo, hi) <==>
            WordAt(n, text, j) && WordAt("/home/", text, j - 6) && SegmentEnds(text, j + |n|) && lo == j - 6 && hi == j + |n| + 1
  {
    StandsIsWordAt(n, text, j);
    BeforeIsWordAt("/home/", text, j);
  }

  lemma HomeDigitShows(n: string, text: string, j: nat, lo: int, hi: int)
    ensures FiresOver(Pattern(HomeDigitBehind, [n], SegmentEndAhead), n, text, j, lo, hi) <==>
            WordAt(n, text, j) && WordAt("/home", text, j - 7) && DigitIn(text, j - 2) && WordAt("/", text, j - 1)
            && SegmentEnds(text, j + |n|) && lo == j - 7 && hi == j + |n| + 1
  {
    StandsIsWordAt(n, text, j);
    BeforeIsWordAt("/", text, j);
    if j >= 2 {
      BeforeIsWordAt("/home", text, j - 2);
    }
  }

  lemma UnderHomeShows(n: string, text: string, j: nat, lo: int, hi: int)
    ensures FiresOver(Pattern(UnderHomeBehind, [n], UnderscoreAhead), n, text, j, lo, hi) <==>
            WordAt(n, text, j) && WordAt("_home_", text, j - 6) && WordAt("_", text, j + |n|) && lo == j - 6 && hi == j + |n| + 1
  {
    StandsIsWordAt(n, text, j);
    BeforeIsWordAt("_home_", text, j);
    StandsIsWordAt("_", text, j + |n|);
  }

  lemma PublicHtmlShows(n: string, text: string, j: nat, lo: int, hi: int)
    ensures FiresOver(Pattern(NoAlnumBehind, [n], PublicHtmlAhead), n, text, j, lo, hi) <==>
            WordAt(n, text, j) && !LetterIn(text, j - 1) && !DigitIn(text, j - 1) && WordAt("_public_html", text, j + |n|)
            && lo == j - 1 && hi == j + |n| + 12
  {
    StandsIsWordAt(n, text, j);
    StandsIsWordAt("_public_html", text, j + |n|);
  }

  lemma ConfShows(n: string, text: string, j: nat, lo: int, hi: int)
    ensures FiresOver(Pattern(PhpBehind, [n], ConfAhead), n, text, j, lo, hi) <==>
            WordAt(n, text, j) && WordAt("php", text, j - 6) && DigitIn(text, j - 3) && DigitIn(text, j - 2) && WordAt("-", text, j - 1)
            && WordAt(".conf", text, j + |n|) && lo == j - 6 && hi == j + |n| + 5
  {
    StandsIsWordAt(n, text, j);
    BeforeIsWordAt("-", text, j);
    if j >= 3 {
      BeforeIsWordAt("php", text, j - 3);
    }
    StandsIsWordAt(".conf", text, j + |n|);
  }

  ghost predicate ShownBy(ps: seq<Pattern>, n: string, text: string, j: nat, lo: int, hi: int) {
    exists p :: p in ps && n in p.names && FiresOver(p, n, text, j, lo, hi)
  }

  lemma PlacesShow(n: string, text: string, j: nat, lo: int, hi: int)
    ensures ShownBy(Places(n), n, text, j, lo, hi) <==> WordAt(n, text, j) && InAPlace(n, text, j, lo, hi)
  {
    var ps := Places(n);
    HomeShows(n, text, j, lo, hi);
    UnderHomeShows(n, text, j, lo, hi);
    HomeDigitShows(n, text, j, lo, hi);
    PublicHtmlShows(n, text, j, lo, hi);
    ConfShows(n, text, j, lo, hi);
    assert ps[0] in ps && ps[1] in ps && ps[2] in ps && ps[3] in ps && ps[4] in ps;
    assert n in [n];
  }

  lemma {:induction false} AllPlacesShow(names: seq<string>, n: string, text: string, j: nat, lo: int, hi: int)
    ensures ShownBy(AllPlaces(names), n, text, j, lo, hi) <==> n in names && ShownBy(Places(n), n, text, j, lo, hi)
  {
    if names != [] {
      AllPlacesShow(names[1..], n, text, j, lo, hi);
      assert names == [names[0]] + names[1..];
      ShownByConcat(Places(names[0]), AllPlaces(names[1..]), n, text, j, lo, hi);
      assert forall p :: p in Places(names[0]) ==> p.names == [names[0]];
    }
  }

  lemma ShownByConcat(ps: seq<Pattern>, qs: seq<Pattern>, n: string, text: string, j: nat, lo: int, hi: int)
    ensures ShownBy(ps + qs, n, text, j, lo, hi) <==> ShownBy(ps, n, text, j, lo, hi) || ShownBy(qs, n, text, j, lo, hi)
  {
    if p :| p in ps && n in p.names && FiresOver(p, n, text, j, lo, hi) {
      assert p in ps + qs;
    }
    if p :| p in qs && n in p.names && FiresOver(p, n, text, j, lo, hi) {
      assert p in ps + qs;
    }
  }

  lemma {:induction false} DomainsAreDotted(names: seq<string>, n: string)
    ensures n in Domains(names) <==> n in names && Dotted(n)
  {
    if names != [] {
      DomainsAreDotted(names[1..], n);
      assert names == [names[0]] + names[1..];
    }
  }

  lemma FourShow(ps: seq<Pattern>, n: string, text: string, j: nat, lo: int, hi: int)
    requires |ps| == 4
    ensures ShownBy(ps, n, text, j, lo, hi) <==>
            || (n in ps[0].names && FiresOver(ps[0], n, text, j, lo, hi)) || (n in ps[1].names && FiresOver(ps[1], n, text, j, lo, hi))
            || (n in ps[2].names && FiresOver(ps[2], n, text, j, lo, hi)) || (n in ps[3].names && FiresOver(ps[3], n, text, j, lo, hi))
  {
    assert ps[0] in ps && ps[1] in ps && ps[2] in ps && ps[3] in ps;
  }

  /** Which of the wide passes have the name. */
  lemma WideNames(m: Masker, n: string)
    ensures var ps := WidePasses(m);
            && (n in ps[0].names <==> n in m.names && Dotted(n)) && (n in ps[1].names <==> n in m.names && InTier(m, n, A))
            && (n in ps[2].names <==> n in m.names && InTier(m, n, B)) && (n in ps[3].names <==> n in m.names && InTier(m, n, C))
    ensures n in Of(m, m.names, D) <==> n in m.names && InTier(m, n, D)
  {
    DomainsAreDotted(m.names, n);
  }

  lemma WidePassesShow(m: Masker, n: string, text: string, j: nat, lo: int, hi: int)
    requires n in m.names && !InTier(m, n, D)
    ensures ShownBy(WidePasses(m), n, text, j, lo, hi) <==> Shown(m, n, text, j, lo, hi)
  {
    var ps := WidePasses(m);
    WideNames(m, n);
    FourShow(ps, n, text, j, lo, hi);
    forall i | 0 <= i < 4 ensures Wide(ps[i]) {
    }
    WideShows(ps[0], n, text, j, lo, hi);
    WideShows(ps[1], n, text, j, lo, hi);
    WideShows(ps[2], n, text, j, lo, hi);
    WideShows(ps[3], n, text, j, lo, hi);
  }

  lemma NoWidePassShows(m: Masker, n: string, text: string, j: nat, lo: int, hi: int)
    requires n !in m.names || InTier(m, n, D)
    ensures !ShownBy(WidePasses(m), n, text, j, lo, hi)
  {
    WideNames(m, n);
    FourShow(WidePasses(m), n, text, j, lo, hi);
  }

  /** The passes look for names exactly where they are shown, and at what shows them. */
  lemma ShownIff(m: Masker, n: string, text: string, j: nat, lo: int, hi: int)
    ensures Shown(m, n, text, j, lo, hi) <==> ShownBy(Passes(m), n, text, j, lo, hi)
  {
    ShownByConcat(WidePasses(m), AllPlaces(Of(m, m.names, D)), n, text, j, lo, hi);
    AllPlacesShow(Of(m, m.names, D), n, text, j, lo, hi);
    PlacesShow(n, text, j, lo, hi);
    WideNames(m, n);
    if n in m.names && !InTier(m, n, D) {
      WidePassesShow(m, n, text, j, lo, hi);
    } else {
      NoWidePassShows(m, n, text, j, lo, hi);
    }
  }

  lemma FiringShows(m: Masker, p: Pattern, n: string, text: string, j: nat)
    requires p in Passes(m) && n in p.names && j <= |text| && Fires(p, n, text, j)
    ensures Shown(m, n, text, j, From(p, j), To(p, j, n))
  {
    assert FiresOver(p, n, text, j, From(p, j), To(p, j, n));
    ShownIff(m, n, text, j, From(p, j), To(p, j, n));
  }

  // ---------------------------------------------------------------- what masking leaves

  /**
    * Wherever a name still stands in a masked text where names of its kind are masked, part of
    * it or of what shows it was written by masking.
    */
  lemma NothingIsLeftAlone(m: Masker, f: string -> string, text: string, n: string, j: nat, lo: int, hi: int)
    requires m.keep == [] && Writes(f) && n != "" && Shown(m, n, MaskedWith(m, f, text), j, lo, hi)
    ensures !Unmarked(WrittenSince(m, f, text, 0), lo, hi)
  {
    var ps, out := Passes(m), MaskedWith(m, f, text);
    ShownIff(m, n, out, j, lo, hi);
    var p :| p in ps && n in p.names && FiresOver(p, n, out, j, lo, hi);
    assert ps[..0] == [] && ps[0..] == ps;
    PassesReach(ps, f, text, NoMarks(|text|), p);
    assert !Untouched(p, MarksAll(ps, f, text, NoMarks(|text|)), j, n);
  }

  ghost predicate ShowsNothing(m: Masker, text: string) {
    forall n, j: nat, lo, hi :: !Shown(m, n, text, j, lo, hi)
  }

  lemma NothingMatches(m: Masker, text: string, p: Pattern, j: nat)
    requires ShowsNothing(m, text) && p in Passes(m) && j <= |text|
    ensures Match(p, text, j).None?
  {
    MatchIsLongest(p, text, j);
    if Match(p, text, j).Some? {
      FiringShows(m, p, Match(p, text, j).value, text, j);
      assert false;
    }
  }

  lemma {:induction false} SilentMarks(p: Pattern, f: string -> string, text: string, before: seq<Mark>, i: nat)
    requires i <= |text| == |before| && Silent(p, text, i)
    ensures MarksFrom(p, f, text, before, i) == before[i..]
    decreases |text| - i
  {
    if i < |text| {
      SilentMarks(p, f, text, before, i + 1);
      AtCopy(p, f, text, before, i);
      assert before[i..] == [before[i]] + before[i + 1..];
    } else {
      NothingAtTheEnd(p, f, text, before);
    }
  }

  lemma {:induction false} SilentMarksAll(ps: seq<Pattern>, f: string -> string, text: string, before: seq<Mark>)
    requires |text| == |before| && forall p, j: nat :: p in ps && j <= |text| ==> Match(p, text, j).None?
    ensures SubAll(ps, f, text) == text && MarksAll(ps, f, text, before) == before
  {
    if ps != [] {
      SilentFrom(ps[0], f, text, 0);
      SilentMarks(ps[0], f, text, before, 0);
      assert text[0..] == text && before[0..] == before;
      SilentMarksAll(ps[1..], f, text, before);
    }
  }

  /** A text that shows no name is not changed. */
  lemma NothingShownNothingMasked(m: Masker, f: string -> string, text: string)
    requires m.keep == [] && ShowsNothing(m, text)
    ensures MaskedWith(m, f, text) == text && WrittenSince(m, f, text, 0) == NoMarks(|text|)
  {
    forall p, j: nat | p in Passes(m) && j <= |text| ensures Match(p, text, j).None? {
      NothingMatches(m, text, p, j);
    }
    assert Passes(m)[..0] == [] && Passes(m)[0..] == Passes(m);
    SilentMarksAll(Passes(m), f, text, NoMarks(|text|));
  }

  lemma {:induction false} EmptyComesOfEmpty(ps: seq<Pattern>, f: string -> string, text: string)
    requires Writes(f) && SubAll(ps, f, text) == ""
    ensures text == ""
  {
    if ps != [] {
      EmptyComesOfEmpty(ps[1..], f, Sub(ps[0], f, text));
      EmptyOnlyAtTheEnd(ps[0], f, text, 0);
    }
  }

  lemma NothingWrittenIsTheText(m: Masker, f: string -> string, text: string)
    requires m.keep == [] && Writes(f) && Unmarked(WrittenSince(m, f, text, 0), 0, |MaskedWith(m, f, text)|)
    ensures MaskedWith(m, f, text) == text
  {
    var ps, out := Passes(m), MaskedWith(m, f, text);
    assert ps[..0] == [] && ps[0..] == ps;
    if out == "" {
      EmptyComesOfEmpty(ps, f, text);
    } else {
      var c := UnmarkedIsTheText(ps, f, text, NoMarks(|text|), 0, |out|);
      assert text[0..|text|] == text && out[0..|out|] == out;
    }
  }

  /** Masking writes into a text if and only if the text shows a name. */
  lemma WritesIffShown(m: Masker, f: string -> string, text: string)
    requires m.keep == [] && Writes(f) && "" !in m.names
    ensures Unmarked(WrittenSince(m, f, text, 0), 0, |MaskedWith(m, f, text)|) <==> ShowsNothing(m, text)
  {
    if ShowsNothing(m, text) {
      NothingShownNothingMasked(m, f, text);
    }
    if Unmarked(WrittenSince(m, f, text, 0), 0, |MaskedWith(m, f, text)|) {
      NothingWrittenIsTheText(m, f, text);
      forall n, j: nat, lo, hi ensures !Shown(m, n, text, j, lo, hi) {
        if Shown(m, n, text, j, lo, hi) {
          NothingIsLeftAlone(m, f, text, n, j, lo, hi);
          assert false;
        }
      }
    }
  }
}
