/**
  * The row masker: which pattern each identifier gets from its tier, the passes in
  * order, and what they leave alone.
  */
module IncidentMask {
  import opened Scanner
  import opened MaskTiers
  import opened KeepHoles
  import opened KeptSpans

  /** `names` are the identifiers in the map's order, lower-case; `tier` what the map records for them. */
  datatype Masker = Masker(names: seq<string>, pseudonym: map<string, string>, tier: map<string, Tier>, keep: seq<string>)

  // ---------------------------------------------------------------- patterns

  predicate IsDomain(n: string) {
    '.' in n && n[0] != '.'
  }

  function TierFor(m: Masker, n: string): Tier {
    if n in m.tier then m.tier[n] else if |n| >= 3 then C else D
  }

  function Domains(names: seq<string>): seq<string> {
    if names == [] then [] else (if IsDomain(names[0]) then [names[0]] else []) + Domains(names[1..])
  }

  function Of(m: Masker, names: seq<string>, t: Tier): (r: seq<string>)
    ensures forall n :: n in r <==> n in names && !IsDomain(n) && TierFor(m, n) == t
  {
    if names == [] then []
    else (if !IsDomain(names[0]) && TierFor(m, names[0]) == t then [names[0]] else []) + Of(m, names[1..], t)
  }

  function WidePasses(m: Masker): seq<Pattern> {
    [Pattern(NothingBehind, Domains(m.names), NothingAhead),
     Pattern(NothingBehind, Of(m, m.names, A), NothingAhead),
     Pattern(NoAlnumBehind, Of(m, m.names, B), NothingAhead),
     Pattern(NoAlnumBehind, Of(m, m.names, C), NoLetterAhead)]
  }

  /** The five places where a colliding name can only be the account. */
  function Places(n: string): seq<Pattern> {
    [Pattern(HomeBehind, [n], SegmentEndAhead),
     Pattern(UnderHomeBehind, [n], UnderscoreAhead),
     Pattern(HomeDigitBehind, [n], SegmentEndAhead),
     Pattern(NoAlnumBehind, [n], PublicHtmlAhead),
     Pattern(PhpBehind, [n], ConfAhead)]
  }

  function AllPlaces(names: seq<string>): seq<Pattern> {
    if names == [] then [] else Places(names[0]) + AllPlaces(names[1..])
  }

  function Passes(m: Masker): seq<Pattern> {
    WidePasses(m) + AllPlaces(Of(m, m.names, D))
  }

  function LowerAll(names: seq<string>): (r: seq<string>)
    ensures |r| == |names| && forall i :: 0 <= i < |names| ==> r[i] == Lower(names[i])
  {
    seq(|names|, i requires 0 <= i < |names| => Lower(names[i]))
  }

  function KeepPattern(m: Masker): Pattern {
    Pattern(NothingBehind, LowerAll(m.keep), NothingAhead)
  }

  // ---------------------------------------------------------------- masking

  function Pseudonym(m: Masker, span: string): string {
    var n := Lower(span);
    if n in m.pseudonym then m.pseudonym[n] else span
  }

  function Pseudonymizer(m: Masker): string -> string {
    s => Pseudonym(m, s)
  }

  function MaskedWith(m: Masker, f: string -> string, text: string): string {
    if m.keep == [] then SubAll(Passes(m), f, text)
    else var c := CutFrom(KeepPattern(m), text, 0);
         RestoreFrom(SubAll(Passes(m), f, Holed(c.gaps, 0)), c.kept, 0)
  }

  /** A sha256 field is left alone; `$` also matches before a newline at the end. */
  predicate IsHex64(text: string) {
    (|text| == 64 || (|text| == 65 && text[64] == '\n'))
    && forall i :: 0 <= i < 64 ==> IsDigit(text[i]) || 'a' <= text[i] <= 'f'
  }

  function Masked(m: Masker, text: string): string {
    if text == "" || IsHex64(text) then text else MaskedWith(m, Pseudonymizer(m), text)
  }

  /** The passes, one after the other over the same text, then the holes filled in order. */
  method MaskWith(m: Masker, f: string -> string, text: string) returns (out: string)
    ensures out == MaskedWith(m, f, text)
  {
    var holes := [];
    out := text;
    if m.keep != [] {
      out, holes := Stash(KeepPattern(m), out);
    }
    ghost var start := out;
    var passes := Passes(m);
    for k := 0 to |passes|
      invariant SubAll(passes, f, start) == SubAll(passes[k..], f, out)
    {
      out := Sub(passes[k], f, out);
      assert passes[k..][1..] == passes[k + 1..];
    }
    ghost var masked := out;
    for i := 0 to |holes|
      invariant RestoreFrom(masked, holes, 0) == RestoreFrom(out, holes, i)
    {
      out := Replace(out, Hole(i), holes[i]);
    }
  }

  method Mask(m: Masker, text: string) returns (out: string)
    ensures out == Masked(m, text)
  {
    if text == "" || IsHex64(text) {
      return text;
    }
    out := MaskWith(m, Pseudonymizer(m), text);
  }

  // ---------------------------------------------------------------- kept spans

  /** What the passes put in place of a name, and the names themselves, cannot be mistaken for a hole. */
  ghost predicate HoleSafe(m: Masker, f: string -> string) {
    AddsNoNul(f) && KeepsWords(f) && forall n :: n in m.names ==> NoNul(n) && !AllDigits(n)
  }

  lemma {:induction false} DomainsAreNames(names: seq<string>)
    ensures forall n :: n in Domains(names) ==> n in names && IsDomain(n)
  {
    if names != [] {
      DomainsAreNames(names[1..]);
    }
  }

  lemma {:induction false} PlacesMissHoles(names: seq<string>)
    requires forall n :: n in names ==> NoNul(n) && !AllDigits(n)
    ensures forall p :: p in AllPlaces(names) ==> MissesHoles(p)
  {
    if names != [] {
      PlacesMissHoles(names[1..]);
      assert forall p :: p in Places(names[0]) ==> p.names == [names[0]];
    }
  }

  lemma PassesMissHoles(m: Masker)
    requires forall n :: n in m.names ==> NoNul(n) && !AllDigits(n)
    ensures forall p :: p in Passes(m) ==> MissesHoles(p)
  {
    DomainsAreNames(m.names);
    PlacesMissHoles(Of(m, m.names, D));
    assert forall p :: p in WidePasses(m) ==> MissesHoles(p);
  }

  /** The gaps of the text around its kept spans, before and after the passes. */
  lemma MaskedGaps(m: Masker, f: string -> string, text: string) returns (c: Cut, after: seq<string>)
    requires NoNul(text) && HoleSafe(m, f) && m.keep != []
    ensures c.Valid() && Woven(c.gaps, c.kept) == text && AllNoNul(c.kept)
    ensures forall s :: s in c.kept ==> Lower(s) in KeepPattern(m).names
    ensures c == CutFrom(KeepPattern(m), text, 0)
    ensures GapsKept(c.gaps, after, f) && SubAll(Passes(m), f, Holed(c.gaps, 0)) == Holed(after, 0)
    ensures MaskedWith(m, f, text) == RestoreFrom(Holed(after, 0), c.kept, 0)
  {
    var p := KeepPattern(m);
    c := CutFrom(p, text, 0);
    CutsAreTheText(p, text, 0);
    assert text[0..] == text;
    CutNoNul(p, text, 0);
    CutMatches(p, text, 0);
    PassesMissHoles(m);
    after := PassesKeepHoles(Passes(m), f, c.gaps);
  }

  /**
    * Kept spans come through verbatim and in order, between masked gaps, unless two
    * that follow each other are separated by exactly the number of an earlier one.
    */
  lemma KeptSpansSurvive(m: Masker, f: string -> string, text: string) returns (after: seq<string>)
    requires NoNul(text) && HoleSafe(m, f) && m.keep != []
    requires Unambiguous(CutFrom(KeepPattern(m), text, 0).gaps)
    ensures var c := CutFrom(KeepPattern(m), text, 0);
            Woven(c.gaps, c.kept) == text && |after| == |c.gaps| && MaskedWith(m, f, text) == Woven(after, c.kept)
  {
    var c;
    c, after := MaskedGaps(m, f, text);
    PassesKeepAmbiguity(c.gaps, after, f);
    FillAll(after, c.kept, 0);
  }

  lemma WallInAnyCase(s: string, t: string)
    requires Lower(s) == Lower(t) && HasWallChar(t)
    ensures HasWallChar(s)
  {
    var w :| 0 <= w < |t| && WallChar(t[w]);
    assert LowerChar(s[w]) == Lower(s)[w] == LowerChar(t[w]);
    assert WallChar(s[w]);
  }

  /** With keep entries that are more than digits, that condition is exact. */
  lemma KeptSpansSurviveIff(m: Masker, f: string -> string, text: string) returns (after: seq<string>)
    requires NoNul(text) && HoleSafe(m, f) && m.keep != [] && forall k :: k in m.keep ==> HasWallChar(k)
    ensures var c := CutFrom(KeepPattern(m), text, 0);
            && Woven(c.gaps, c.kept) == text && GapsKept(c.gaps, after, f)
            && (MaskedWith(m, f, text) == Woven(after, c.kept) <==> Unambiguous(c.gaps))
            && (NoNul(MaskedWith(m, f, text)) <==> Unambiguous(c.gaps))
            && MaskedWith(m, f, text) == RestoreFrom(Holed(after, 0), c.kept, 0)
  {
    var c;
    c, after := MaskedGaps(m, f, text);
    forall s | s in c.kept ensures HasWallChar(s) {
      var k :| 0 <= k < |m.keep| && Lower(s) == Lower(m.keep[k]);
      WallInAnyCase(s, m.keep[k]);
    }
    PassesKeepAmbiguity(c.gaps, after, f);
    RestoredIffUnambiguous(after, c.kept);
  }
}
