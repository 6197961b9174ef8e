/**
  * The keep-list: kept spans are cut out and numbered, the substitutions run over
  * what is left, and the spans are put back one number at a time.
  *
  * A hole is a decimal numeral between two NULs. In a text without NULs the cut leaves
  * gaps with the holes between them, and no pattern whose names hold a NUL or are
  * nothing but digits can match across a hole or inside one. So a pass rewrites the gaps
  * one by one, seeing the holes as context only, and the text keeps its form: gaps with
  * holes `0`, `1`, ... between them.
  */
module KeepHoles {
  import opened Prelude
  import opened Scanner

  const NUL: char := '\0'

  predicate NoNul(s: string) {
    forall i :: 0 <= i < |s| ==> s[i] != NUL
  }

  predicate AllDigits(s: string) {
    forall i :: 0 <= i < |s| ==> IsDigit(s[i])
  }

  // ---------------------------------------------------------------- numerals and holes

  function DigitChar(d: nat): (c: char)
    requires d < 10
    ensures IsDigit(c) && c as int == '0' as int + d
  {
    ('0' as int + d) as char
  }

  function Numeral(n: nat): (s: string)
    ensures s != "" && AllDigits(s)
  {
    if n < 10 then [DigitChar(n)] else Numeral(n / 10) + [DigitChar(n % 10)]
  }

  lemma {:induction false} NumeralsDiffer(m: nat, n: nat)
    requires Numeral(m) == Numeral(n)
    ensures m == n
  {
    var s, t := Numeral(m), Numeral(n);
    assert s[|s| - 1] == DigitChar(m % 10) && t[|t| - 1] == DigitChar(n % 10);
    if m >= 10 {
      assert s[..|s| - 1] == Numeral(m / 10);
    }
    if n >= 10 {
      assert t[..|t| - 1] == Numeral(n / 10);
    }
    if m >= 10 && n >= 10 {
      NumeralsDiffer(m / 10, n / 10);
    }
  }

  function Hole(k: nat): (h: string)
    ensures |h| >= 2
  {
    [NUL] + Numeral(k) + [NUL]
  }

  /** The gaps between kept spans, with hole `k`, `k + 1`, ... between them. */
  function Holed(gaps: seq<string>, k: nat): string
    requires gaps != []
  {
    if |gaps| == 1 then gaps[0] else gaps[0] + (Hole(k) + Holed(gaps[1..], k + 1))
  }

  /** The gaps with the kept spans themselves between them. */
  function Woven(gaps: seq<string>, kept: seq<string>): string
    requires |gaps| == |kept| + 1
  {
    if kept == [] then gaps[0] else gaps[0] + (kept[0] + Woven(gaps[1..], kept[1..]))
  }

  // ---------------------------------------------------------------- cutting

  datatype Cut = Cut(gaps: seq<string>, kept: seq<string>) {
    predicate Valid() {
      |gaps| == |kept| + 1
    }

    /** `s` added at the front of the first gap. */
    function Behind(s: string): (c: Cut)
      requires Valid()
      ensures c.Valid()
    {
      Cut([s + gaps[0]] + gaps[1..], kept)
    }

    function After(span: string): (c: Cut)
      requires Valid()
      ensures c.Valid()
    {
      Cut([""] + gaps, [span] + kept)
    }
  }

  /** Where the keep pattern cuts `text` from `i` on. */
  function CutFrom(p: Pattern, text: string, i: nat): (c: Cut)
    requires i <= |text|
    ensures c.Valid()
    decreases |text| - i, 1
  {
    var r := Match(p, text, i);
    if r.Some? then CutRest(p, text, i).After(text[i..i + |r.value|]) else CutRest(p, text, i)
  }

  /** What is left of the cutting once the match at `i`, if there is one, has been cut. */
  function CutRest(p: Pattern, text: string, i: nat): (c: Cut)
    requires i <= |text|
    ensures c.Valid()
    decreases |text| - i, 0
  {
    var r := Match(p, text, i);
    if r.Some? && r.value != "" then CutFrom(p, text, i + |r.value|)
    else if i == |text| then Cut([""], [])
    else CutFrom(p, text, i + 1).Behind([text[i]])
  }

  lemma WovenBehind(c: Cut, s: string)
    requires c.Valid()
    ensures Woven(c.Behind(s).gaps, c.kept) == s + Woven(c.gaps, c.kept)
  {
    assert c.Behind(s).gaps[1..] == c.gaps[1..];
    if c.kept != [] {
      ConcatAssociates(s, c.gaps[0], c.kept[0] + Woven(c.gaps[1..], c.kept[1..]));
    }
  }

  lemma WovenAfter(c: Cut, span: string)
    requires c.Valid()
    ensures Woven(c.After(span).gaps, c.After(span).kept) == span + Woven(c.gaps, c.kept)
  {
    var d := c.After(span);
    assert d.gaps[1..] == c.gaps && d.kept[1..] == c.kept;
    assert "" + (span + Woven(c.gaps, c.kept)) == span + Woven(c.gaps, c.kept);
  }

  lemma HoledBehind(c: Cut, s: string, k: nat)
    requires c.Valid()
    ensures Holed(c.Behind(s).gaps, k) == s + Holed(c.gaps, k)
  {
    assert c.Behind(s).gaps[1..] == c.gaps[1..];
    if |c.gaps| > 1 {
      ConcatAssociates(s, c.gaps[0], Hole(k) + Holed(c.gaps[1..], k + 1));
    }
  }

  lemma {:induction false} RestIsTheText(p: Pattern, text: string, i: nat)
    requires i <= |text|
    ensures var r, c := Match(p, text, i), CutRest(p, text, i);
            Woven(c.gaps, c.kept) == text[i + if r.Some? then |r.value| else 0..]
    decreases |text| - i, 0
  {
    var r := Match(p, text, i);
    if r.Some? && r.value != "" {
      CutsAreTheText(p, text, i + |r.value|);
    } else if i < |text| {
      CutsAreTheText(p, text, i + 1);
      WovenBehind(CutFrom(p, text, i + 1), [text[i]]);
      assert text[i..] == [text[i]] + text[i + 1..];
    }
  }

  /** The pieces put together again are the text. */
  lemma {:induction false} CutsAreTheText(p: Pattern, text: string, i: nat)
    requires i <= |text|
    ensures Woven(CutFrom(p, text, i).gaps, CutFrom(p, text, i).kept) == text[i..]
    decreases |text| - i, 1
  {
    RestIsTheText(p, text, i);
    var r := Match(p, text, i);
    if r.Some? {
      var j := i + |r.value|;
      WovenAfter(CutRest(p, text, i), text[i..j]);
      assert text[i..] == text[i..j] + text[j..];
    }
  }

  /** Having written `out` and cut `kept`, with `c` to come, is one point of cutting `whole`. */
  ghost predicate CuttingOf(out: string, kept: seq<string>, c: Cut, whole: Cut) {
    c.Valid() && whole.Valid() && out + Holed(c.gaps, |kept|) == Holed(whole.gaps, 0) && kept + c.kept == whole.kept
  }

  lemma CutSpan(out: string, kept: seq<string>, rest: Cut, span: string, whole: Cut)
    requires rest.Valid() && CuttingOf(out, kept, rest.After(span), whole)
    ensures CuttingOf(out + Hole(|kept|), kept + [span], rest, whole)
  {
    ConcatAssociates(out, Hole(|kept|), Holed(rest.gaps, |kept| + 1));
    ConcatAssociates(kept, [span], rest.kept);
  }

  lemma CopyBefore(out: string, kept: seq<string>, rest: Cut, s: string, whole: Cut)
    requires rest.Valid() && CuttingOf(out, kept, rest.Behind(s), whole)
    ensures CuttingOf(out + s, kept, rest, whole)
  {
    HoledBehind(rest, s, |kept|);
    ConcatAssociates(out, s, Holed(rest.gaps, |kept|));
  }

  lemma CuttingEnds(out: string, kept: seq<string>, whole: Cut)
    requires CuttingOf(out, kept, Cut([""], []), whole)
    ensures out == Holed(whole.gaps, 0) && kept == whole.kept
  {
    assert out + "" == out && kept + [] == kept;
  }

  /** The pass that cuts: each span is remembered and a numbered hole is left for it. */
  method Stash(p: Pattern, text: string) returns (out: string, holes: seq<string>)
    ensures var c := CutFrom(p, text, 0); out == Holed(c.gaps, 0) && holes == c.kept
  {
    out, holes := "", [];
    var i := 0;
    ghost var whole := CutFrom(p, text, 0);
    while true
      invariant i <= |text|
      invariant CuttingOf(out, holes, CutFrom(p, text, i), whole)
      decreases |text| - i
    {
      var r := Match(p, text, i);
      if r.Some? {
        CutSpan(out, holes, CutRest(p, text, i), text[i..i + |r.value|], whole);
        out := out + Hole(|holes|);
        holes := holes + [text[i..i + |r.value|]];
      }
      assert CuttingOf(out, holes, CutRest(p, text, i), whole);
      if r.Some? && r.value != "" {
        i := i + |r.value|;
      } else if i == |text| {
        CuttingEnds(out, holes, whole);
        return;
      } else {
        CopyBefore(out, holes, CutFrom(p, text, i + 1), [text[i]], whole);
        out := out + [text[i]];
        i := i + 1;
      }
    }
  }

  // ---------------------------------------------------------------- substituting around holes

  predicate AllNoNul(ss: seq<string>) {
    forall s :: s in ss ==> NoNul(s)
  }

  /** No name can match inside a hole: none holds a NUL, and none is a run of digits. */
  predicate MissesHoles(p: Pattern) {
    forall n :: n in p.names ==> NoNul(n) && !AllDigits(n)
  }

  lemma NameHoldsNul(name: string, text: string, i: nat, j: nat)
    requires Stands(name, text, i) && i <= j < i + |name| && text[j] == NUL
    ensures !NoNul(name)
  {
    assert text[i..i + |name|][j - i] == NUL;
    assert name[j - i] == NUL;
  }

  lemma NameIsDigits(name: string, text: string, i: nat)
    requires Stands(name, text, i) && forall k :: i <= k < i + |name| ==> IsDigit(text[k])
    ensures AllDigits(name)
  {
    assert forall k :: 0 <= k < |name| ==> name[k] == LowerChar(text[i..i + |name|][k]);
  }

  lemma MatchMissesNul(p: Pattern, text: string, i: nat, j: nat)
    requires i <= j < |text| && text[j] == NUL && MissesHoles(p)
    ensures var r := Match(p, text, i); r.Some? ==> r.value != "" && i + |r.value| <= j
  {
    MatchIsLongest(p, text, i);
    forall name: string | Stands(name, text, i) && j < i + |name| ensures !NoNul(name) {
      NameHoldsNul(name, text, i, j);
    }
  }

  lemma NoMatchInDigits(p: Pattern, text: string, i: nat, j: nat)
    requires i <= j < |text| && text[j] == NUL && MissesHoles(p)
    requires forall k :: i <= k < j ==> IsDigit(text[k])
    ensures Match(p, text, i).None?
  {
    MatchMissesNul(p, text, i, j);
    MatchIsLongest(p, text, i);
    forall name: string | Stands(name, text, i) && i + |name| <= j ensures AllDigits(name) {
      NameIsDigits(name, text, i);
    }
  }

  /** Where nothing matches, the text is copied. */
  lemma {:induction false} CopyStretch(p: Pattern, f: string -> string, text: string, i: nat, j: nat)
    requires i <= j <= |text| && forall k :: i <= k < j ==> Match(p, text, k).None?
    ensures SubFrom(p, f, text, i) == text[i..j] + SubFrom(p, f, text, j)
    decreases j - i
  {
    if i < j {
      var rest := SubFrom(p, f, text, j);
      CopyStretch(p, f, text, i + 1, j);
      assert SubFrom(p, f, text, i) == "" + ([text[i]] + SubFrom(p, f, text, i + 1));
      ConcatAssociates([text[i]], text[i + 1..j], rest);
      assert text[i..j] == [text[i]] + text[i + 1..j];
    }
  }

  lemma CopyHole(p: Pattern, f: string -> string, text: string, i: nat, k: nat)
    requires i + |Hole(k)| <= |text| && text[i..i + |Hole(k)|] == Hole(k) && MissesHoles(p)
    ensures SubFrom(p, f, text, i) == Hole(k) + SubFrom(p, f, text, i + |Hole(k)|)
  {
    var j := i + |Hole(k)|;
    assert forall l :: i <= l < j ==> text[l] == text[i..j][l - i];
    MatchMissesNul(p, text, i, i);
    forall l | i < l < j ensures Match(p, text, l).None? {
      NoMatchInDigits(p, text, l, j - 1);
    }
    CopyStretch(p, f, text, i, j);
  }

  /** The replacements never put a run of digits where there was none. */
  ghost predicate KeepsWords(f: string -> string) {
    forall s :: !AllDigits(s) ==> !AllDigits(f(s))
  }

  ghost predicate KeepsLength(f: string -> string) {
    forall s :: |f(s)| == |s|
  }

  ghost predicate AddsNoNul(f: string -> string) {
    forall s :: NoNul(s) ==> NoNul(f(s))
  }

  /** What a pass makes of one gap: digits stay as they are, and digits come of nothing else. */
  ghost predicate GapKept(before: string, after: string, f: string -> string) {
    && NoNul(after)
    && (KeepsLength(f) ==> |after| == |before|)
    && (AllDigits(before) ==> after == before)
    && (KeepsWords(f) && AllDigits(after) ==> AllDigits(before))
  }

  ghost predicate GapsKept(before: seq<string>, after: seq<string>, f: string -> string) {
    && |after| == |before| && AllNoNul(after)
    && forall j :: 0 <= j < |before| ==> GapKept(before[j], after[j], f)
  }

  lemma GapGrows(s: string, t: string, b: string, a: string, f: string -> string)
    requires GapKept(s, t, f) && GapKept(b, a, f)
    ensures GapKept(s + b, t + a, f)
  {
    assert AllDigits(s + b) ==> AllDigits(s) && AllDigits(b) by {
      assert (s + b)[..|s|] == s && (s + b)[|s|..] == b;
    }
    assert AllDigits(t + a) ==> AllDigits(t) && AllDigits(a) by {
      assert (t + a)[..|t|] == t && (t + a)[|t|..] == a;
    }
  }

  lemma GrowFirstGap(later: seq<string>, s: string, t: string, f: string -> string, before: seq<string>)
    requires later != [] && before != [] && GapsKept(before, later, f) && GapKept(s, t, f)
    ensures GapsKept([s + before[0]] + before[1..], [t + later[0]] + later[1..], f)
  {
    GapGrows(s, t, before[0], later[0], f);
    forall g | g in later[1..] ensures NoNul(g) {
      assert g in later;
    }
  }

  /** The text starts with a hole: it and what follows it. */
  lemma SplitAtHole(text: string, i: nat, gaps: seq<string>, k: nat)
    requires i <= |text| && |gaps| > 1 && gaps[0] == "" && text[i..] == Holed(gaps, k)
    ensures i + |Hole(k)| <= |text| && text[i..i + |Hole(k)|] == Hole(k)
    ensures text[i + |Hole(k)|..] == Holed(gaps[1..], k + 1)
  {
    var h := Hole(k);
    assert text[i..] == h + Holed(gaps[1..], k + 1);
    assert text[i..i + |h|] == text[i..][..|h|];
    assert text[i + |h|..] == text[i..][|h|..];
  }

  /** The text starts inside a gap: some of that gap and what follows it. */
  lemma SplitInGap(text: string, i: nat, gaps: seq<string>, k: nat, n: nat)
    requires i <= |text| && gaps != [] && n <= |gaps[0]| && text[i..] == Holed(gaps, k)
    ensures i + n <= |text| && text[i..i + n] == gaps[0][..n]
    ensures text[i + n..] == Holed([gaps[0][n..]] + gaps[1..], k)
  {
    var shorter := [gaps[0][n..]] + gaps[1..];
    assert shorter[1..] == gaps[1..];
    assert text[i..i + n] == text[i..][..n];
    assert text[i + n..] == text[i..][n..];
  }

  /** A pass leaves every hole where it was, between gaps it may have changed. */
  lemma {:induction false} SubKeepsHoles(p: Pattern, f: string -> string, text: string, i: nat, gaps: seq<string>, k: nat)
    returns (after: seq<string>)
    requires i <= |text| && gaps != [] && text[i..] == Holed(gaps, k)
    requires MissesHoles(p) && AllNoNul(gaps) && AddsNoNul(f)
    ensures after != [] && SubFrom(p, f, text, i) == Holed(after, k) && GapsKept(gaps, after, f)
    decreases |text| - i
  {
    if gaps[0] == "" && |gaps| == 1 {
      SubAtEnd(p, f, text);
      after := [""];
    } else if gaps[0] == "" {
      after := SubFromHole(p, f, text, i, gaps, k);
    } else {
      after := SubInGap(p, f, text, i, gaps, k);
    }
  }

  lemma SubAtEnd(p: Pattern, f: string -> string, text: string)
    requires MissesHoles(p)
    ensures SubFrom(p, f, text, |text|) == ""
  {
    MatchIsLongest(p, text, |text|);
  }

  lemma {:induction false} SubFromHole(p: Pattern, f: string -> string, text: string, i: nat, gaps: seq<string>, k: nat)
    returns (after: seq<string>)
    requires i <= |text| && |gaps| > 1 && gaps[0] == "" && text[i..] == Holed(gaps, k)
    requires MissesHoles(p) && AllNoNul(gaps) && AddsNoNul(f)
    ensures after != [] && SubFrom(p, f, text, i) == Holed(after, k) && GapsKept(gaps, after, f)
    decreases |text| - i, 0
  {
    SplitAtHole(text, i, gaps, k);
    var later := SubKeepsHoles(p, f, text, i + |Hole(k)|, gaps[1..], k + 1);
    after := [""] + later;
    HolePasses(p, f, text, i, gaps, k, later);
  }

  /** A pass copies the hole, and goes on after it. */
  lemma HolePasses(p: Pattern, f: string -> string, text: string, i: nat, gaps: seq<string>, k: nat, later: seq<string>)
    requires i <= |text| && |gaps| > 1 && gaps[0] == "" && text[i..] == Holed(gaps, k)
    requires MissesHoles(p) && later != [] && GapsKept(gaps[1..], later, f)
    requires i + |Hole(k)| <= |text| && SubFrom(p, f, text, i + |Hole(k)|) == Holed(later, k + 1)
    ensures SubFrom(p, f, text, i) == Holed([""] + later, k) && GapsKept(gaps, [""] + later, f)
  {
    assert SubFrom(p, f, text, i) == Hole(k) + SubFrom(p, f, text, i + |Hole(k)|) by {
      SplitAtHole(text, i, gaps, k);
      CopyHole(p, f, text, i, k);
    }
    EmptyGapFirst(gaps, later, f, k);
  }

  lemma EmptyGapFirst(gaps: seq<string>, later: seq<string>, f: string -> string, k: nat)
    requires |gaps| > 1 && gaps[0] == "" && later != [] && GapsKept(gaps[1..], later, f)
    ensures Holed([""] + later, k) == Hole(k) + Holed(later, k + 1)
    ensures GapsKept(gaps, [""] + later, f)
  {
    assert ([""] + later)[1..] == later;
    assert GapKept("", "", f);
    forall j | 0 <= j < |gaps| ensures GapKept(gaps[j], ([""] + later)[j], f) {
      if j > 0 {
        assert gaps[j] == gaps[1..][j - 1];
      }
    }
  }

  lemma ReplacedGapKept(p: Pattern, f: string -> string, text: string, i: nat, s: string)
    requires i <= |text| && MissesHoles(p) && AddsNoNul(f) && NoNul(s)
    requires var r := Match(p, text, i); r.Some? ==> s == text[i..i + |r.value|]
    ensures GapKept(s, if Match(p, text, i).Some? then f(s) else s, f)
  {
    var r := Match(p, text, i);
    MatchIsLongest(p, text, i);
    if r.Some? {
      assert Lower(s) == r.value;
      assert AllDigits(s) ==> AllDigits(Lower(s));
    }
  }

  lemma GrowHoled(later: seq<string>, t: string, k: nat)
    requires later != []
    ensures Holed([t + later[0]] + later[1..], k) == t + Holed(later, k)
  {
    var c := Cut(later, seq(|later| - 1, j => ""));
    assert c.Behind(t).gaps == [t + later[0]] + later[1..];
    HoledBehind(c, t, k);
  }

  lemma FirstGapSplits(gaps: seq<string>, n: nat)
    requires gaps != [] && n <= |gaps[0]| && AllNoNul(gaps)
    ensures var shorter, s := [gaps[0][n..]] + gaps[1..], gaps[0][..n];
            [s + shorter[0]] + shorter[1..] == gaps && NoNul(s) && AllNoNul(shorter)
  {
    assert gaps[0] in gaps;
    assert gaps[0][..n] + gaps[0][n..] == gaps[0];
  }

  lemma {:induction false} SubInGap(p: Pattern, f: string -> string, text: string, i: nat, gaps: seq<string>, k: nat)
    returns (after: seq<string>)
    requires i <= |text| && gaps != [] && gaps[0] != "" && text[i..] == Holed(gaps, k)
    requires MissesHoles(p) && AllNoNul(gaps) && AddsNoNul(f)
    ensures after != [] && SubFrom(p, f, text, i) == Holed(after, k) && GapsKept(gaps, after, f)
    decreases |text| - i, 0
  {
    var n := Eaten(p, text, i);
    MatchInGap(p, text, i, gaps, k);
    SplitInGap(text, i, gaps, k, n);
    FirstGapSplits(gaps, n);
    var later := SubKeepsHoles(p, f, text, i + n, [gaps[0][n..]] + gaps[1..], k);
    after := GapPasses(p, f, text, i, gaps, k, n, later);
  }

  /** How far a pass moves at `i`: over its match, or one character. */
  function Eaten(p: Pattern, text: string, i: nat): nat
    requires i <= |text|
  {
    if Match(p, text, i).Some? then |Match(p, text, i).value| else 1
  }

  lemma SubFromEats(p: Pattern, f: string -> string, text: string, i: nat, n: nat)
    requires i <= |text| && n == Eaten(p, text, i) && 0 < n && i + n <= |text|
    ensures var s := text[i..i + n];
            SubFrom(p, f, text, i) == (if Match(p, text, i).Some? then f(s) else s) + SubFrom(p, f, text, i + n)
  {
    assert text[i..i + 1] == [text[i]];
  }

  /** A pass changes or copies a piece of a gap, and goes on after it. */
  lemma GapPasses(p: Pattern, f: string -> string, text: string, i: nat, gaps: seq<string>, k: nat, n: nat, later: seq<string>)
    returns (after: seq<string>)
    requires i <= |text| && gaps != [] && gaps[0] != "" && text[i..] == Holed(gaps, k) && AllNoNul(gaps)
    requires MissesHoles(p) && AddsNoNul(f) && later != [] && n == Eaten(p, text, i) && 0 < n <= |gaps[0]| && i + n <= |text|
    requires SubFrom(p, f, text, i + n) == Holed(later, k) && GapsKept([gaps[0][n..]] + gaps[1..], later, f)
    ensures after != [] && SubFrom(p, f, text, i) == Holed(after, k) && GapsKept(gaps, after, f)
  {
    SplitInGap(text, i, gaps, k, n);
    FirstGapSplits(gaps, n);
    var r, s := Match(p, text, i), gaps[0][..n];
    var t := if r.Some? then f(s) else s;
    assert GapKept(s, t, f) by {
      ReplacedGapKept(p, f, text, i, s);
    }
    after := [t + later[0]] + later[1..];
    assert SubFrom(p, f, text, i) == t + SubFrom(p, f, text, i + n) by {
      SubFromEats(p, f, text, i, n);
    }
    GrowHoled(later, t, k);
    GrowFirstGap(later, s, t, f, [gaps[0][n..]] + gaps[1..]);
  }

  lemma MatchInGap(p: Pattern, text: string, i: nat, gaps: seq<string>, k: nat)
    requires i <= |text| && gaps != [] && gaps[0] != "" && text[i..] == Holed(gaps, k) && MissesHoles(p)
    ensures i < |text|
    ensures var r := Match(p, text, i); r.Some? ==> 0 < |r.value| <= |gaps[0]|
  {
    var g := gaps[0];
    MatchIsLongest(p, text, i);
    if |gaps| > 1 {
      assert text[i + |g|] == text[i..][|g|] == Hole(k)[0];
      MatchMissesNul(p, text, i, i + |g|);
    }
  }
}
