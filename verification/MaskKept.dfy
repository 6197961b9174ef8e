/** The keep-list: a name that is left in a masked text holds or touches a kept span. */
module MaskKept {
  import opened Scanner
  import opened MaskTiers
  import opened KeepHoles
  import opened KeptSpans
  import opened IncidentMask
  import opened MaskReach
  import opened MaskClear

  // ---------------------------------------------------------------- where a gap stands

  /** Where gap `g` begins in the text with the kept spans between the gaps. */
  function GapAt(gaps: seq<string>, kept: seq<string>, g: nat): nat
    requires g <= |kept| && |gaps| == |kept| + 1
  {
    if g == 0 then 0 else |gaps[0]| + (|kept[0]| + GapAt(gaps[1..], kept[1..], g - 1))
  }

  lemma {:induction false} GapInWoven(gaps: seq<string>, kept: seq<string>, g: nat)
    requires g <= |kept| && |gaps| == |kept| + 1
    ensures var at := GapAt(gaps, kept, g); var end := at + |gaps[g]|;
            end <= |Woven(gaps, kept)| && Woven(gaps, kept)[at..end] == gaps[g]
  {
    if g > 0 {
      GapInWoven(gaps[1..], kept[1..], g - 1);
      var rest, at := Woven(gaps[1..], kept[1..]), GapAt(gaps[1..], kept[1..], g - 1);
      StretchBehind(gaps[0], kept[0], rest, at, at + |gaps[g]|);
    } else {
      assert Woven(gaps, kept)[..|gaps[0]|] == gaps[0];
    }
  }

  lemma StretchBehind(a: string, b: string, rest: string, x: nat, y: nat)
    requires x <= y <= |rest|
    ensures (a + (b + rest))[|a| + (|b| + x)..|a| + (|b| + y)] == rest[x..y]
  {
  }

  /** And in the text with holes between them, where what surrounds it are ends or NULs. */
  ghost predicate StandsHoled(text: string, gap: string, h: nat) {
    && h + |gap| <= |text| && text[h..h + |gap|] == gap
    && (h > 0 ==> text[h - 1] == NUL) && (h + |gap| < |text| ==> text[h + |gap|] == NUL)
  }

  lemma {:induction false} GapInHoled(gaps: seq<string>, k: nat, g: nat) returns (h: nat)
    requires g < |gaps|
    ensures StandsHoled(Holed(gaps, k), gaps[g], h)
  {
    if g == 0 {
      h := 0;
      FirstGapStands(gaps, k);
    } else {
      var x := GapInHoled(gaps[1..], k + 1, g - 1);
      h := |gaps[0]| + (|Hole(k)| + x);
      StretchBehind(gaps[0], Hole(k), Holed(gaps[1..], k + 1), x, x + |gaps[g]|);
      HoledBehind(gaps[0], Hole(k), Holed(gaps[1..], k + 1), gaps[g], x);
    }
  }

  lemma FirstGapStands(gaps: seq<string>, k: nat)
    requires gaps != []
    ensures StandsHoled(Holed(gaps, k), gaps[0], 0)
  {
    assert Holed(gaps, k)[..|gaps[0]|] == gaps[0];
  }

  lemma HoledBehind(a: string, hole: string, rest: string, gap: string, x: nat)
    requires StandsHoled(rest, gap, x) && hole != "" && hole[|hole| - 1] == NUL
    requires (a + (hole + rest))[|a| + (|hole| + x)..|a| + (|hole| + (x + |gap|))] == gap
    ensures StandsHoled(a + (hole + rest), gap, |a| + (|hole| + x))
  {
    var text, h := a + (hole + rest), |a| + (|hole| + x);
    assert x == 0 ==> text[h - 1] == hole[|hole| - 1];
    assert x > 0 ==> text[h - 1] == rest[x - 1];
    assert x + |gap| < |rest| ==> text[h + |gap|] == rest[x + |gap|];
  }

  // ---------------------------------------------------------------- a name within a gap

  /** All the pattern looks at, the name and the guarded sides, lies between `a` and `b`. */
  predicate Within(p: Pattern, n: string, text: string, j: nat, a: nat, b: nat) {
    && a <= (if From(p, j) < 0 then 0 else From(p, j))
    && (if To(p, j, n) > |text| then |text| else To(p, j, n)) <= b
  }

  lemma FiresInHoled(p: Pattern, n: string, out: string, j: nat, at: nat, text: string, gap: string, h: nat)
    requires Wide(p) && j + |n| <= |out| && Fires(p, n, out, j)
    requires at + |gap| <= |out| && out[at..at + |gap|] == gap && StandsHoled(text, gap, h)
    requires Within(p, n, out, j, at, at + |gap|)
    ensures var x := h + (j - at); x + |n| <= |text| && Fires(p, n, text, x)
  {
    var x := h + (j - at);
    SameStretchStands(text, out, n, j, at, at + |gap|, h);
    if p.behind.NoAlnumBehind? && j > 0 {
      SameStretchChar(text, out, j - 1, at, at + |gap|, h);
    }
    if p.ahead.NoLetterAhead? && j + |n| < |out| {
      SameStretchChar(text, out, j + |n|, at, at + |gap|, h);
    }
    assert BehindHolds(p.behind, text, x) && AheadHolds(p.ahead, text, x + |n|);
  }

  // ---------------------------------------------------------------- masking with a keep-list

  lemma {:induction false} OfIgnoresKeep(m: Masker, names: seq<string>, t: Tier)
    ensures Of(m.(keep := []), names, t) == Of(m, names, t)
  {
    if names != [] {
      OfIgnoresKeep(m, names[1..], t);
    }
  }

  lemma PassesIgnoreKeep(m: Masker)
    ensures Passes(m.(keep := [])) == Passes(m)
  {
    OfIgnoresKeep(m, m.names, A);
    OfIgnoresKeep(m, m.names, B);
    OfIgnoresKeep(m, m.names, C);
    OfIgnoresKeep(m, m.names, D);
  }

  /** Over the text with holes, the passes leave no name. */
  lemma NoNameInHoled(m: Masker, f: string -> string, text: string, i: nat, n: string, j: nat)
    requires Clear(Passes(m), f) && Named(Passes(m)) && Writes(f)
    requires i < 4 && n in Passes(m)[i].names && j <= |SubAll(Passes(m), f, text)|
    ensures !Fires(Passes(m)[i], n, SubAll(Passes(m), f, text), j)
  {
    PassesIgnoreKeep(m);
    NoNameIsLeft(m.(keep := []), f, text, i, n, j);
  }

  /** In the text with kept spans between the gaps, a wide pattern fires on what lies within gap `g`. */
  predicate LeftInGap(m: Masker, gaps: seq<string>, kept: seq<string>, i: nat, n: string, g: nat, j: nat)
    requires |gaps| == |kept| + 1
  {
    var out := Woven(gaps, kept);
    && i < 4 && n in Passes(m)[i].names && g <= |kept| && j <= |out| && Fires(Passes(m)[i], n, out, j)
    && Within(Passes(m)[i], n, out, j, GapAt(gaps, kept, g), GapAt(gaps, kept, g) + |gaps[g]|)
  }

  lemma FiresInSomeGap(p: Pattern, n: string, gaps: seq<string>, kept: seq<string>, g: nat, j: nat) returns (x: nat)
    requires |gaps| == |kept| + 1 && g <= |kept| && j <= |Woven(gaps, kept)| && Wide(p) && Fires(p, n, Woven(gaps, kept), j)
    requires Within(p, n, Woven(gaps, kept), j, GapAt(gaps, kept, g), GapAt(gaps, kept, g) + |gaps[g]|)
    ensures x <= |Holed(gaps, 0)| && Fires(p, n, Holed(gaps, 0), x)
  {
    var at := GapAt(gaps, kept, g);
    GapInWoven(gaps, kept, g);
    var h := GapInHoled(gaps, 0, g);
    FiresInHoled(p, n, Woven(gaps, kept), j, at, Holed(gaps, 0), gaps[g], h);
    x := h + (j - at);
  }

  lemma EarlyIsWide(m: Masker, i: nat)
    requires i < 4
    ensures Wide(Passes(m)[i])
  {
  }

  lemma GapLeavesNoName(m: Masker, f: string -> string, text: string, gaps: seq<string>, kept: seq<string>, i: nat, n: string, g: nat, j: nat)
    requires Clear(Passes(m), f) && Named(Passes(m)) && Writes(f)
    requires |gaps| == |kept| + 1 && SubAll(Passes(m), f, text) == Holed(gaps, 0)
    ensures !LeftInGap(m, gaps, kept, i, n, g, j)
  {
    if LeftInGap(m, gaps, kept, i, n, g, j) {
      EarlyIsWide(m, i);
      var x := FiresInSomeGap(Passes(m)[i], n, gaps, kept, g, j);
      NoNameInHoled(m, f, text, i, n, x);
    }
  }

  /**
    * Where every kept span comes through, no gap between them shows a wide pattern a name: what
    * is left of one, or a character its pattern looks at beside it, is of a kept span.
    */
  lemma OnlyKeptSpansHoldNames(m: Masker, f: string -> string, text: string) returns (after: seq<string>)
    requires NoNul(text) && HoleSafe(m, f) && m.keep != [] && Unambiguous(CutFrom(KeepPattern(m), text, 0).gaps)
    requires Clear(Passes(m), f) && Named(Passes(m)) && Writes(f)
    ensures var c := CutFrom(KeepPattern(m), text, 0);
            && Woven(c.gaps, c.kept) == text && |after| == |c.gaps| && MaskedWith(m, f, text) == Woven(after, c.kept)
            && forall i: nat, n, g: nat, j: nat :: !LeftInGap(m, after, c.kept, i, n, g, j)
  {
    var c;
    c, after := MaskedGaps(m, f, text);
    PassesKeepAmbiguity(c.gaps, after, f);
    FillAll(after, c.kept, 0);
    forall i: nat, n, g: nat, j: nat ensures !LeftInGap(m, after, c.kept, i, n, g, j) {
      GapLeavesNoName(m, f, Holed(c.gaps, 0), after, c.kept, i, n, g, j);
    }
  }

  lemma PseudonymizerIsHoleSafe(m: Masker)
    requires m.pseudonym.Keys == (set k | k in m.names)
    requires forall n :: n in m.names ==> NoNul(n) && !AllDigits(n) && NoNul(m.pseudonym[n]) && !AllDigits(m.pseudonym[n])
    ensures HoleSafe(m, Pseudonymizer(m))
  {
  }

  /** The program's own masking, for a map whose names and pseudonyms hold no NUL and are not numbers. */
  lemma OnlyKeptSpansHoldMappedNames(m: Masker, text: string) returns (after: seq<string>)
    requires m.keep != [] && m.pseudonym.Keys == (set k | k in m.names) && ClearMap(m)
    requires forall n :: n in m.names ==> NoNul(n) && !AllDigits(n) && NoNul(m.pseudonym[n]) && !AllDigits(m.pseudonym[n])
    requires NoNul(text) && text != "" && !IsHex64(text) && Unambiguous(CutFrom(KeepPattern(m), text, 0).gaps)
    ensures var c := CutFrom(KeepPattern(m), text, 0);
            && Woven(c.gaps, c.kept) == text && |after| == |c.gaps| && Masked(m, text) == Woven(after, c.kept)
            && forall i: nat, n, g: nat, j: nat :: !LeftInGap(m, after, c.kept, i, n, g, j)
  {
    ClearMapIsClear(m);
    PseudonymsWrite(m);
    PseudonymizerIsHoleSafe(m);
    after := OnlyKeptSpansHoldNames(m, Pseudonymizer(m), text);
  }
}
