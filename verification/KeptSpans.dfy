/**
  * Putting the kept spans back: exactly when that gives every one of them its place
  * again.
  *
  * Holes are filled in the order of their numbers, each by a replacement over the whole
  * text. While hole `k` is filled the earlier spans are back already, so the only text
  * that can pass for hole `k`, besides the hole itself, begins with the NUL that closes
  * one later hole and ends with the NUL that opens the next: the gap between them has to
  * read as the number `k`. Where no gap does, the text is restored step by step. Where
  * one does, a span is written across two holes, and the character of it that no hole
  * contains keeps an odd number of NULs on its left for good, so one of them is still
  * there at the end.
  */
module KeptSpans {
  import opened Prelude
  import opened Scanner
  import opened KeepHoles

  // ---------------------------------------------------------------- all the passes

  function SubAll(ps: seq<Pattern>, f: string -> string, text: string): string {
    if ps == [] then text else SubAll(ps[1..], f, Sub(ps[0], f, text))
  }

  lemma NothingWithoutNames(p: Pattern, f: string -> string, s: string)
    requires p.names == []
    ensures Sub(p, f, s) == s
  {
    forall i: nat | i <= |s| ensures Match(p, s, i).None? {
      MatchIsLongest(p, s, i);
    }
    SilentFrom(p, f, s, 0);
    assert s[0..] == s;
  }

  lemma {:induction false} NoPassWorks(ps: seq<Pattern>, f: string -> string, s: string)
    requires forall p :: p in ps ==> p.names == []
    ensures SubAll(ps, f, s) == s
  {
    if ps != [] {
      NothingWithoutNames(ps[0], f, s);
      NoPassWorks(ps[1..], f, s);
    }
  }

  lemma {:induction false} OnePassWorks(ps: seq<Pattern>, f: string -> string, s: string, i: nat)
    requires i < |ps| && forall k :: 0 <= k < |ps| && k != i ==> ps[k].names == []
    ensures SubAll(ps, f, s) == Sub(ps[i], f, s)
  {
    if i == 0 {
      NoPassWorks(ps[1..], f, Sub(ps[0], f, s));
    } else {
      NothingWithoutNames(ps[0], f, s);
      OnePassWorks(ps[1..], f, s, i - 1);
    }
  }

  /** However many passes there are, every hole is still there, in order, with changed gaps between. */
  lemma {:induction false} PassesKeepHoles(ps: seq<Pattern>, f: string -> string, gaps: seq<string>) returns (after: seq<string>)
    requires gaps != [] && AllNoNul(gaps) && AddsNoNul(f) && forall p :: p in ps ==> MissesHoles(p)
    ensures after != [] && SubAll(ps, f, Holed(gaps, 0)) == Holed(after, 0) && GapsKept(gaps, after, f)
  {
    if ps == [] {
      after := gaps;
    } else {
      var text := Holed(gaps, 0);
      assert text[0..] == text;
      var first := SubKeepsHoles(ps[0], f, text, 0, gaps, 0);
      after := PassesKeepHoles(ps[1..], f, first);
    }
  }

  // ---------------------------------------------------------------- putting back

  /** `s.replace(mark, put)`: every occurrence, from the left, none overlapping. */
  function Replace(s: string, mark: string, put: string): string
    requires mark != ""
  {
    if |s| < |mark| then s
    else if mark <= s then put + Replace(s[|mark|..], mark, put)
    else [s[0]] + Replace(s[1..], mark, put)
  }

  function RestoreFrom(text: string, holes: seq<string>, i: nat): string
    requires i <= |holes|
    decreases |holes| - i
  {
    if i == |holes| then text else RestoreFrom(Replace(text, Hole(i), holes[i]), holes, i + 1)
  }

  lemma {:induction false} ReplaceSkips(a: string, s: string, k: nat, put: string)
    requires NoNul(a)
    ensures Replace(a + s, Hole(k), put) == a + Replace(s, Hole(k), put)
  {
    if a == "" {
      assert a + s == s;
    } else {
      var rest := a[1..] + s;
      assert a + s == [a[0]] + rest && a == [a[0]] + a[1..];
      assert (a + s)[0] != NUL == Hole(k)[0];
      ReplaceSkips(a[1..], s, k, put);
      CopyOne(a[0], rest, k, put);
      ConcatAssociates([a[0]], a[1..], Replace(s, Hole(k), put));
    }
  }

  /** Between two NULs, a hole's pattern can only be that hole's numeral. */
  lemma HoleBetween(a: string, rest: string, k: nat)
    requires NoNul(a) && Hole(k) <= [NUL] + a + [NUL] + rest
    ensures a == Numeral(k)
  {
    var s, n := [NUL] + a + [NUL] + rest, Numeral(k);
    assert forall j :: 1 <= j <= |n| ==> s[j] == n[j - 1] && s[j] != NUL;
    assert forall j :: 1 <= j <= |a| ==> s[j] == a[j - 1] && s[j] != NUL;
    assert s[|n| + 1] == NUL && s[|a| + 1] == NUL;
    assert |a| == |n|;
    assert forall j :: 0 <= j < |n| ==> a[j] == s[j + 1] == n[j];
  }

  lemma NoHoleAtTheEnd(a: string, k: nat)
    requires NoNul(a)
    ensures !(Hole(k) <= [NUL] + a)
  {
    var s, last := [NUL] + a, |Hole(k)| - 1;
    assert Hole(k)[last] == NUL;
    assert last < |s| ==> s[last] != NUL;
  }

  /** No gap between two holes, of those after gap `from`, reads as the numeral of hole `i`. */
  predicate NoFalseHole(gaps: seq<string>, i: nat, from: nat) {
    forall j :: from < j < |gaps| - 1 ==> gaps[j] != Numeral(i)
  }

  predicate NoFalseHoleLater(gaps: seq<string>, i: nat) {
    NoFalseHole(gaps, i, i + 1)
  }

  /** Walking over one hole that is not the one looked for. */
  lemma SkipOtherHole(rest: string, i: nat, k: nat, put: string)
    requires i != k
    ensures Replace(Hole(k) + rest, Hole(i), put) == ([NUL] + Numeral(k)) + Replace([NUL] + rest, Hole(i), put)
  {
    var tail := Numeral(k) + ([NUL] + rest);
    assert Hole(k) + rest == [NUL] + tail by {
      ConcatFour([NUL], Numeral(k), [NUL], rest);
      ConcatAssociates(Numeral(k), [NUL], rest);
    }
    OtherHoleDiffers(rest, i, k);
    ReplaceSkips(Numeral(k), [NUL] + rest, i, put);
    ConcatAssociates([NUL], Numeral(k), Replace([NUL] + rest, Hole(i), put));
  }

  lemma OtherHoleDiffers(rest: string, i: nat, k: nat)
    requires i != k
    ensures !(Hole(i) <= Hole(k) + rest)
  {
    if Hole(i) <= Hole(k) + rest {
      HoleBetween(Numeral(k), rest, i);
      NumeralsDiffer(i, k);
      assert false;
    }
  }

  lemma HoledOpens(gaps: seq<string>, k: nat) returns (rest: string)
    requires |gaps| > 1
    ensures [NUL] + Holed(gaps, k) == [NUL] + gaps[0] + [NUL] + rest
  {
    rest := Numeral(k) + [NUL] + Holed(gaps[1..], k + 1);
    assert Hole(k) + Holed(gaps[1..], k + 1) == [NUL] + rest;
    assert [NUL] + (gaps[0] + ([NUL] + rest)) == [NUL] + gaps[0] + [NUL] + rest;
  }

  lemma NoHoleAfter(gaps: seq<string>, i: nat, k: nat)
    requires gaps != [] && AllNoNul(gaps) && (|gaps| > 1 ==> gaps[0] != Numeral(i))
    ensures !(Hole(i) <= [NUL] + Holed(gaps, k))
  {
    assert gaps[0] in gaps;
    if |gaps| == 1 {
      NoHoleAtTheEnd(gaps[0], i);
    } else {
      var rest := HoledOpens(gaps, k);
      if Hole(i) <= [NUL] + gaps[0] + [NUL] + rest {
        HoleBetween(gaps[0], rest, i);
      }
    }
  }

  lemma NothingUpTo(gap: string, rest: string, i: nat, k: nat, put: string)
    requires NoNul(gap) && i != k
    requires Replace(rest, Hole(i), put) == rest && !(Hole(i) <= [NUL] + rest)
    ensures Replace(gap + (Hole(k) + rest), Hole(i), put) == gap + (Hole(k) + rest)
  {
    calc {
      Replace(gap + (Hole(k) + rest), Hole(i), put);
      { ReplaceSkips(gap, Hole(k) + rest, i, put); }
      gap + Replace(Hole(k) + rest, Hole(i), put);
      { SkipOtherHole(rest, i, k, put); }
      gap + (([NUL] + Numeral(k)) + Replace([NUL] + rest, Hole(i), put));
      { assert ([NUL] + rest)[1..] == rest; }
      gap + (([NUL] + Numeral(k)) + ([NUL] + rest));
      { ConcatAssociates([NUL] + Numeral(k), [NUL], rest); }
      gap + (Hole(k) + rest);
    }
  }

  lemma NothingInGap(gap: string, i: nat, put: string)
    requires NoNul(gap)
    ensures Replace(gap, Hole(i), put) == gap
  {
    ReplaceSkips(gap, "", i, put);
    assert gap + "" == gap;
  }

  /** Over later holes, with no gap that reads as this one's numeral, nothing is replaced. */
  lemma {:induction false} NothingToReplace(gaps: seq<string>, i: nat, k: nat, put: string)
    requires gaps != [] && AllNoNul(gaps) && i < k && NoFalseHole(gaps, i, 0)
    ensures Replace(Holed(gaps, k), Hole(i), put) == Holed(gaps, k)
  {
    assert gaps[0] in gaps;
    if |gaps| == 1 {
      NothingInGap(gaps[0], i, put);
    } else {
      var rest := Holed(gaps[1..], k + 1);
      NoHoleAfter(gaps[1..], i, k + 1);
      NothingToReplace(gaps[1..], i, k + 1, put);
      NothingUpTo(gaps[0], rest, i, k, put);
    }
  }

  /** All that is back before hole `k`, up to that hole. */
  ghost function Back(gaps: seq<string>, kept: seq<string>, k: nat): string
    requires |gaps| == |kept| + 1 && k < |gaps|
  {
    Woven(gaps[..k + 1], kept[..k])
  }

  lemma {:induction false} WovenSnoc(gaps: seq<string>, kept: seq<string>, span: string, gap: string)
    requires |gaps| == |kept| + 1
    ensures Woven(gaps + [gap], kept + [span]) == Woven(gaps, kept) + (span + gap)
  {
    if kept == [] {
      assert (gaps + [gap])[1..] == [gap] && (kept + [span])[1..] == [];
    } else {
      WovenSnoc(gaps[1..], kept[1..], span, gap);
      assert (gaps + [gap])[1..] == gaps[1..] + [gap] && (kept + [span])[1..] == kept[1..] + [span];
      ConcatAssociates(kept[0], Woven(gaps[1..], kept[1..]), span + gap);
      ConcatAssociates(gaps[0], kept[0] + Woven(gaps[1..], kept[1..]), span + gap);
    }
  }

  lemma {:induction false} WovenNoNul(gaps: seq<string>, kept: seq<string>)
    requires |gaps| == |kept| + 1 && AllNoNul(gaps) && AllNoNul(kept)
    ensures NoNul(Woven(gaps, kept))
  {
    assert gaps[0] in gaps;
    if kept != [] {
      assert kept[0] in kept;
      WovenNoNul(gaps[1..], kept[1..]);
    }
  }

  lemma BackGrows(gaps: seq<string>, kept: seq<string>, k: nat)
    requires |gaps| == |kept| + 1 && k < |kept|
    ensures Back(gaps, kept, k + 1) == Back(gaps, kept, k) + (kept[k] + gaps[k + 1])
  {
    assert gaps[..k + 2] == gaps[..k + 1] + [gaps[k + 1]] && kept[..k + 1] == kept[..k] + [kept[k]];
    WovenSnoc(gaps[..k + 1], kept[..k], kept[k], gaps[k + 1]);
  }

  lemma BackNoNul(gaps: seq<string>, kept: seq<string>, k: nat)
    requires |gaps| == |kept| + 1 && k < |gaps| && AllNoNul(gaps) && AllNoNul(kept)
    ensures NoNul(Back(gaps, kept, k))
  {
    forall g | g in gaps[..k + 1] ensures NoNul(g) {
      assert g in gaps;
    }
    forall g | g in kept[..k] ensures NoNul(g) {
      assert g in kept;
    }
    WovenNoNul(gaps[..k + 1], kept[..k]);
  }

  /** The text when the spans before hole `k` are back and the others are not. */
  ghost function Partly(gaps: seq<string>, kept: seq<string>, k: nat): string
    requires |gaps| == |kept| + 1 && k <= |kept|
  {
    if k == |kept| then Woven(gaps, kept)
    else Back(gaps, kept, k) + (Hole(k) + Holed(gaps[k + 1..], k + 1))
  }

  /** Filling one hole, whatever happens in what follows it. */
  lemma FillOne(gaps: seq<string>, kept: seq<string>, k: nat)
    requires |gaps| == |kept| + 1 && k < |kept| && AllNoNul(gaps) && AllNoNul(kept)
    ensures Replace(Partly(gaps, kept, k), Hole(k), kept[k])
         == Back(gaps, kept, k) + (kept[k] + Replace(Holed(gaps[k + 1..], k + 1), Hole(k), kept[k]))
  {
    BackNoNul(gaps, kept, k);
    ReplaceSkips(Back(gaps, kept, k), Hole(k) + Holed(gaps[k + 1..], k + 1), k, kept[k]);
  }

  lemma PartlyGrows(gaps: seq<string>, kept: seq<string>, k: nat)
    requires |gaps| == |kept| + 1 && k < |kept|
    ensures Back(gaps, kept, k) + (kept[k] + Holed(gaps[k + 1..], k + 1)) == Partly(gaps, kept, k + 1)
  {
    var rest := gaps[k + 1..];
    BackGrows(gaps, kept, k);
    if k + 1 == |kept| {
      assert gaps[..k + 2] == gaps && kept[..k + 1] == kept;
    } else {
      assert rest[1..] == gaps[k + 2..];
      var tail := Hole(k + 1) + Holed(gaps[k + 2..], k + 2);
      assert Holed(rest, k + 1) == gaps[k + 1] + tail;
      ConcatAssociates(kept[k], gaps[k + 1], tail);
      ConcatAssociates(Back(gaps, kept, k), kept[k] + gaps[k + 1], tail);
    }
  }

  lemma FillStep(gaps: seq<string>, kept: seq<string>, k: nat)
    requires |gaps| == |kept| + 1 && k < |kept| && AllNoNul(gaps) && AllNoNul(kept)
    requires NoFalseHoleLater(gaps, k)
    ensures Replace(Partly(gaps, kept, k), Hole(k), kept[k]) == Partly(gaps, kept, k + 1)
  {
    FillOne(gaps, kept, k);
    forall g | g in gaps[k + 1..] ensures NoNul(g) {
      assert g in gaps;
    }
    NothingToReplace(gaps[k + 1..], k, k + 1, kept[k]);
    PartlyGrows(gaps, kept, k);
  }

  lemma {:induction false} FillAll(gaps: seq<string>, kept: seq<string>, k: nat)
    requires |gaps| == |kept| + 1 && k <= |kept| && AllNoNul(gaps) && AllNoNul(kept)
    requires Unambiguous(gaps)
    ensures RestoreFrom(Partly(gaps, kept, k), kept, k) == Woven(gaps, kept)
    decreases |kept| - k
  {
    if k < |kept| {
      FillStep(gaps, kept, k);
      FillAll(gaps, kept, k + 1);
    }
  }

  /** No two spans that follow each other are separated by exactly the number of a hole before them both. */
  predicate Unambiguous(gaps: seq<string>) {
    forall i, j :: 0 <= i && i + 1 < j < |gaps| - 1 ==> gaps[j] != Numeral(i)
  }

  // ---------------------------------------------------------------- when it fails

  function NulCount(s: string): nat {
    if s == "" then 0 else (if s[0] == NUL then 1 else 0) + NulCount(s[1..])
  }

  lemma {:induction false} NulCountConcat(s: string, t: string)
    ensures NulCount(s + t) == NulCount(s) + NulCount(t)
  {
    if s == "" {
      assert s + t == t;
    } else {
      assert (s + t)[1..] == s[1..] + t;
      NulCountConcat(s[1..], t);
    }
  }

  lemma {:induction false} NoNulCountsZero(s: string)
    requires NoNul(s)
    ensures NulCount(s) == 0
  {
    if s != "" {
      NoNulCountsZero(s[1..]);
    }
  }

  lemma HoleCountsTwo(k: nat)
    ensures NulCount(Hole(k)) == 2
  {
    NoNulCountsZero(Numeral(k));
    NulCountConcat([NUL], Numeral(k));
    NulCountConcat([NUL] + Numeral(k), [NUL]);
    assert NulCount([NUL]) == 1;
  }

  predicate WallChar(c: char) {
    c != NUL && !IsDigit(c)
  }

  /** A character no hole contains, with an odd number of NULs before it: one of them can never be matched. */
  predicate WallAt(s: string, w: nat) {
    w < |s| && WallChar(s[w]) && NulCount(s[..w]) % 2 == 1
  }

  ghost predicate Walled(s: string) {
    exists w: nat :: WallAt(s, w)
  }

  lemma WalledBy(l: string, c: char, r: string)
    requires WallChar(c) && NulCount(l) % 2 == 1
    ensures WallAt(l + [c] + r, |l|)
  {
    var s := l + [c] + r;
    assert s[|l|] == c && s[..|l|] == l;
  }

  lemma WallNotInHole(l: string, c: char, r: string, k: nat)
    requires WallChar(c) && Hole(k) <= l + [c] + r
    ensures Hole(k) <= l
  {
    var s, h := l + [c] + r, Hole(k);
    assert forall j :: 0 <= j < |h| ==> !WallChar(h[j]) && s[j] == h[j];
    assert s[|l|] == c;
    assert |h| <= |l|;
    assert h == s[..|h|] == l[..|h|];
  }

  lemma {:induction false} ReplaceBeforeWall(l: string, c: char, r: string, k: nat, put: string) returns (l': string)
    requires WallChar(c) && NoNul(put)
    ensures Replace(l + [c] + r, Hole(k), put) == l' + [c] + Replace(r, Hole(k), put)
    ensures NulCount(l') % 2 == NulCount(l) % 2
    decreases |l|
  {
    var s, h := l + [c] + r, Hole(k);
    if h <= s {
      WallNotInHole(l, c, r, k);
      var rest := l[|h|..];
      assert l == h + rest;
      var rest' := ReplaceBeforeWall(rest, c, r, k, put);
      l' := put + rest';
      ReplaceAtStart(rest, c, r, k, put, rest');
    } else if l == "" {
      l' := "";
      assert s == [c] + r && s[1..] == r;
    } else {
      var rest' := ReplaceBeforeWall(l[1..], c, r, k, put);
      l' := [l[0]] + rest';
      assert l == [l[0]] + l[1..];
      CopyAtStart(l[0], l[1..], c, r, k, put, rest');
    }
  }

  lemma ReplaceFirst(mark: string, s: string, put: string)
    requires mark != ""
    ensures Replace(mark + s, mark, put) == put + Replace(s, mark, put)
  {
    assert (mark + s)[|mark|..] == s;
  }

  lemma ReplaceAtStart(l: string, c: char, r: string, k: nat, put: string, l': string)
    requires NoNul(put) && Replace(l + [c] + r, Hole(k), put) == l' + [c] + Replace(r, Hole(k), put)
    requires NulCount(l') % 2 == NulCount(l) % 2
    ensures Replace((Hole(k) + l) + [c] + r, Hole(k), put) == (put + l') + [c] + Replace(r, Hole(k), put)
    ensures NulCount(put + l') % 2 == NulCount(Hole(k) + l) % 2
  {
    calc {
      Replace((Hole(k) + l) + [c] + r, Hole(k), put);
      { ConcatFour(Hole(k), l, [c], r); }
      Replace(Hole(k) + (l + [c] + r), Hole(k), put);
      { ReplaceFirst(Hole(k), l + [c] + r, put); }
      put + Replace(l + [c] + r, Hole(k), put);
      put + (l' + [c] + Replace(r, Hole(k), put));
      { ConcatFour(put, l', [c], Replace(r, Hole(k), put)); }
      (put + l') + [c] + Replace(r, Hole(k), put);
    }
    NulCountConcat(put, l');
    NoNulCountsZero(put);
    NulCountConcat(Hole(k), l);
    HoleCountsTwo(k);
  }

  lemma CopyAtStart(x: char, l: string, c: char, r: string, k: nat, put: string, l': string)
    requires !(Hole(k) <= ([x] + l) + [c] + r)
    requires Replace(l + [c] + r, Hole(k), put) == l' + [c] + Replace(r, Hole(k), put)
    requires NulCount(l') % 2 == NulCount(l) % 2
    ensures Replace(([x] + l) + [c] + r, Hole(k), put) == ([x] + l') + [c] + Replace(r, Hole(k), put)
    ensures NulCount([x] + l') % 2 == NulCount([x] + l) % 2
  {
    var rest := Replace(r, Hole(k), put);
    ConcatFour([x], l, [c], r);
    CopyOne(x, l + [c] + r, k, put);
    ConcatFour([x], l', [c], rest);
    SameParity(x, l, l');
  }

  lemma SameParity(x: char, l: string, l': string)
    requires NulCount(l') % 2 == NulCount(l) % 2
    ensures NulCount([x] + l') % 2 == NulCount([x] + l) % 2
  {
    NulCountConcat([x], l');
    NulCountConcat([x], l);
    AddParity(NulCount([x]), NulCount(l'), NulCount(l));
  }

  lemma AddParity(a: nat, b: nat, c: nat)
    requires b % 2 == c % 2
    ensures (a + b) % 2 == (a + c) % 2
  {
  }

  lemma CopyOne(x: char, s: string, k: nat, put: string)
    requires !(Hole(k) <= [x] + s)
    ensures Replace([x] + s, Hole(k), put) == [x] + Replace(s, Hole(k), put)
  {
    assert ([x] + s)[1..] == s;
  }

  lemma ReplaceKeepsWall(s: string, k: nat, put: string)
    requires Walled(s) && NoNul(put)
    ensures Walled(Replace(s, Hole(k), put))
  {
    var w: nat :| WallAt(s, w);
    assert s == s[..w] + [s[w]] + s[w + 1..];
    var l' := ReplaceBeforeWall(s[..w], s[w], s[w + 1..], k, put);
    WalledBy(l', s[w], Replace(s[w + 1..], Hole(k), put));
  }

  lemma {:induction false} RestoreKeepsWall(s: string, holes: seq<string>, k: nat)
    requires Walled(s) && AllNoNul(holes) && k <= |holes|
    ensures Walled(RestoreFrom(s, holes, k))
    decreases |holes| - k
  {
    if k < |holes| {
      assert holes[k] in holes;
      ReplaceKeepsWall(s, k, holes[k]);
      RestoreKeepsWall(Replace(s, Hole(k), holes[k]), holes, k + 1);
    }
  }

  lemma WalledHasNul(s: string)
    requires Walled(s)
    ensures !NoNul(s)
  {
    var w: nat :| WallAt(s, w);
    if NoNul(s) {
      NoNulCountsZero(s[..w]);
    }
  }

  predicate HasWallChar(s: string) {
    exists i :: 0 <= i < |s| && WallChar(s[i])
  }

  lemma FalseHoleHere(gaps: seq<string>, i: nat, k: nat, put: string) returns (after: string)
    requires |gaps| > 1 && gaps[0] == Numeral(i)
    ensures Replace([NUL] + Holed(gaps, k), Hole(i), put) == put + after
  {
    var rest := Numeral(k) + [NUL] + Holed(gaps[1..], k + 1);
    assert [NUL] + Holed(gaps, k) == Hole(i) + rest;
    after := Replace(rest, Hole(i), put);
  }

  lemma WallFirst(before: string, put: string, after: string)
    requires NulCount(before) == 1 && NoNul(put) && HasWallChar(put)
    ensures Walled(before + (put + after))
  {
    var w :| 0 <= w < |put| && WallChar(put[w]);
    NulCountConcat(before, put[..w]);
    NoNulCountsZero(put[..w]);
    WalledBy(before + put[..w], put[w], put[w + 1..] + after);
    assert before + (put + after) == (before + put[..w]) + [put[w]] + (put[w + 1..] + after);
  }

  lemma WallLater(before: string, s: string)
    requires NulCount(before) % 2 == 0 && Walled(s)
    ensures Walled(before + s)
  {
    var w: nat :| WallAt(s, w);
    NulCountConcat(before, s[..w]);
    assert (before + s)[..|before| + w] == before + s[..w];
    assert WallAt(before + s, |before| + w);
  }

  /** One gap and one hole further. */
  lemma PastOneHole(gaps: seq<string>, i: nat, k: nat, put: string)
    requires |gaps| > 1 && AllNoNul(gaps) && i != k
    ensures var before := gaps[0] + ([NUL] + Numeral(k));
            && Replace(Holed(gaps, k), Hole(i), put) == before + Replace([NUL] + Holed(gaps[1..], k + 1), Hole(i), put)
            && NulCount(before) == 1
  {
    var rest := Holed(gaps[1..], k + 1);
    assert gaps[0] in gaps;
    ReplaceSkips(gaps[0], Hole(k) + rest, i, put);
    SkipOtherHole(rest, i, k, put);
    ConcatAssociates(gaps[0], [NUL] + Numeral(k), Replace([NUL] + rest, Hole(i), put));
    NulCountConcat(gaps[0], [NUL] + Numeral(k));
    NulCountConcat([NUL], Numeral(k));
    NoNulCountsZero(gaps[0]);
    NoNulCountsZero(Numeral(k));
  }

  /** A gap that reads as an earlier hole's numeral is taken for that hole, across the two holes it lies between. */
  lemma {:induction false} FalseHoleWalls(gaps: seq<string>, i: nat, k: nat, put: string, j: nat)
    requires AllNoNul(gaps) && NoNul(put) && HasWallChar(put) && i < k
    requires 0 < j < |gaps| - 1 && gaps[j] == Numeral(i) && forall m :: 0 < m < j ==> gaps[m] != Numeral(i)
    ensures Walled(Replace(Holed(gaps, k), Hole(i), put))
  {
    var rest := Holed(gaps[1..], k + 1);
    var before := gaps[0] + ([NUL] + Numeral(k));
    PastOneHole(gaps, i, k, put);
    assert AllNoNul(gaps[1..]);
    if j == 1 {
      var after := FalseHoleHere(gaps[1..], i, k + 1, put);
      WallFirst(before, put, after);
    } else {
      NoHoleAfter(gaps[1..], i, k + 1);
      FalseHoleWalls(gaps[1..], i, k + 1, put, j - 1);
      WallPastNul(before, rest, i, put);
    }
  }

  lemma WallPastNul(before: string, rest: string, i: nat, put: string)
    requires NulCount(before) == 1 && !(Hole(i) <= [NUL] + rest) && Walled(Replace(rest, Hole(i), put))
    ensures Walled(before + Replace([NUL] + rest, Hole(i), put))
  {
    CopyOne(NUL, rest, i, put);
    NulCountConcat(before, [NUL]);
    ConcatAssociates(before, [NUL], Replace(rest, Hole(i), put));
    WallLater(before + [NUL], Replace(rest, Hole(i), put));
  }

  lemma {:induction false} FillUpTo(gaps: seq<string>, kept: seq<string>, k: nat, i: nat)
    requires |gaps| == |kept| + 1 && k <= i <= |kept| && AllNoNul(gaps) && AllNoNul(kept)
    requires forall m :: k <= m < i ==> NoFalseHoleLater(gaps, m)
    ensures RestoreFrom(Partly(gaps, kept, k), kept, k) == RestoreFrom(Partly(gaps, kept, i), kept, i)
    decreases i - k
  {
    if k < i {
      assert NoFalseHoleLater(gaps, k);
      FillStep(gaps, kept, k);
      FillUpTo(gaps, kept, k + 1, i);
    }
  }

  lemma FirstFalseHole(gaps: seq<string>) returns (i: nat, j: nat)
    requires !Unambiguous(gaps)
    ensures i + 1 < j < |gaps| - 1 && gaps[j] == Numeral(i)
    ensures forall m: nat :: m < i ==> NoFalseHoleLater(gaps, m)
    ensures forall m :: i + 1 < m < j ==> gaps[m] != Numeral(i)
  {
    var x, y :| 0 <= x && x + 1 < y < |gaps| - 1 && gaps[y] == Numeral(x);
    i := 0;
    while NoFalseHoleLater(gaps, i)
      invariant forall m: nat :: m < i ==> NoFalseHoleLater(gaps, m)
      invariant i <= x
      decreases x - i
    {
      i := i + 1;
    }
    j := i + 2;
    while gaps[j] != Numeral(i)
      invariant i + 1 < j < |gaps| - 1
      invariant exists y :: j <= y < |gaps| - 1 && gaps[y] == Numeral(i)
      invariant forall m :: i + 1 < m < j ==> gaps[m] != Numeral(i)
      decreases |gaps| - j
    {
      j := j + 1;
    }
  }

  lemma FalseHoleWallsStep(gaps: seq<string>, kept: seq<string>, i: nat, j: nat)
    requires |gaps| == |kept| + 1 && AllNoNul(gaps) && AllNoNul(kept) && forall s :: s in kept ==> HasWallChar(s)
    requires i + 1 < j < |gaps| - 1 && gaps[j] == Numeral(i) && forall m :: i + 1 < m < j ==> gaps[m] != Numeral(i)
    ensures Walled(Replace(Holed(gaps[i + 1..], i + 1), Hole(i), kept[i]))
  {
    var rest := gaps[i + 1..];
    assert kept[i] in kept;
    forall g | g in rest ensures NoNul(g) {
      assert g in gaps;
    }
    FalseHoleWalls(rest, i, i + 1, kept[i], j - i - 1);
  }

  lemma WallAfterTwo(a: string, b: string, s: string)
    requires NoNul(a) && NoNul(b) && Walled(s)
    ensures Walled(a + (b + s))
  {
    NoNulCountsZero(a);
    NoNulCountsZero(b);
    WallLater(b, s);
    WallLater(a, b + s);
  }

  lemma FalseHoleLeavesNul(gaps: seq<string>, kept: seq<string>, i: nat, j: nat)
    requires |gaps| == |kept| + 1 && AllNoNul(gaps) && AllNoNul(kept) && forall s :: s in kept ==> HasWallChar(s)
    requires i + 1 < j < |gaps| - 1 && gaps[j] == Numeral(i) && forall m :: i + 1 < m < j ==> gaps[m] != Numeral(i)
    ensures !NoNul(RestoreFrom(Partly(gaps, kept, i), kept, i))
  {
    var back, later := Back(gaps, kept, i), Replace(Holed(gaps[i + 1..], i + 1), Hole(i), kept[i]);
    FalseHoleWallsStep(gaps, kept, i, j);
    var filled := back + (kept[i] + later);
    assert Replace(Partly(gaps, kept, i), Hole(i), kept[i]) == filled by {
      FillOne(gaps, kept, i);
    }
    assert Walled(filled) by {
      assert NoNul(kept[i]) by { assert kept[i] in kept; }
      BackNoNul(gaps, kept, i);
      WallAfterTwo(back, kept[i], later);
    }
    RestoreKeepsWall(filled, kept, i + 1);
    WalledHasNul(RestoreFrom(filled, kept, i + 1));
  }

  /**
    * The spans come back in their places exactly when no two that follow each other
    * are separated by the number of an earlier one. Each span holds something that is not a digit.
    */
  lemma RestoredIffUnambiguous(gaps: seq<string>, kept: seq<string>)
    requires |gaps| == |kept| + 1 && AllNoNul(gaps) && AllNoNul(kept) && forall s :: s in kept ==> HasWallChar(s)
    ensures RestoreFrom(Holed(gaps, 0), kept, 0) == Woven(gaps, kept) <==> Unambiguous(gaps)
    ensures NoNul(RestoreFrom(Holed(gaps, 0), kept, 0)) <==> Unambiguous(gaps)
  {
    WovenNoNul(gaps, kept);
    if Unambiguous(gaps) {
      FillAll(gaps, kept, 0);
    } else {
      var i, j := FirstFalseHole(gaps);
      FillUpTo(gaps, kept, 0, i);
      FalseHoleLeavesNul(gaps, kept, i, j);
    }
  }

  // ---------------------------------------------------------------- spans as long as their holes

  lemma {:induction false} ReplaceKeepsLength(s: string, mark: string, put: string)
    requires mark != "" && |put| == |mark|
    ensures |Replace(s, mark, put)| == |s|
  {
    if |s| >= |mark| {
      ReplaceKeepsLength(if mark <= s then s[|mark|..] else s[1..], mark, put);
    }
  }

  lemma {:induction false} RestoreKeepsLength(s: string, holes: seq<string>, k: nat)
    requires k <= |holes| && forall i :: 0 <= i < |holes| ==> |holes[i]| == |Hole(i)|
    ensures |RestoreFrom(s, holes, k)| == |s|
    decreases |holes| - k
  {
    if k < |holes| {
      ReplaceKeepsLength(s, Hole(k), holes[k]);
      RestoreKeepsLength(Replace(s, Hole(k), holes[k]), holes, k + 1);
    }
  }

  lemma {:induction false} WovenIsAsLong(gaps: seq<string>, kept: seq<string>, k: nat)
    requires |gaps| == |kept| + 1 && forall i :: 0 <= i < |kept| ==> |kept[i]| == |Hole(k + i)|
    ensures |Holed(gaps, k)| == |Woven(gaps, kept)|
    decreases |kept|
  {
    if kept != [] {
      WovenIsAsLong(gaps[1..], kept[1..], k + 1);
    }
  }

  /** Whether the spans come back can be read off the text before any pass. */
  lemma PassesKeepAmbiguity(gaps: seq<string>, after: seq<string>, f: string -> string)
    requires GapsKept(gaps, after, f) && KeepsWords(f)
    ensures Unambiguous(gaps) <==> Unambiguous(after)
  {
    forall i: nat, j | 0 <= j < |gaps| ensures gaps[j] == Numeral(i) <==> after[j] == Numeral(i) {
      assert GapKept(gaps[j], after[j], f);
      assert AllDigits(Numeral(i));
    }
  }

  lemma {:induction false} CutNoNul(p: Pattern, text: string, i: nat)
    requires i <= |text| && NoNul(text)
    ensures var c := CutFrom(p, text, i); AllNoNul(c.gaps) && AllNoNul(c.kept)
    decreases |text| - i, 1
  {
    CutRestNoNul(p, text, i);
  }

  lemma {:induction false} CutRestNoNul(p: Pattern, text: string, i: nat)
    requires i <= |text| && NoNul(text)
    ensures var c := CutRest(p, text, i); AllNoNul(c.gaps) && AllNoNul(c.kept)
    decreases |text| - i, 0
  {
    var r := Match(p, text, i);
    if r.Some? && r.value != "" {
      CutNoNul(p, text, i + |r.value|);
    } else if i < |text| {
      CutNoNul(p, text, i + 1);
      var c := CutFrom(p, text, i + 1);
      assert c.gaps[0] in c.gaps && forall g :: g in c.gaps[1..] ==> g in c.gaps;
    }
  }

  /** Every kept span matches the keep pattern: its letters, lower-cased, are one of the entries. */
  lemma {:induction false} CutMatches(p: Pattern, text: string, i: nat)
    requires i <= |text|
    ensures forall s :: s in CutFrom(p, text, i).kept ==> Lower(s) in p.names
    decreases |text| - i, 1
  {
    CutRestMatches(p, text, i);
    MatchIsLongest(p, text, i);
  }

  lemma {:induction false} CutRestMatches(p: Pattern, text: string, i: nat)
    requires i <= |text|
    ensures forall s :: s in CutRest(p, text, i).kept ==> Lower(s) in p.names
    decreases |text| - i, 0
  {
    var r := Match(p, text, i);
    if r.Some? && r.value != "" {
      CutMatches(p, text, i + |r.value|);
    } else if i < |text| {
      CutMatches(p, text, i + 1);
    }
  }

  /** Three kept spans, the last two separated by `0`, the number of the first: they do not come back. */
  lemma FalseHoleExample()
    ensures var gaps, kept := ["", "x", "0", ""], ["ab", "ab", "ab"];
            Woven(gaps, kept) == "abxab0ab" && RestoreFrom(Holed(gaps, 0), kept, 0) != Woven(gaps, kept)
  {
    var gaps, kept := ["", "x", "0", ""], ["ab", "ab", "ab"];
    assert Numeral(0) == "0" && gaps[2] == Numeral(0);
    assert !Unambiguous(gaps);
    assert WallChar("ab"[0]);
    RestoredIffUnambiguous(gaps, kept);
    assert gaps[1..] == ["x", "0", ""] && gaps[1..][1..] == ["0", ""] && gaps[1..][1..][1..] == [""];
    assert kept[1..] == ["ab", "ab"] && kept[1..][1..] == ["ab"] && kept[1..][1..][1..] == [];
    assert Woven([""], []) == "";
    assert Woven(["0", ""], ["ab"]) == "0ab";
    assert Woven(["x", "0", ""], ["ab", "ab"]) == "xab0ab";
  }
}
