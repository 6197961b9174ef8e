/**
  * One length-preserving pass over a sample: the object that keeps the log of what it
  * changed, and where the kept spans and everything else end up.
  */
module ContentMasker {
  import opened Prelude
  import opened Scanner
  import opened KeepHoles
  import opened KeptSpans
  import opened IncidentMask
  import opened ContentIdentifiers

  datatype Change = Change(domain: bool, len: nat)

  function Logged(span: string): Change {
    Change(IsDomain(span), |span|)
  }

  /** What one pattern replaces in `text` from `i` on. */
  function LogFrom(p: Pattern, text: string, i: nat): seq<Change>
    requires i <= |text|
    decreases |text| - i
  {
    var r := Match(p, text, i);
    if r.Some? && r.value != "" then
      [Logged(text[i..i + |r.value|])] + LogFrom(p, text, i + |r.value|)
    else
      (if r.Some? then [Logged("")] else []) + (if i == |text| then [] else LogFrom(p, text, i + 1))
  }

  function LogAll(ps: seq<Pattern>, f: string -> string, text: string): seq<Change> {
    if ps == [] then [] else LogFrom(ps[0], text, 0) + LogAll(ps[1..], f, Sub(ps[0], f, text))
  }

  /** Having written `out` and logged `log`, with the text from `i` to come, is one point of one pass. */
  ghost predicate Substituting(p: Pattern, f: string -> string, text: string, i: nat, out: string, log: seq<Change>, whole: seq<Change>) {
    i <= |text| && out + SubFrom(p, f, text, i) == Sub(p, f, text) && log + LogFrom(p, text, i) == whole
  }

  lemma SubstitutingStarts(p: Pattern, f: string -> string, text: string, log: seq<Change>)
    ensures Substituting(p, f, text, 0, "", log, log + LogFrom(p, text, 0))
  {
    assert "" + SubFrom(p, f, text, 0) == SubFrom(p, f, text, 0);
  }

  function TextToMask(m: Masker, text: string): string {
    if m.keep == [] then text else Holed(CutFrom(KeepPattern(m), text, 0).gaps, 0)
  }

  class ContentMasker {
    const masker: Masker
    const hash: Hash
    var changes: seq<Change>

    constructor (masker: Masker, hash: Hash)
      ensures this.masker == masker && this.hash == hash && changes == []
    {
      this.masker, this.hash, changes := masker, hash, [];
    }

    method Replacement(span: string) returns (rep: string)
      modifies this`changes
      ensures rep == Replacer(hash)(span) && |rep| == |span|
      ensures changes == old(changes) + [Logged(span)]
    {
      ReplacementIsHoleSafe(hash, span);
      rep := ReplaceIdentifier(hash, span);
      changes := changes + [Logged(span)];
    }

    /** One position: a match is replaced and logged, anything else is copied; `next` is where to go on. */
    method Advance(p: Pattern, text: string, i: nat, out: string, ghost whole: seq<Change>) returns (next: nat, done: bool, longer: string)
      requires i <= |text| && Substituting(p, Replacer(hash), text, i, out, changes, whole)
      modifies this`changes
      ensures done ==> longer == Sub(p, Replacer(hash), text) && changes == whole
      ensures !done ==> i < next <= |text| && Substituting(p, Replacer(hash), text, next, longer, changes, whole)
    {
      var r := Match(p, text, i);
      if r.Some? && r.value != "" {
        AtMatch(p, Replacer(hash), text, i, out, changes, whole);
        var rep := Replacement(text[i..i + |r.value|]);
        return i + |r.value|, false, out + rep;
      }
      if i == |text| {
        AtEnd(p, Replacer(hash), text, out, changes, whole);
      } else {
        AtCopy(p, Replacer(hash), text, i, out, changes, whole);
      }
      longer := out;
      if r.Some? {
        var rep := Replacement("");
        longer := out + rep;
      }
      if i == |text| {
        return i, true, longer;
      }
      return i + 1, false, longer + [text[i]];
    }

    /** One pattern over the text; each match is replaced and logged as it is met. */
    method Substitute(p: Pattern, text: string) returns (out: string)
      modifies this`changes
      ensures out == Sub(p, Replacer(hash), text)
      ensures changes == old(changes) + LogFrom(p, text, 0)
    {
      ghost var whole := changes + LogFrom(p, text, 0);
      SubstitutingStarts(p, Replacer(hash), text, changes);
      out := "";
      var i, done := 0, false;
      while !done
        invariant i <= |text|
        invariant if done then out == Sub(p, Replacer(hash), text) && changes == whole
                  else Substituting(p, Replacer(hash), text, i, out, changes, whole)
        decreases !done, |text| - i
      {
        i, done, out := Advance(p, text, i, out, whole);
        if done {
          break;
        }
      }
    }

    /** Every span any map entry names, and nothing else; refused if the length moved. */
    method MaskIdentifiers(text: string) returns (r: Option<string>)
      modifies this`changes
      ensures var out := MaskedWith(masker, Replacer(hash), text);
              r == if |out| == |text| then Some(out) else None
      ensures changes == old(changes) + LogAll(Passes(masker), Replacer(hash), TextToMask(masker, text))
    {
      var f := Replacer(hash);
      var holes := [];
      var out := text;
      if masker.keep != [] {
        out, holes := Stash(KeepPattern(masker), out);
      }
      ghost var start := out;
      var passes := Passes(masker);
      ghost var log := old(changes) + LogAll(passes, f, start);
      for k := 0 to |passes|
        invariant SubAll(passes, f, start) == SubAll(passes[k..], f, out)
        invariant changes + LogAll(passes[k..], f, out) == log
      {
        assert passes[k..][1..] == passes[k + 1..];
        ConcatAssociates(changes, LogFrom(passes[k], out, 0), LogAll(passes[k + 1..], f, Sub(passes[k], f, out)));
        out := Substitute(passes[k], out);
      }
      ghost var masked := out;
      for i := 0 to |holes|
        invariant RestoreFrom(masked, holes, 0) == RestoreFrom(out, holes, i)
      {
        out := Replace(out, Hole(i), holes[i]);
      }
      r := if |out| == |text| then Some(out) else None;
    }
  }

  lemma AtMatch(p: Pattern, f: string -> string, text: string, i: nat, out: string, log: seq<Change>, whole: seq<Change>)
    requires i <= |text| && Match(p, text, i).Some? && Match(p, text, i).value != ""
    requires Substituting(p, f, text, i, out, log, whole)
    ensures var j := i + |Match(p, text, i).value|;
            Substituting(p, f, text, j, out + f(text[i..j]), log + [Logged(text[i..j])], whole)
  {
    var j := i + |Match(p, text, i).value|;
    ConcatAssociates(out, f(text[i..j]), SubFrom(p, f, text, j));
    ConcatAssociates(log, [Logged(text[i..j])], LogFrom(p, text, j));
  }

  lemma AtCopy(p: Pattern, f: string -> string, text: string, i: nat, out: string, log: seq<Change>, whole: seq<Change>)
    requires i < |text| && (Match(p, text, i).Some? ==> Match(p, text, i).value == "")
    requires Substituting(p, f, text, i, out, log, whole)
    ensures Match(p, text, i).None? ==> Substituting(p, f, text, i + 1, out + [text[i]], log, whole)
    ensures Match(p, text, i).Some? ==> Substituting(p, f, text, i + 1, out + f("") + [text[i]], log + [Logged("")], whole)
  {
    var rest, restLog := SubFrom(p, f, text, i + 1), LogFrom(p, text, i + 1);
    if Match(p, text, i).None? {
      assert SubFrom(p, f, text, i) == "" + ([text[i]] + rest) == [text[i]] + rest;
      assert LogFrom(p, text, i) == [] + restLog == restLog;
      ConcatAssociates(out, [text[i]], rest);
    } else {
      assert SubFrom(p, f, text, i) == f("") + ([text[i]] + rest);
      ConcatAssociates(out, f(""), [text[i]] + rest);
      ConcatAssociates(out + f(""), [text[i]], rest);
      ConcatAssociates(log, [Logged("")], restLog);
    }
  }

  lemma AtEnd(p: Pattern, f: string -> string, text: string, out: string, log: seq<Change>, whole: seq<Change>)
    requires Match(p, text, |text|).Some? ==> Match(p, text, |text|).value == ""
    requires Substituting(p, f, text, |text|, out, log, whole)
    ensures Match(p, text, |text|).None? ==> out == Sub(p, f, text) && log == whole
    ensures Match(p, text, |text|).Some? ==> out + f("") == Sub(p, f, text) && log + [Logged("")] == whole
  {
    if Match(p, text, |text|).Some? {
      assert f("") + "" == f("") && [Logged("")] + [] == [Logged("")];
    } else {
      assert out + ("" + "") == out && log + ([] + []) == log;
    }
  }

  // ---------------------------------------------------------------- positions

  /** The text up to a kept span, the span, and the rest. */
  lemma {:induction false} WovenSplit(gaps: seq<string>, kept: seq<string>, k: nat) returns (rest: string)
    requires |gaps| == |kept| + 1 && k < |kept|
    ensures Woven(gaps, kept) == Back(gaps, kept, k) + (kept[k] + rest)
  {
    if k == 0 {
      rest := Woven(gaps[1..], kept[1..]);
      assert gaps[..1] == [gaps[0]] && kept[..0] == [];
    } else {
      rest := WovenSplit(gaps[1..], kept[1..], k - 1);
      BackFirst(gaps, kept, k);
      var back := Back(gaps[1..], kept[1..], k - 1);
      ConcatAssociates(kept[0], back, kept[k] + rest);
      ConcatAssociates(gaps[0], kept[0] + back, kept[k] + rest);
    }
  }

  lemma BackFirst(gaps: seq<string>, kept: seq<string>, k: nat)
    requires |gaps| == |kept| + 1 && 0 < k < |gaps|
    ensures Back(gaps, kept, k) == gaps[0] + (kept[0] + Back(gaps[1..], kept[1..], k - 1))
  {
    assert gaps[..k + 1][1..] == gaps[1..][..k] && kept[..k][1..] == kept[1..][..k - 1];
  }

  lemma {:induction false} SameOffset(gaps: seq<string>, after: seq<string>, kept: seq<string>, k: nat)
    requires |gaps| == |kept| + 1 == |after| && k < |gaps| && forall j :: 0 <= j < |gaps| ==> |after[j]| == |gaps[j]|
    ensures |Back(after, kept, k)| == |Back(gaps, kept, k)|
  {
    if k == 0 {
      assert gaps[..1] == [gaps[0]] && after[..1] == [after[0]] && kept[..0] == [];
    } else {
      BackFirst(gaps, kept, k);
      BackFirst(after, kept, k);
      SameOffset(gaps[1..], after[1..], kept[1..], k - 1);
    }
  }

  lemma {:induction false} SameLength(gaps: seq<string>, after: seq<string>, kept: seq<string>)
    requires |gaps| == |kept| + 1 == |after| && forall j :: 0 <= j < |gaps| ==> |after[j]| == |gaps[j]|
    ensures |Woven(after, kept)| == |Woven(gaps, kept)|
  {
    if kept != [] {
      SameLength(gaps[1..], after[1..], kept[1..]);
    }
  }

  /** Where in the text the keep pattern cuts its `k`-th span. */
  function KeptAt(m: Masker, text: string, k: nat): nat
    requires k < |CutFrom(KeepPattern(m), text, 0).kept|
  {
    var c := CutFrom(KeepPattern(m), text, 0);
    |Woven(c.gaps[..k + 1], c.kept[..k])|
  }

  lemma StandsAtBack(gaps: seq<string>, kept: seq<string>, k: nat, at: nat)
    requires |gaps| == |kept| + 1 && k < |kept| && at == |Back(gaps, kept, k)|
    ensures at + |kept[k]| <= |Woven(gaps, kept)| && Woven(gaps, kept)[at..at + |kept[k]|] == kept[k]
  {
    var rest := WovenSplit(gaps, kept, k);
  }

  /** The length is kept, every span the keep pattern cuts stands at its own offset, and no hole is left over. */
  ghost predicate StaysInPlace(m: Masker, text: string, out: string) {
    var c := CutFrom(KeepPattern(m), text, 0);
    && |out| == |text| && NoNul(out)
    && forall k :: 0 <= k < |c.kept| ==>
         var at := KeptAt(m, text, k);
         at + |c.kept[k]| <= |text| && text[at..at + |c.kept[k]|] == c.kept[k] == out[at..at + |c.kept[k]|]
  }

  lemma ReplacerIsHoleSafe(m: Masker, hash: Hash)
    requires forall n :: n in m.names ==> NoNul(n) && !AllDigits(n)
    ensures HoleSafe(m, Replacer(hash)) && KeepsLength(Replacer(hash))
  {
    forall s ensures |Replacer(hash)(s)| == |s| && (NoNul(s) ==> NoNul(Replacer(hash)(s))) && (!AllDigits(s) ==> !AllDigits(Replacer(hash)(s))) {
      ReplacementIsHoleSafe(hash, s);
    }
  }

  /**
    * Masking a sample keeps its length, and every kept span is where it was, unless two
    * spans that follow each other are separated by exactly the number of an earlier one.
    */
  lemma KeptSpansStayInPlace(m: Masker, hash: Hash, text: string)
    requires NoNul(text) && forall n :: n in m.names ==> NoNul(n) && !AllDigits(n)
    requires Unambiguous(CutFrom(KeepPattern(m), text, 0).gaps)
    ensures var out := MaskedWith(m, Replacer(hash), text);
            |out| == |text| && NoNul(out) && (m.keep != [] ==> StaysInPlace(m, text, out))
  {
    var f := Replacer(hash);
    ReplacerIsHoleSafe(m, hash);
    if m.keep == [] {
      PassesMissHoles(m);
      var after := PassesKeepHoles(Passes(m), f, [text]);
      assert GapKept(text, after[0], f);
    } else {
      KeptGapsKeepLength(m, f, text);
    }
  }

  /** With keep entries that are more than digits, that condition is exact; where it fails a NUL of some hole is left. */
  lemma KeptSpansStayInPlaceIff(m: Masker, hash: Hash, text: string)
    requires NoNul(text) && forall n :: n in m.names ==> NoNul(n) && !AllDigits(n)
    requires m.keep != [] && forall k :: k in m.keep ==> HasWallChar(k)
    ensures var out := MaskedWith(m, Replacer(hash), text);
            && (StaysInPlace(m, text, out) <==> Unambiguous(CutFrom(KeepPattern(m), text, 0).gaps))
            && (NoNul(out) <==> Unambiguous(CutFrom(KeepPattern(m), text, 0).gaps))
  {
    ReplacerIsHoleSafe(m, hash);
    var after := KeptSpansSurviveIff(m, Replacer(hash), text);
    if Unambiguous(CutFrom(KeepPattern(m), text, 0).gaps) {
      KeptSpansStayInPlace(m, hash, text);
    }
  }

  /**
    * The length test does not see it: where every kept span is as long as its hole, three
    * characters for the first ten, no text is refused, whether its spans come back or not.
    */
  lemma LengthTestIsBlind(m: Masker, hash: Hash, text: string)
    requires NoNul(text) && forall n :: n in m.names ==> NoNul(n) && !AllDigits(n)
    requires m.keep != [] && forall k :: k in m.keep ==> HasWallChar(k)
    requires var kept := CutFrom(KeepPattern(m), text, 0).kept; forall k :: 0 <= k < |kept| ==> |kept[k]| == |Hole(k)|
    ensures |MaskedWith(m, Replacer(hash), text)| == |text|
  {
    var f, c := Replacer(hash), CutFrom(KeepPattern(m), text, 0);
    ReplacerIsHoleSafe(m, hash);
    var after := KeptSpansSurviveIff(m, f, text);
    RestoreKeepsLength(Holed(after, 0), c.kept, 0);
    WovenIsAsLong(after, c.kept, 0);
    forall j | 0 <= j < |c.gaps| ensures |after[j]| == |c.gaps[j]| {
      assert GapKept(c.gaps[j], after[j], f);
    }
    SameLength(c.gaps, after, c.kept);
  }

  lemma KeepsOneWord(m: Masker, text: string, i: nat)
    requires i <= |text| && m.keep == ["abc"]
    ensures Match(KeepPattern(m), text, i) == if Stands("abc", text, i) then Some("abc") else None
  {
    var p := KeepPattern(m);
    assert p.names == ["abc"] by {
      assert Lower("abc") == "abc";
    }
    MatchIsLongest(p, text, i);
    assert "abc" in p.names;
    assert Match(p, text, i).Some? <==> Fires(p, "abc", text, i);
  }

  lemma CutsAWord(m: Masker, text: string, i: nat)
    requires m.keep == ["abc"] && i + 3 <= |text| && text[i..i + 3] == "abc"
    ensures CutFrom(KeepPattern(m), text, i) == CutFrom(KeepPattern(m), text, i + 3).After("abc")
  {
    KeepsOneWord(m, text, i);
    assert Lower("abc") == "abc";
  }

  lemma CutsNothing(m: Masker, text: string, i: nat)
    requires m.keep == ["abc"] && i < |text| && LowerChar(text[i]) != 'a'
    ensures CutFrom(KeepPattern(m), text, i) == CutFrom(KeepPattern(m), text, i + 1).Behind([text[i]])
  {
    KeepsOneWord(m, text, i);
    assert i + 3 <= |text| ==> Lower(text[i..i + 3])[0] == LowerChar(text[i]);
  }

  lemma CutsTheEnd(m: Masker, text: string)
    requires m.keep == ["abc"]
    ensures CutFrom(KeepPattern(m), text, |text|) == Cut([""], [])
  {
    KeepsOneWord(m, text, |text|);
  }

  lemma BehindOne(s: string, gaps: seq<string>, kept: seq<string>)
    requires |gaps| == |kept|
    ensures Cut([""] + gaps, kept).Behind(s) == Cut([s] + gaps, kept)
  {
    assert s + "" == s && ([""] + gaps)[1..] == gaps;
  }

  lemma CorruptedNames(m: Masker, text: string)
    requires m.names == ["acme"] && m.keep == ["abc"] && text == "abcxabc0abc"
    ensures NoNul(text) && (forall n :: n in m.names ==> NoNul(n) && !AllDigits(n)) && forall k :: k in m.keep ==> HasWallChar(k)
  {
    assert WallChar(m.keep[0][0]) && !IsDigit(m.names[0][0]);
  }

  lemma CorruptedSpans(kept: seq<string>, gaps: seq<string>)
    requires kept == ["abc", "abc", "abc"] && gaps == ["", "x", "0", ""]
    ensures (forall k :: 0 <= k < |kept| ==> |kept[k]| == |Hole(k)|) && !Unambiguous(gaps)
  {
    forall k: nat | k < 3 ensures |Hole(k)| == 3 {
      assert |Numeral(k)| == 1;
    }
    assert gaps[2] == Numeral(0) by {
      assert Numeral(0) == "0";
    }
  }

  /** A sample whose kept spans do not come back, and which is not refused: `abcxabc0abc`, keeping `abc`. */
  lemma CorruptedAtItsLength(hash: Hash) returns (m: Masker, text: string)
    ensures m.keep == ["abc"] && text == "abcxabc0abc"
    ensures var out := MaskedWith(m, Replacer(hash), text);
            |out| == |text| && !NoNul(out) && !StaysInPlace(m, text, out)
  {
    m, text := Masker(["acme"], map[], map[], ["abc"]), "abcxabc0abc";
    CorruptedCut(m, text);
    CorruptedNames(m, text);
    CorruptedSpans(["abc", "abc", "abc"], ["", "x", "0", ""]);
    LengthTestIsBlind(m, hash, text);
    KeptSpansStayInPlaceIff(m, hash, text);
  }

  lemma CorruptedCut(m: Masker, text: string)
    requires m.keep == ["abc"] && text == "abcxabc0abc"
    ensures CutFrom(KeepPattern(m), text, 0) == Cut(["", "x", "0", ""], ["abc", "abc", "abc"])
  {
    CorruptedCutMiddle(m, text);
    CutsAWord(m, text, 0);
  }

  lemma CorruptedCutMiddle(m: Masker, text: string)
    requires m.keep == ["abc"] && text == "abcxabc0abc"
    ensures CutFrom(KeepPattern(m), text, 3) == Cut(["x", "0", ""], ["abc", "abc"])
  {
    CorruptedCutTail(m, text);
    CutsNothing(m, text, 3);
    BehindOne("x", ["0", ""], ["abc", "abc"]);
  }

  lemma CorruptedCutTail(m: Masker, text: string)
    requires m.keep == ["abc"] && text == "abcxabc0abc"
    ensures CutFrom(KeepPattern(m), text, 4) == Cut(["", "0", ""], ["abc", "abc"])
  {
    CorruptedCutEnd(m, text);
    CutsAWord(m, text, 4);
  }

  lemma CorruptedCutEnd(m: Masker, text: string)
    requires m.keep == ["abc"] && text == "abcxabc0abc"
    ensures CutFrom(KeepPattern(m), text, 7) == Cut(["0", ""], ["abc"])
  {
    CutsTheEnd(m, text);
    CutsAWord(m, text, 8);
    CutsNothing(m, text, 7);
    BehindOne("0", [""], ["abc"]);
  }

  // ---------------------------------------------------------------- a text that holds a hole itself

  lemma FillFirst(rest: string, put: string)
    ensures Replace(Hole(0) + rest, Hole(0), put) == put + Replace(rest, Hole(0), put)
  {
    var s := Hole(0) + rest;
    assert Hole(0) <= s && s[|Hole(0)|..] == rest;
  }

  lemma NothingToFill(s: string, put: string)
    requires NoNul(s)
    ensures Replace(s, Hole(0), put) == s
  {
    ReplaceSkips(s, "", 0, put);
    assert s + "" == s;
  }

  /** A hole the text itself holds, after a kept span, is filled with that span too. */
  lemma HoleInTextIsFilled(a: string, b: string, c: string, span: string)
    requires NoNul(a) && NoNul(b) && NoNul(c)
    ensures RestoreFrom(Holed([a, b + (Hole(0) + c)], 0), [span], 0) == a + (span + (b + (span + c)))
  {
    var gap := b + (Hole(0) + c);
    assert [a, gap][1..] == [gap];
    assert Holed([a, gap], 0) == a + (Hole(0) + gap);
    ReplaceSkips(a, Hole(0) + gap, 0, span);
    FillFirst(gap, span);
    ReplaceSkips(b, Hole(0) + c, 0, span);
    FillFirst(c, span);
    NothingToFill(c, span);
  }

  lemma BehindLast(s: string, t: string)
    ensures Cut([t], []).Behind(s) == Cut([s + t], [])
  {
  }

  lemma CutsBefore(m: Masker, text: string, i: nat, x: string, t: string)
    requires m.keep == ["abc"] && i < |text| && LowerChar(text[i]) != 'a' && x == [text[i]]
    requires CutFrom(KeepPattern(m), text, i + 1) == Cut([t], [])
    ensures CutFrom(KeepPattern(m), text, i) == Cut([x + t], [])
  {
    CutsNothing(m, text, i);
    BehindLast(x, t);
  }

  lemma HoleInTextCut(m: Masker, text: string)
    requires m.keep == ["abc"] && text == "abc\00\0"
    ensures CutFrom(KeepPattern(m), text, 0) == Cut(["", "\00\0"], ["abc"])
  {
    CutsTheEnd(m, text);
    CutsBefore(m, text, 5, "\0", "");
    CutsBefore(m, text, 4, "0", "\0" + "");
    CutsBefore(m, text, 3, "\0", "0" + ("\0" + ""));
    assert "\0" + ("0" + ("\0" + "")) == "\00\0";
    CutsAWord(m, text, 0);
  }

  /** So a sample need not come through even a map without names: keeping `abc`, it may gain another, at its own length. */
  lemma HoleInTextCorrupts(m: Masker, f: string -> string, text: string)
    requires m.names == [] && m.keep == ["abc"] && text == "abc\00\0"
    ensures MaskedWith(m, f, text) == "abcabc" && |MaskedWith(m, f, text)| == |text|
  {
    HoleInTextCut(m, text);
    var gap := "\00\0";
    assert gap == "" + (Hole(0) + "") by {
      assert Numeral(0) == "0";
    }
    HoleInTextIsFilled("", "", "", "abc");
    NoPassWorks(Passes(m), f, Holed(["", gap], 0));
  }

  /** Each span between gaps of the same lengths as before. */
  lemma MaskedGapsWoven(m: Masker, f: string -> string, text: string) returns (gaps: seq<string>, after: seq<string>, kept: seq<string>)
    requires NoNul(text) && HoleSafe(m, f) && KeepsLength(f) && m.keep != []
    requires Unambiguous(CutFrom(KeepPattern(m), text, 0).gaps)
    ensures CutFrom(KeepPattern(m), text, 0) == Cut(gaps, kept) && |gaps| == |kept| + 1 == |after|
    ensures Woven(gaps, kept) == text && Woven(after, kept) == MaskedWith(m, f, text) && NoNul(MaskedWith(m, f, text))
    ensures forall j :: 0 <= j < |gaps| ==> |after[j]| == |gaps[j]|
  {
    var c;
    c, after := MaskedGaps(m, f, text);
    gaps, kept := c.gaps, c.kept;
    PassesKeepAmbiguity(gaps, after, f);
    FillAll(after, kept, 0);
    WovenNoNul(after, kept);
    forall j | 0 <= j < |gaps| ensures |after[j]| == |gaps[j]| {
      assert GapKept(gaps[j], after[j], f);
    }
  }

  lemma KeptGapsKeepLength(m: Masker, f: string -> string, text: string)
    requires NoNul(text) && HoleSafe(m, f) && KeepsLength(f) && m.keep != []
    requires Unambiguous(CutFrom(KeepPattern(m), text, 0).gaps)
    ensures StaysInPlace(m, text, MaskedWith(m, f, text))
  {
    var gaps, after, kept := MaskedGapsWoven(m, f, text);
    SameLength(gaps, after, kept);
    forall k | 0 <= k < |kept|
      ensures var at, out := KeptAt(m, text, k), MaskedWith(m, f, text);
              at + |kept[k]| <= |text| && at + |kept[k]| <= |out| && text[at..at + |kept[k]|] == kept[k] == out[at..at + |kept[k]|]
    {
      SameSpanInBoth(gaps, after, kept, k);
    }
  }

  lemma SameSpanInBoth(gaps: seq<string>, after: seq<string>, kept: seq<string>, k: nat)
    requires |gaps| == |kept| + 1 == |after| && k < |kept| && forall j :: 0 <= j < |gaps| ==> |after[j]| == |gaps[j]|
    ensures var at, text, out := |Back(gaps, kept, k)|, Woven(gaps, kept), Woven(after, kept);
            && at + |kept[k]| <= |text| && at + |kept[k]| <= |out|
            && text[at..at + |kept[k]|] == kept[k] == out[at..at + |kept[k]|]
  {
    SameOffset(gaps, after, kept, k);
    StandsAtBack(gaps, kept, k, |Back(gaps, kept, k)|);
    StandsAtBack(after, kept, k, |Back(gaps, kept, k)|);
  }
}
