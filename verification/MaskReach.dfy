/**
  * How far masking reaches: what is left of a name in a masked text holds or touches
  * something masking wrote.
  *
  * Every character of a pass's output is marked if a replacement put it there, or if it
  * was copied from a marked one. Unmarked characters that follow each other were copied
  * from characters that follow each other, because no replacement is empty; so a name
  * that stands, guards and all, in an unmarked stretch of the output stood in the input
  * too, where its own pass would have taken it and where an earlier pass had left it
  * only with a mark. Read forwards over the passes, that is the theorem.
  */
module MaskReach {
  import opened Prelude
  import opened Scanner
  import opened KeptSpans
  import opened IncidentMask

  /** No replacement is empty but that of nothing. */
  ghost predicate Writes(f: string -> string) {
    forall s :: s != "" ==> f(s) != ""
  }

  /** A character that `pass` put there: number `k` of the replacement `text`. */
  datatype Put = Put(pass: Pattern, text: string, k: nat)

  /** Nothing for a character of the text masking was given. */
  type Mark = Option<Put>

  function PutMarks(pass: Pattern, text: string): (marks: seq<Mark>)
    ensures |marks| == |text| && forall k :: 0 <= k < |marks| ==> marks[k] == Some(Put(pass, text, k))
  {
    seq(|text|, k requires 0 <= k < |text| => Some(Put(pass, text, k)))
  }

  /** Which characters of the output of a pass are written, given which of its input are: those replaced, and those copied that were. */
  ghost function MarksFrom(p: Pattern, f: string -> string, text: string, before: seq<Mark>, i: nat): (marks: seq<Mark>)
    requires i <= |text| == |before|
    ensures |marks| == |SubFrom(p, f, text, i)|
    decreases |text| - i
  {
    var r := Match(p, text, i);
    if r.Some? && r.value != "" then
      PutMarks(p, f(text[i..i + |r.value|])) + MarksFrom(p, f, text, before, i + |r.value|)
    else
      (if r.Some? then PutMarks(p, f("")) else [])
      + (if i == |text| then [] else [before[i]] + MarksFrom(p, f, text, before, i + 1))
  }

  ghost predicate Unmarked(marks: seq<Mark>, a: int, b: int) {
    forall k :: a <= k < b && 0 <= k < |marks| ==> marks[k].None?
  }

  /** `out[a..b]` was copied from `text[c..]`, end to end, and no pattern match begins in it. */
  ghost predicate CopiedFrom(p: Pattern, text: string, before: seq<Mark>, out: string, a: nat, b: nat, i: nat, c: nat)
    requires |before| == |text| && a <= b <= |out|
  {
    && i <= c && c + (b - a) <= |text| && text[c..c + (b - a)] == out[a..b] && Unmarked(before, c, c + (b - a))
    && (forall k :: c <= k < c + (b - a) ==> Match(p, text, k).None? || Match(p, text, k).value == "")
    && (a == 0 ==> c == i) && (b == |out| ==> c + (b - a) == |text|)
  }

  lemma EmptyOnlyAtTheEnd(p: Pattern, f: string -> string, text: string, i: nat)
    requires i <= |text| && Writes(f) && SubFrom(p, f, text, i) == ""
    ensures i == |text|
  {
    assert |SubFrom(p, f, text, i)| == 0;
  }

  /** An unmarked stretch lies behind a front that is all marked. */
  lemma BehindMarked(front: seq<Mark>, marks: seq<Mark>, a: nat, b: nat)
    requires a < b <= |front| + |marks| && Unmarked(front + marks, a, b) && forall k :: 0 <= k < |front| ==> front[k].Some?
    ensures a >= |front| && Unmarked(marks, a - |front|, b - |front|)
  {
    assert (front + marks)[a].None?;
    UnmarkedLater(front, marks, a, b);
  }

  lemma UnmarkedLater(front: seq<Mark>, marks: seq<Mark>, a: nat, b: nat)
    requires a <= b && Unmarked(front + marks, a, b)
    ensures Unmarked(marks, a - |front|, b - |front|)
  {
    forall k | a - |front| <= k < b - |front| && 0 <= k < |marks| ensures marks[k].None? {
      assert (front + marks)[|front| + k] == marks[k];
    }
  }

  lemma CopiedLater(p: Pattern, text: string, before: seq<Mark>, head: string, rest: string, a: nat, b: nat, i: nat, next: nat, c: nat)
    requires |before| == |text| && i <= next && head != "" && |head| <= a < b <= |head| + |rest|
    requires CopiedFrom(p, text, before, rest, a - |head|, b - |head|, next, c)
    ensures CopiedFrom(p, text, before, head + rest, a, b, i, c)
  {
    assert (head + rest)[a..b] == rest[a - |head|..b - |head|];
  }

  lemma CopiedHere(p: Pattern, text: string, before: seq<Mark>, pre: string, rest: string, b: nat, i: nat)
    requires |before| == |text| && i < |text| && |pre| + 1 < b <= |pre| + 1 + |rest| && before[i].None?
    requires Match(p, text, i).None? || Match(p, text, i).value == ""
    requires CopiedFrom(p, text, before, rest, 0, b - |pre| - 1, i + 1, i + 1)
    ensures CopiedFrom(p, text, before, pre + ([text[i]] + rest), |pre|, b, i, i)
  {
    var n := b - |pre| - 1;
    assert (pre + ([text[i]] + rest))[|pre|..b] == [text[i]] + rest[0..n];
    assert text[i..i + 1 + n] == [text[i]] + text[i + 1..i + 1 + n];
  }

  lemma CopiedOne(p: Pattern, text: string, before: seq<Mark>, pre: string, rest: string, i: nat)
    requires |before| == |text| && i < |text| && before[i].None? && (rest == "" ==> i + 1 == |text|)
    requires Match(p, text, i).None? || Match(p, text, i).value == ""
    ensures CopiedFrom(p, text, before, pre + ([text[i]] + rest), |pre|, |pre| + 1, i, i)
  {
    assert (pre + ([text[i]] + rest))[|pre|..|pre| + 1] == [text[i]] == text[i..i + 1];
  }

  /** Characters of the output that follow each other and were not written follow each other in the text. */
  lemma {:induction false} UnwrittenIsCopied(p: Pattern, f: string -> string, text: string, before: seq<Mark>, i: nat, a: nat, b: nat)
    returns (c: nat)
    requires i <= |text| == |before| && Writes(f)
    requires a < b <= |SubFrom(p, f, text, i)| && Unmarked(MarksFrom(p, f, text, before, i), a, b)
    ensures CopiedFrom(p, text, before, SubFrom(p, f, text, i), a, b, i, c)
    decreases |text| - i
  {
    var r := Match(p, text, i);
    if r.Some? && r.value != "" {
      c := PastReplacement(p, f, text, before, i, a, b, i + |r.value|);
    } else {
      c := AtCopiedCharacter(p, f, text, before, i, a, b, if r.Some? then f("") else "");
    }
  }

  lemma {:induction false} AtCopiedCharacter(p: Pattern, f: string -> string, text: string, before: seq<Mark>, i: nat, a: nat, b: nat, pre: string)
    returns (c: nat)
    requires i <= |text| == |before| && Writes(f) && (Match(p, text, i).None? || Match(p, text, i).value == "")
    requires pre == if Match(p, text, i).Some? then f("") else ""
    requires a < b <= |SubFrom(p, f, text, i)| && Unmarked(MarksFrom(p, f, text, before, i), a, b)
    ensures CopiedFrom(p, text, before, SubFrom(p, f, text, i), a, b, i, c)
    decreases |text| - i, 1
  {
    SplitAtCopy(p, f, text, before, i, a, b, pre);
    if a == |pre| {
      CopyBegins(p, f, text, before, i, b, pre);
      c := i;
    } else {
      c := UnwrittenIsCopied(p, f, text, before, i + 1, a - |pre| - 1, b - |pre| - 1);
      AfterCopy(p, text, before, pre, SubFrom(p, f, text, i + 1), a, b, i, c);
    }
  }


  lemma {:induction false} PastReplacement(p: Pattern, f: string -> string, text: string, before: seq<Mark>, i: nat, a: nat, b: nat, next: nat)
    returns (c: nat)
    requires i <= |text| == |before| && Writes(f) && Match(p, text, i).Some? && Match(p, text, i).value != ""
    requires next == i + |Match(p, text, i).value|
    requires a < b <= |SubFrom(p, f, text, i)| && Unmarked(MarksFrom(p, f, text, before, i), a, b)
    ensures CopiedFrom(p, text, before, SubFrom(p, f, text, i), a, b, i, c)
    decreases |text| - i, 0
  {
    var rep := f(text[i..next]);
    BehindMarked(PutMarks(p, rep), MarksFrom(p, f, text, before, next), a, b);
    c := UnwrittenIsCopied(p, f, text, before, next, a - |rep|, b - |rep|);
    CopiedLater(p, text, before, rep, SubFrom(p, f, text, next), a, b, i, next, c);
  }

  /** Nothing is replaced at `i`: what stands there, if anything, is the character itself. */
  lemma SplitAtCopy(p: Pattern, f: string -> string, text: string, before: seq<Mark>, i: nat, a: nat, b: nat, pre: string)
    requires i <= |text| == |before| && (Match(p, text, i).None? || Match(p, text, i).value == "")
    requires pre == if Match(p, text, i).Some? then f("") else ""
    requires a < b <= |SubFrom(p, f, text, i)| && Unmarked(MarksFrom(p, f, text, before, i), a, b)
    ensures i < |text| && a >= |pre| && SubFrom(p, f, text, i) == pre + ([text[i]] + SubFrom(p, f, text, i + 1))
    ensures Unmarked([before[i]] + MarksFrom(p, f, text, before, i + 1), a - |pre|, b - |pre|)
    ensures Unmarked(MarksFrom(p, f, text, before, i + 1), a - |pre| - 1, b - |pre| - 1)
  {
    var written := PutMarks(p, pre);
    if i == |text| {
      BehindMarked(written, [], a, b);
    } else {
      var marks := MarksFrom(p, f, text, before, i + 1);
      BehindMarked(written, [before[i]] + marks, a, b);
      UnmarkedLater([before[i]], marks, a - |pre|, b - |pre|);
    }
  }

  lemma AfterCopy(p: Pattern, text: string, before: seq<Mark>, pre: string, rest: string, a: nat, b: nat, i: nat, c: nat)
    requires |before| == |text| && i < |text| && |pre| + 1 <= a < b <= |pre| + 1 + |rest|
    requires CopiedFrom(p, text, before, rest, a - |pre| - 1, b - |pre| - 1, i + 1, c)
    ensures CopiedFrom(p, text, before, pre + ([text[i]] + rest), a, b, i, c)
  {
    CopiedLater(p, text, before, pre + [text[i]], rest, a, b, i, i + 1, c);
    ConcatAssociates(pre, [text[i]], rest);
  }

  lemma {:induction false} CopyBegins(p: Pattern, f: string -> string, text: string, before: seq<Mark>, i: nat, b: nat, pre: string)
    requires i < |text| == |before| && Writes(f) && (Match(p, text, i).None? || Match(p, text, i).value == "")
    requires |pre| < b <= |pre| + 1 + |SubFrom(p, f, text, i + 1)|
    requires Unmarked([before[i]] + MarksFrom(p, f, text, before, i + 1), 0, b - |pre|)
    ensures CopiedFrom(p, text, before, pre + ([text[i]] + SubFrom(p, f, text, i + 1)), |pre|, b, i, i)
    decreases |text| - i, 0
  {
    var rest, marks, n := SubFrom(p, f, text, i + 1), MarksFrom(p, f, text, before, i + 1), |pre| + 1;
    assert ([before[i]] + marks)[0].None?;
    if b == n {
      if rest == "" {
        EmptyOnlyAtTheEnd(p, f, text, i + 1);
      }
      CopiedOne(p, text, before, pre, rest, i);
    } else {
      UnmarkedLater([before[i]], marks, 1, b - |pre|);
      var d := UnwrittenIsCopied(p, f, text, before, i + 1, 0, b - n);
      CopiedHere(p, text, before, pre, rest, b, i);
    }
  }

  // ---------------------------------------------------------------- names

  /** The guards of the four wide passes: they look at one character on either side. */
  predicate Wide(p: Pattern) {
    (p.behind.NothingBehind? || p.behind.NoAlnumBehind?) && (p.ahead.NothingAhead? || p.ahead.NoLetterAhead?)
  }

  /** What a pattern looks at, at `j`: the name, and on each side as many characters as its guard reads. */
  function From(p: Pattern, j: nat): int {
    match p.behind
    case NothingBehind => j
    case NoAlnumBehind => j - 1
    case HomeBehind => j - 6
    case HomeDigitBehind => j - 7
    case UnderHomeBehind => j - 6
    case PhpBehind => j - 6
  }

  function To(p: Pattern, j: nat, n: string): int {
    var e := j + |n|;
    match p.ahead
    case NothingAhead => e
    case NoLetterAhead => e + 1
    case SegmentEndAhead => e + 1
    case UnderscoreAhead => e + 1
    case PublicHtmlAhead => e + 12
    case ConfAhead => e + 5
  }

  /** Nothing the pattern looks at was written. */
  ghost predicate Untouched(p: Pattern, marks: seq<Mark>, j: nat, n: string) {
    Unmarked(marks, From(p, j), To(p, j, n))
  }

  lemma SameStretchStands(text: string, out: string, n: string, j: nat, a: nat, b: nat, c: nat)
    requires a <= j && j + |n| <= b <= |out| && c + (b - a) <= |text| && text[c..c + (b - a)] == out[a..b] && Stands(n, out, j)
    ensures Stands(n, text, c + (j - a))
  {
    SliceOfSlice(text, c, b - a, j - a, j - a + |n|);
    SliceOfSlice(out, a, b - a, j - a, j - a + |n|);
    assert text[c + (j - a)..c + (j - a) + |n|] == out[j..j + |n|];
  }

  lemma SameStretchChar(text: string, out: string, k: nat, a: nat, b: nat, c: nat)
    requires a <= k < b <= |out| && c + (b - a) <= |text| && text[c..c + (b - a)] == out[a..b]
    ensures text[c + (k - a)] == out[k]
  {
    assert text[c..c + (b - a)][k - a] == out[a..b][k - a];
  }

  lemma BehindWhereCopied(p: Pattern, text: string, out: string, j: nat, a: nat, b: nat, c: nat)
    requires a <= j <= b <= |out| && c + (b - a) <= |text| && text[c..c + (b - a)] == out[a..b]
    requires a == (if From(p, j) < 0 then 0 else From(p, j)) && (a == 0 ==> c == 0) && BehindHolds(p.behind, out, j)
    ensures BehindHolds(p.behind, text, c + (j - a))
  {
    var at := c + (j - a);
    match p.behind
    case NothingBehind =>
    case NoAlnumBehind =>
      if j > 0 {
        SameStretchChar(text, out, j - 1, a, b, c);
      }
    case HomeBehind => WordWhereCopied("/home/", text, out, j, a, b, c);
    case HomeDigitBehind => HomeDigitWhereCopied(text, out, j, a, b, c);
    case UnderHomeBehind => WordWhereCopied("_home_", text, out, j, a, b, c);
    case PhpBehind => PhpWhereCopied(text, out, j, a, b, c);
  }

  lemma WordWhereCopied(word: string, text: string, out: string, j: nat, a: nat, b: nat, c: nat)
    requires a <= j <= b <= |out| && c + (b - a) <= |text| && text[c..c + (b - a)] == out[a..b]
    requires a + |word| <= j && StandsBefore(word, out, j)
    ensures StandsBefore(word, text, c + (j - a))
  {
    SameStretchStands(text, out, word, j - |word|, a, b, c);
  }

  lemma HomeDigitWhereCopied(text: string, out: string, j: nat, a: nat, b: nat, c: nat)
    requires a <= j <= b <= |out| && c + (b - a) <= |text| && text[c..c + (b - a)] == out[a..b]
    requires 7 <= j && a == j - 7 && BehindHolds(HomeDigitBehind, out, j)
    ensures BehindHolds(HomeDigitBehind, text, c + (j - a))
  {
    WordWhereCopied("/", text, out, j, a, b, c);
    SameStretchChar(text, out, j - 2, a, b, c);
    WordWhereCopied("/home", text, out, j - 2, a, b, c);
  }

  lemma PhpWhereCopied(text: string, out: string, j: nat, a: nat, b: nat, c: nat)
    requires a <= j <= b <= |out| && c + (b - a) <= |text| && text[c..c + (b - a)] == out[a..b]
    requires 6 <= j && a == j - 6 && BehindHolds(PhpBehind, out, j)
    ensures BehindHolds(PhpBehind, text, c + (j - a))
  {
    WordWhereCopied("-", text, out, j, a, b, c);
    SameStretchChar(text, out, j - 2, a, b, c);
    SameStretchChar(text, out, j - 3, a, b, c);
    WordWhereCopied("php", text, out, j - 3, a, b, c);
  }

  lemma AheadWhereCopied(p: Pattern, n: string, text: string, out: string, j: nat, a: nat, b: nat, c: nat)
    requires a <= j && j + |n| <= b <= |out| && c + (b - a) <= |text| && text[c..c + (b - a)] == out[a..b]
    requires b == (if To(p, j, n) > |out| then |out| else To(p, j, n)) && (b == |out| ==> c + (b - a) == |text|)
    requires AheadHolds(p.ahead, out, j + |n|)
    ensures AheadHolds(p.ahead, text, c + (j - a) + |n|)
  {
    var e := j + |n|;
    match p.ahead
    case NothingAhead =>
    case NoLetterAhead =>
      if e < |out| {
        SameStretchChar(text, out, e, a, b, c);
      }
    case SegmentEndAhead =>
      if e < |out| {
        SameStretchChar(text, out, e, a, b, c);
      }
    case UnderscoreAhead => SameStretchStands(text, out, "_", e, a, b, c);
    case PublicHtmlAhead => SameStretchStands(text, out, "_public_html", e, a, b, c);
    case ConfAhead => SameStretchStands(text, out, ".conf", e, a, b, c);
  }

  /** A name a pattern finds in a copied stretch, it finds in the text the stretch was copied from. */
  lemma FiresWhereCopied(q: Pattern, p: Pattern, n: string, text: string, before: seq<Mark>, out: string, j: nat, a: nat, b: nat, c: nat)
    requires |before| == |text| && j + |n| <= |out| && Fires(p, n, out, j)
    requires a == (if From(p, j) < 0 then 0 else From(p, j)) && b == (if To(p, j, n) > |out| then |out| else To(p, j, n))
    requires CopiedFrom(q, text, before, out, a, b, 0, c)
    ensures var at := c + (j - a); at + |n| <= |text| && Fires(p, n, text, at) && Untouched(p, before, at, n)
  {
    SameStretchStands(text, out, n, j, a, b, c);
    BehindWhereCopied(p, text, out, j, a, b, c);
    AheadWhereCopied(p, n, text, out, j, a, b, c);
  }

  /** In the text itself a pass would have replaced it. */
  lemma PassTakesIt(q: Pattern, n: string, text: string, at: nat)
    requires at + |n| <= |text| && n in q.names && n != "" && Fires(q, n, text, at)
    ensures Match(q, text, at).Some? && Match(q, text, at).value != ""
  {
    MatchIsLongest(q, text, at);
  }

  /** Of every name of a pass that stands with its guards met, something the pattern looks at was written. */
  ghost predicate Reached(p: Pattern, text: string, marks: seq<Mark>) {
    forall n, j: nat :: n in p.names && n != "" && j <= |text| && Fires(p, n, text, j) ==> !Untouched(p, marks, j, n)
  }

  ghost function Marks(p: Pattern, f: string -> string, text: string, before: seq<Mark>): (marks: seq<Mark>)
    requires |before| == |text|
    ensures |marks| == |Sub(p, f, text)|
  {
    MarksFrom(p, f, text, before, 0)
  }

  lemma StretchAround(q: Pattern, f: string -> string, text: string, before: seq<Mark>, p: Pattern, n: string, j: nat)
    returns (a: nat, b: nat, c: nat)
    requires |before| == |text| && Writes(f) && n != "" && j + |n| <= |Sub(q, f, text)|
    requires Untouched(p, Marks(q, f, text, before), j, n)
    ensures a == (if From(p, j) < 0 then 0 else From(p, j))
    ensures b == (if To(p, j, n) > |Sub(q, f, text)| then |Sub(q, f, text)| else To(p, j, n))
    ensures a <= b && CopiedFrom(q, text, before, Sub(q, f, text), a, b, 0, c)
  {
    a := if From(p, j) < 0 then 0 else From(p, j);
    b := if To(p, j, n) > |Sub(q, f, text)| then |Sub(q, f, text)| else To(p, j, n);
    c := UnwrittenIsCopied(q, f, text, before, 0, a, b);
  }

  lemma NotLeftUntouched(q: Pattern, f: string -> string, text: string, before: seq<Mark>, p: Pattern, n: string, j: nat)
    requires |before| == |text| && Writes(f) && (p == q || Reached(p, text, before))
    requires n in p.names && n != "" && j <= |Sub(q, f, text)| && Fires(p, n, Sub(q, f, text), j)
    ensures !Untouched(p, Marks(q, f, text, before), j, n)
  {
    if Untouched(p, Marks(q, f, text, before), j, n) {
      var a, b, c := StretchAround(q, f, text, before, p, n, j);
      var at := c + (j - a);
      assert at + |n| <= |text| && Fires(p, n, text, at) && Untouched(p, before, at, n) by {
        FiresWhereCopied(q, p, n, text, before, Sub(q, f, text), j, a, b, c);
      }
      if p == q {
        PassTakesIt(q, n, text, at);
      }
      assert false;
    }
  }

  /** A pass reaches its own names, and what earlier passes reached stays reached. */
  lemma PassReaches(q: Pattern, f: string -> string, text: string, before: seq<Mark>, p: Pattern)
    requires |before| == |text| && Writes(f) && (p == q || Reached(p, text, before))
    ensures Reached(p, Sub(q, f, text), Marks(q, f, text, before))
  {
    var out, marks := Sub(q, f, text), Marks(q, f, text, before);
    forall n, j: nat | n in p.names && n != "" && j <= |out| && Fires(p, n, out, j) ensures !Untouched(p, marks, j, n) {
      NotLeftUntouched(q, f, text, before, p, n, j);
    }
  }

  // ---------------------------------------------------------------- all the passes

  ghost function MarksAll(ps: seq<Pattern>, f: string -> string, text: string, before: seq<Mark>): (marks: seq<Mark>)
    requires |before| == |text|
    ensures |marks| == |SubAll(ps, f, text)|
    decreases |ps|
  {
    if ps == [] then before else MarksAll(ps[1..], f, Sub(ps[0], f, text), Marks(ps[0], f, text, before))
  }

  lemma {:induction false} PassesReach(ps: seq<Pattern>, f: string -> string, text: string, before: seq<Mark>, p: Pattern)
    requires |before| == |text| && Writes(f) && (p in ps || Reached(p, text, before))
    ensures Reached(p, SubAll(ps, f, text), MarksAll(ps, f, text, before))
    decreases |ps|
  {
    if ps != [] {
      if p == ps[0] || Reached(p, text, before) {
        PassReaches(ps[0], f, text, before, p);
      } else {
        assert p in ps[1..];
      }
      PassesReach(ps[1..], f, Sub(ps[0], f, text), Marks(ps[0], f, text, before), p);
    }
  }

  /** Unmarked characters that follow each other in the result follow each other in the text. */
  lemma {:induction false} UnmarkedIsTheText(ps: seq<Pattern>, f: string -> string, text: string, before: seq<Mark>, a: nat, b: nat)
    returns (c: nat)
    requires |before| == |text| && Writes(f) && a < b <= |SubAll(ps, f, text)|
    requires Unmarked(MarksAll(ps, f, text, before), a, b)
    ensures c + (b - a) <= |text| && text[c..c + (b - a)] == SubAll(ps, f, text)[a..b] && Unmarked(before, c, c + (b - a))
    ensures (a == 0 ==> c == 0) && (b == |SubAll(ps, f, text)| ==> c + (b - a) == |text|)
    decreases |ps|
  {
    if ps == [] {
      c := a;
    } else {
      var mid, marks := Sub(ps[0], f, text), Marks(ps[0], f, text, before);
      var d := UnmarkedIsTheText(ps[1..], f, mid, marks, a, b);
      c := UnwrittenIsCopied(ps[0], f, text, before, 0, d, d + (b - a));
    }
  }

  lemma {:induction false} SubAllInTwo(ps: seq<Pattern>, f: string -> string, text: string, i: nat)
    requires i <= |ps|
    ensures SubAll(ps, f, text) == SubAll(ps[i..], f, SubAll(ps[..i], f, text))
  {
    if i == 0 {
      assert ps[0..] == ps && ps[..0] == [];
    } else {
      SubAllInTwo(ps[1..], f, Sub(ps[0], f, text), i - 1);
      assert ps[1..][i - 1..] == ps[i..] && ps[1..][..i - 1] == ps[..i][1..];
    }
  }

  function NoMarks(n: nat): (marks: seq<Mark>)
    ensures |marks| == n && forall k :: 0 <= k < n ==> marks[k].None?
  {
    seq(n, _ => None)
  }

  /** Which characters of a masked text pass `i` and the passes after it wrote. */
  ghost function WrittenSince(m: Masker, f: string -> string, text: string, i: nat): (marks: seq<Mark>)
    requires m.keep == [] && i <= |Passes(m)|
    ensures |marks| == |MaskedWith(m, f, text)|
  {
    var mid := SubAll(Passes(m)[..i], f, text);
    SubAllInTwo(Passes(m), f, text, i);
    MarksAll(Passes(m)[i..], f, mid, NoMarks(|mid|))
  }

  /**
    * How far masking reaches, with no keep-list and no empty replacement: wherever a name of
    * any pass still stands in a masked text with its guards met, one of its characters, or of
    * those its pattern looks at beside it, was written by its own pass or by a later one.
    */
  lemma MaskingReaches(m: Masker, f: string -> string, text: string, i: nat, n: string, j: nat)
    requires m.keep == [] && Writes(f) && i < |Passes(m)| && n in Passes(m)[i].names && n != ""
    requires j <= |MaskedWith(m, f, text)| && Fires(Passes(m)[i], n, MaskedWith(m, f, text), j)
    ensures !Untouched(Passes(m)[i], WrittenSince(m, f, text, i), j, n)
  {
    var ps, p := Passes(m), Passes(m)[i];
    var mid := SubAll(ps[..i], f, text);
    assert p == ps[i..][0];
    SubAllInTwo(ps, f, text, i);
    PassesReach(ps[i..], f, mid, NoMarks(|mid|), p);
  }

  /** And what masking did not write is the text. */
  lemma UnwrittenIsTheText(m: Masker, f: string -> string, text: string, a: nat, b: nat) returns (c: nat)
    requires m.keep == [] && Writes(f) && a < b <= |MaskedWith(m, f, text)| && Unmarked(WrittenSince(m, f, text, 0), a, b)
    ensures c + (b - a) <= |text| && text[c..c + (b - a)] == MaskedWith(m, f, text)[a..b]
  {
    var ps := Passes(m);
    assert ps[..0] == [] && ps[0..] == ps;
    c := UnmarkedIsTheText(ps, f, text, NoMarks(|text|), a, b);
  }
}
