/** For one pass without guards, over names none of which holds another: exactly when it leaves a name. */
module MaskExact {
  import opened Prelude
  import opened Scanner
  import opened MaskTiers
  import opened KeepHoles
  import opened KeptSpans
  import opened IncidentMask
  import opened MaskReach
  import opened MaskClear

  predicate Unguarded(p: Pattern) {
    p.behind == NothingBehind && p.ahead == NothingAhead
  }

  /** `b` holds `a`. */
  predicate Holds(b: string, a: string) {
    exists i: nat :: i <= |b| && Stands(a, b, i)
  }

  /** Not empty, in lower case, and none inside another. */
  predicate Plain(names: seq<string>) {
    && (forall n :: n in names ==> n != "" && Lower(n) == n)
    && forall a, b :: a in names && b in names && Holds(b, a) ==> a == b
  }

  /** What of the name comes before a replacement laid over it at `d`. */
  function FrontOf(n: string, d: int): string
    requires d <= |n|
  {
    if d > 0 then n[..d] else ""
  }

  /** And what comes after it. */
  function RestOf(n: string, q: string, d: int): string
    requires -|q| < d
  {
    if d + |q| < |n| then n[d + |q|..] else ""
  }

  /** Copied before `s`, it begins no name. */
  predicate Quiet(names: seq<string>, c: string, s: string) {
    forall o, k: nat :: o in names && k < |c| ==> !Stands(o, c + s, k)
  }

  /** The replacement of `s` meets the name at `d`, and the pass gets as far as `s`. */
  ghost predicate MetQuietly(names: seq<string>, f: string -> string, n: string, s: string, d: int) {
    && n in names && Lower(s) in names && -|f(s)| < d < |n| && Agree(n, f(s), d) && Quiet(names, FrontOf(n, d), s)
  }

  // ---------------------------------------------------------------- a text that shows it

  lemma StandsWithin(o: string, whole: string, part: string, k: nat, at: nat)
    requires at <= k && k + |o| <= at + |part| && at + |part| <= |whole| && whole[at..at + |part|] == part
    ensures Stands(o, whole, k) <==> Stands(o, part, k - at)
  {
    SliceOfSlice(whole, at, |part|, k - at, k - at + |o|);
    assert whole[k..k + |o|] == part[k - at..k - at + |o|];
  }

  /** A name standing where another does, and reaching at least as far on both sides, is that one. */
  lemma OnlyItself(names: seq<string>, o: string, s: string, text: string, k: nat, x: nat)
    requires Plain(names) && o in names && Lower(s) in names && Stands(o, text, k)
    requires k <= x && x + |s| <= k + |o| && text[x..x + |s|] == s
    ensures o == Lower(s)
  {
    assert o[x - k..x - k + |s|] == Lower(s) by {
      forall i | 0 <= i < |s| ensures o[x - k + i] == Lower(s)[i] {
        assert Lower(text[k..k + |o|])[x - k + i] == LowerChar(text[x + i]);
        assert text[x..x + |s|][i] == text[x + i];
      }
    }
    LowerTwice(s);
    assert Lower(o[x - k..x - k + |s|]) == Lower(s);
    assert Stands(Lower(s), o, x - k);
  }

  lemma LowerTwice(s: string)
    ensures Lower(Lower(s)) == Lower(s)
  {
  }

  /** A name standing inside a text that is an end of another name is not there. */
  lemma NothingInAnEnd(names: seq<string>, o: string, n: string, e: nat, k: nat)
    requires Plain(names) && o in names && n in names && 0 < e <= |n| && k <= |n[e..]|
    ensures !Stands(o, n[e..], k)
  {
    if Stands(o, n[e..], k) {
      assert n[e..][k..k + |o|] == n[e + k..e + k + |o|];
      assert Stands(o, n, e + k);
    }
  }

  /** Only `s` is replaced in the text that the name and the match make. */
  lemma OneReplaced(p: Pattern, f: string -> string, n: string, s: string, d: int)
    requires Unguarded(p) && Plain(p.names) && MetQuietly(p.names, f, n, s, d)
    ensures Sub(p, f, FrontOf(n, d) + (s + RestOf(n, f(s), d))) == Spelled(n, f(s), d)
  {
    var c, t := FrontOf(n, d), RestOf(n, f(s), d);
    var text := c + (s + t);
    var x, y := |c|, |c| + |s|;
    assert text[x..y] == s && text[y..] == t && text[..x] == c && text[..y] == c + s;
    forall k: nat | k < x ensures Match(p, text, k).None? {
      NothingBefore(p, c, s, t, k);
    }
    ItIsMatched(p, n, s, text, x);
    forall k: nat | y <= k <= |text| ensures Match(p, text, k).None? {
      NothingAfter(p, f, n, s, d, k);
    }
    CopyStretch(p, f, text, 0, x);
    SilentFrom(p, f, text, y);
    assert text[0..x] == c;
  }

  lemma NotInTheFront(names: seq<string>, o: string, c: string, s: string, t: string, k: nat)
    requires Plain(names) && o in names && Lower(s) in names && k < |c| && Quiet(names, c, s)
    ensures !Stands(o, c + (s + t), k)
  {
    var text := c + (s + t);
    if Stands(o, text, k) {
      if k + |o| <= |c| + |s| {
        assert text[0..|c + s|] == c + s;
        StandsWithin(o, text, c + s, k, 0);
      } else {
        assert text[|c|..|c| + |s|] == s;
        OnlyItself(names, o, s, text, k, |c|);
        assert false;
      }
    }
  }

  lemma NothingBefore(p: Pattern, c: string, s: string, t: string, k: nat)
    requires Unguarded(p) && Plain(p.names) && Lower(s) in p.names && k < |c| && Quiet(p.names, c, s)
    ensures Match(p, c + (s + t), k).None?
  {
    forall o | o in p.names ensures !Stands(o, c + (s + t), k) {
      NotInTheFront(p.names, o, c, s, t, k);
    }
    MatchIsLongest(p, c + (s + t), k);
  }

  lemma ItIsMatched(p: Pattern, n: string, s: string, text: string, x: nat)
    requires Unguarded(p) && Plain(p.names) && Lower(s) in p.names && x + |s| <= |text| && text[x..x + |s|] == s
    ensures Match(p, text, x) == Some(Lower(s))
  {
    MatchIsLongest(p, text, x);
    assert Fires(p, Lower(s), text, x);
    var o := Match(p, text, x).value;
    OnlyItself(p.names, o, s, text, x, x);
  }

  lemma NotInTheEnd(names: seq<string>, o: string, n: string, q: string, d: int, text: string, y: nat, k: nat)
    requires Plain(names) && o in names && n in names && -|q| < d < |n| && y <= k <= |text|
    requires y + |RestOf(n, q, d)| == |text| && text[y..] == RestOf(n, q, d)
    ensures !Stands(o, text, k)
  {
    var t := RestOf(n, q, d);
    if Stands(o, text, k) {
      assert text[y..y + |t|] == t;
      StandsWithin(o, text, t, k, y);
      if t != "" {
        NothingInAnEnd(names, o, n, d + |q|, k - y);
      }
    }
  }

  lemma NothingAfter(p: Pattern, f: string -> string, n: string, s: string, d: int, k: nat)
    requires Unguarded(p) && Plain(p.names) && MetQuietly(p.names, f, n, s, d)
    requires var c, t := FrontOf(n, d), RestOf(n, f(s), d); |c| + |s| <= k <= |c| + |s| + |t|
    ensures Match(p, FrontOf(n, d) + (s + RestOf(n, f(s), d)), k).None?
  {
    var c, t := FrontOf(n, d), RestOf(n, f(s), d);
    var text, y := c + (s + t), |c| + |s|;
    assert text[y..] == t;
    forall o | o in p.names ensures !Stands(o, text, k) {
      NotInTheEnd(p.names, o, n, f(s), d, text, y, k);
    }
    MatchIsLongest(p, text, k);
  }

  lemma MetIsLeft(p: Pattern, f: string -> string, n: string, s: string, d: int) returns (text: string)
    requires Unguarded(p) && Plain(p.names) && MetQuietly(p.names, f, n, s, d)
    ensures Spot(d) <= |Sub(p, f, text)| && Fires(p, n, Sub(p, f, text), Spot(d))
  {
    text := FrontOf(n, d) + (s + RestOf(n, f(s), d));
    OneReplaced(p, f, n, s, d);
    SpelledShowsIt(p, n, f(s), d);
    assert MeetsAt(p, n, f(s), d);
  }

  // ---------------------------------------------------------------- whatever is left is met quietly

  /** No match begins from `c` up to `e`, and `q` replaces the one there. */
  ghost predicate FirstMatch(p: Pattern, f: string -> string, text: string, c: nat, e: nat, q: string) {
    && c <= e <= |text| && (forall k: nat :: c <= k < e ==> Match(p, text, k).None?)
    && Match(p, text, e).Some? && f(text[e..e + |Match(p, text, e).value|]) == q
  }

  lemma OneEarlier(p: Pattern, f: string -> string, text: string, i: nat, e: nat, q: string)
    requires i < |text| && Match(p, text, i).None? && FirstMatch(p, f, text, i + 1, e, q)
    ensures FirstMatch(p, f, text, i, e, q) && text[i..e] == [text[i]] + text[i + 1..e]
  {
  }

  /** In what the pass makes of the text from `i` on, `q` was put at `b`, and nothing from `a` up to there. */
  ghost predicate PutFrom(p: Pattern, f: string -> string, text: string, before: seq<Mark>, i: nat, a: nat, b: nat, q: string) {
    && i <= |text| == |before| && a <= b < |SubFrom(p, f, text, i)|
    && Unmarked(MarksFrom(p, f, text, before, i), a, b) && MarksFrom(p, f, text, before, i)[b] == Some(Put(p, q, 0))
  }

  lemma PutFromCopy(p: Pattern, f: string -> string, text: string, before: seq<Mark>, i: nat, a: nat, b: nat, q: string)
    requires PutFrom(p, f, text, before, i, a, b, q) && Match(p, text, i).None? && Unmarked(before, 0, |text|)
    ensures i < |text| && b > 0 && PutFrom(p, f, text, before, i + 1, if a == 0 then 0 else a - 1, b - 1, q)
    ensures a > 0 ==> SubFrom(p, f, text, i)[a..b] == SubFrom(p, f, text, i + 1)[a - 1..b - 1]
    ensures SubFrom(p, f, text, i)[0..b] == [text[i]] + SubFrom(p, f, text, i + 1)[0..b - 1]
  {
    if i == |text| {
      NothingAtTheEnd(p, f, text, before);
    } else {
      AtCopy(p, f, text, before, i);
      CopyIsUnmarked(before[i], MarksFrom(p, f, text, before, i + 1), a, b);
      if a > 0 {
        SliceBehind([text[i]], SubFrom(p, f, text, i + 1), a, b);
      }
    }
  }

  lemma PutFirst(p: Pattern, f: string -> string, text: string, before: seq<Mark>, i: nat, q: string, n: string, put: string)
    requires PutFrom(p, f, text, before, i, 0, 0, q) && Match(p, text, i) == Some(n) && n != "" && put != ""
    requires i + |n| <= |text| && put == f(text[i..i + |n|])
    ensures FirstMatch(p, f, text, i, i, q)
  {
    AtMatch(p, f, text, before, i, n, put);
    assert (PutMarks(p, put) + MarksFrom(p, f, text, before, i + |n|))[0] == PutMarks(p, put)[0];
  }

  lemma PutFromMatch(p: Pattern, f: string -> string, text: string, before: seq<Mark>, i: nat, a: nat, b: nat, q: string, n: string, put: string)
    requires PutFrom(p, f, text, before, i, a, b, q) && Match(p, text, i) == Some(n) && n != "" && put != "" && b > 0
    requires i + |n| <= |text| && put == f(text[i..i + |n|])
    ensures a >= |put| && PutFrom(p, f, text, before, i + |n|, a - |put|, b - |put|, q)
    ensures SubFrom(p, f, text, i)[a..b] == SubFrom(p, f, text, i + |n|)[a - |put|..b - |put|]
  {
    AtMatch(p, f, text, before, i, n, put);
    PutIsMarked(p, put, MarksFrom(p, f, text, before, i + |n|), a, b, q);
    SliceBehind(put, SubFrom(p, f, text, i + |n|), a, b);
  }

  lemma SliceBehind(head: string, rest: string, a: nat, b: nat)
    requires |head| <= a <= b <= |head| + |rest|
    ensures (head + rest)[a..b] == rest[a - |head|..b - |head|]
  {
  }

  /** What is copied just before a replacement was copied from just before its match, and begins no match. */
  lemma {:induction false} CopiedUpToPut(p: Pattern, f: string -> string, text: string, before: seq<Mark>, i: nat, a: nat, b: nat, q: string)
    returns (c: nat, e: nat)
    requires PutFrom(p, f, text, before, i, a, b, q) && Writes(f) && "" !in p.names && Unmarked(before, 0, |text|)
    ensures i <= c && (a == 0 ==> c == i) && FirstMatch(p, f, text, c, e, q) && text[c..e] == SubFrom(p, f, text, i)[a..b]
    decreases |text| - i
  {
    var r := Match(p, text, i);
    if r.Some? {
      MatchFires(p, text, i);
      c, e := PutAfterMatch(p, f, text, before, i, a, b, q, r.value, f(text[i..i + |r.value|]));
    } else {
      PutFromCopy(p, f, text, before, i, a, b, q);
      if a == 0 {
        c, e := CopiedUpToPut(p, f, text, before, i + 1, 0, b - 1, q);
        OneEarlier(p, f, text, i, e, q);
        c := i;
      } else {
        c, e := CopiedUpToPut(p, f, text, before, i + 1, a - 1, b - 1, q);
      }
    }
  }

  lemma {:induction false} PutAfterMatch(p: Pattern, f: string -> string, text: string, before: seq<Mark>, i: nat, a: nat, b: nat, q: string, n: string, put: string)
    returns (c: nat, e: nat)
    requires PutFrom(p, f, text, before, i, a, b, q) && Writes(f) && "" !in p.names && Unmarked(before, 0, |text|)
    requires Match(p, text, i) == Some(n) && n != "" && i + |n| <= |text| && put == f(text[i..i + |n|])
    ensures i <= c && (a == 0 ==> c == i) && FirstMatch(p, f, text, c, e, q) && text[c..e] == SubFrom(p, f, text, i)[a..b]
    decreases |text| - i, 0
  {
    if b == 0 {
      PutFirst(p, f, text, before, i, q, n, put);
      c, e := i, i;
    } else {
      PutFromMatch(p, f, text, before, i, a, b, q, n, put);
      c, e := CopiedUpToPut(p, f, text, before, i + |n|, a - |put|, b - |put|, q);
    }
  }

  lemma CopyIsUnmarked(mark: Mark, rest: seq<Mark>, a: nat, b: nat)
    requires a <= b < 1 + |rest| && mark.None? && Unmarked([mark] + rest, a, b) && ([mark] + rest)[b].Some?
    ensures b > 0 && rest[b - 1] == ([mark] + rest)[b] && Unmarked(rest, if a == 0 then 0 else a - 1, b - 1)
  {
    UnmarkedLater([mark], rest, a, b);
  }

  lemma PutIsMarked(p: Pattern, put: string, rest: seq<Mark>, a: nat, b: nat, q: string)
    requires a <= b && 0 < b < |put| + |rest| && put != ""
    requires Unmarked(PutMarks(p, put) + rest, a, b) && (PutMarks(p, put) + rest)[b] == Some(Put(p, q, 0))
    ensures a >= |put| && b >= |put| && rest[b - |put|] == Some(Put(p, q, 0)) && Unmarked(rest, a - |put|, b - |put|)
  {
    var marks := PutMarks(p, put) + rest;
    forall x | 0 <= x < |put| ensures marks[x] == Some(Put(p, put, x)) {
    }
    if a < b {
      assert marks[a].None?;
    }
    UnmarkedLater(PutMarks(p, put), rest, a, b);
  }

  /** The first character put in a stretch that has one. */
  lemma FirstMarked(marks: seq<Mark>, a: nat, b: nat) returns (x: nat)
    requires a <= b <= |marks| && !Unmarked(marks, a, b)
    ensures a <= x < b && marks[x].Some? && Unmarked(marks, a, x)
  {
    x := a;
    while marks[x].None?
      invariant a <= x < b && Unmarked(marks, a, x)
      invariant exists k :: x <= k < b && marks[k].Some?
      decreases b - x
    {
      x := x + 1;
    }
  }

  /** One pass over a text nothing was put into: everything put is whole, and is a replacement of a match. */
  lemma OnePassWhole(p: Pattern, f: string -> string, text: string)
    requires Writes(f) && "" !in p.names && Wide(p)
    ensures var marks := Marks(p, f, text, NoMarks(|text|));
            Whole(Start, Sub(p, f, text), marks) && WrittenBy([p], f, marks) && Reached(p, Sub(p, f, text), marks)
  {
    var before := NoMarks(|text|);
    forall x: nat | x < |text| ensures StepAt(Start, text, before, x) {
    }
    forall i: nat | i <= |text| && Match(p, text, i).Some?
      ensures Match(p, text, i).value != "" && Unmarked(before, i, i + |Match(p, text, i).value|)
    {
      MatchFires(p, text, i);
    }
    PassKeepsWhole(p, f, text, before, 0, Start);
    PassWrites([p], p, f, text, before, 0);
    PassReaches(p, f, text, before, p);
  }

  lemma StandingMatches(p: Pattern, o: string, text: string, i: nat)
    requires Unguarded(p) && o in p.names && Stands(o, text, i)
    ensures Match(p, text, i).Some?
  {
    MatchIsLongest(p, text, i);
    assert Fires(p, o, text, i);
  }

  lemma NothingStands(p: Pattern, text: string, c: nat, e: nat, part: string, head: string, s: string, o: string, k: nat)
    requires Unguarded(p) && o in p.names && k < |head| && c + |head| == e && c + |part| <= |text| && text[c..c + |part|] == part
    requires Lower(part) == Lower(head + s) && forall i: nat :: c <= i < e ==> Match(p, text, i).None?
    ensures !Stands(o, head + s, k)
  {
    if Stands(o, head + s, k) {
      SameInLower(o, part, head + s, k);
      StandsWithin(o, text, part, c + k, c);
      StandingMatches(p, o, text, c + k);
      assert false;
    }
  }

  lemma QuietInText(p: Pattern, f: string -> string, text: string, c: nat, e: nat, stretch: string, q: string, n: string, d: nat) returns (s: string)
    requires Unguarded(p) && Plain(p.names) && n in p.names && d <= |n| && Lower(stretch) == n[..d]
    requires FirstMatch(p, f, text, c, e, q) && text[c..e] == stretch
    ensures f(s) == q && Lower(s) in p.names && Quiet(p.names, n[..d], s)
  {
    var v := Match(p, text, e).value;
    MatchFires(p, text, e);
    s := text[e..e + |v|];
    var part := text[c..e + |v|];
    assert part == stretch + s;
    LowerConcat(stretch, s, n, d);
    forall o, k: nat | o in p.names && k < d ensures !Stands(o, n[..d] + s, k) {
      NothingStands(p, text, c, e, part, n[..d], s, o, k);
    }
  }

  lemma LowerConcat(stretch: string, s: string, n: string, d: nat)
    requires d <= |n| && Lower(stretch) == n[..d] && Lower(n) == n
    ensures Lower(stretch + s) == Lower(n[..d] + s)
  {
    forall k | 0 <= k < d ensures LowerChar(n[..d][k]) == LowerChar(stretch[k]) {
      assert n[..d][k] == n[k] && LowerChar(n[k]) == Lower(n)[k] == n[k] && Lower(stretch)[k] == n[..d][k];
    }
  }

  lemma SameInLower(o: string, a: string, b: string, k: nat)
    requires Lower(a) == Lower(b)
    ensures Stands(o, a, k) <==> Stands(o, b, k)
  {
    assert |a| == |b|;
    if k + |o| <= |a| {
      var x, y := a[k..k + |o|], b[k..k + |o|];
      forall i | 0 <= i < |o| ensures LowerChar(x[i]) == LowerChar(y[i]) {
        assert Lower(a)[k + i] == Lower(b)[k + i];
      }
      assert Lower(x) == Lower(y);
    }
  }

  /** The replacement begins at the name or before it: there is nothing to copy. */
  lemma MetFromTheStart(p: Pattern, f: string -> string, n: string, t: Put, d: int) returns (s: string)
    requires n in p.names && MeetsAt(p, n, t.text, d) && d <= 0 && IsWrite([p], f, t.pass, t.text)
    ensures MetQuietly(p.names, f, n, s, d)
  {
    s :| Lower(s) in t.pass.names && f(s) == t.text;
  }

  lemma LowerOfPart(n: string, out: string, j: nat, x: nat)
    requires j <= x <= j + |n| <= |out| && Stands(n, out, j)
    ensures Lower(out[j..x]) == n[..x - j]
  {
    assert out[j..j + |n|][..x - j] == out[j..x];
  }

  lemma FirstIsItsStart(out: string, marks: seq<Mark>, j: nat, x: nat)
    requires x < |out| == |marks| && Whole(Start, out, marks) && marks[x].Some? && Unmarked(marks, j, x)
    requires j <= x - marks[x].value.k
    ensures marks[x].value.k == 0
  {
    PutBefore(out, marks, x);
    assert marks[x - marks[x].value.k].Some?;
  }

  /** Where the first character put in a name belongs. */
  lemma FirstPutMeets(p: Pattern, f: string -> string, n: string, out: string, marks: seq<Mark>, j: nat, x: nat)
    requires x < |out| == |marks| && Whole(Start, out, marks) && WrittenBy([p], f, marks)
    requires j <= x < j + |n| <= |out| && Fires(p, n, out, j) && marks[x].Some? && Unmarked(marks, j, x)
    ensures var t := marks[x].value; var d := x - t.k - j;
            && MeetsAt(p, n, t.text, d) && IsWrite([p], f, t.pass, t.text) && t.pass == p && (d > 0 ==> t.k == 0)
  {
    MeetsWhereItTouches(p, n, out, marks, j, x);
    var t := marks[x].value;
    assert IsWrite([p], f, t.pass, t.text);
    if x - t.k - j > 0 {
      FirstIsItsStart(out, marks, j, x);
    }
  }

  lemma SomethingPut(p: Pattern, out: string, marks: seq<Mark>, n: string, j: nat)
    requires |marks| == |out| && Reached(p, out, marks) && Unguarded(p) && n in p.names && n != "" && j <= |out| && Fires(p, n, out, j)
    ensures !Unmarked(marks, j, j + |n|)
  {
    assert !Untouched(p, marks, j, n);
  }

  /** In a name that is left, the replacement its first character put belongs to. */
  lemma FirstPutIn(p: Pattern, f: string -> string, n: string, out: string, marks: seq<Mark>, j: nat) returns (x: nat, t: Put)
    requires |out| == |marks| && Whole(Start, out, marks) && WrittenBy([p], f, marks) && Reached(p, out, marks)
    requires Unguarded(p) && n in p.names && n != "" && j <= |out| && Fires(p, n, out, j)
    ensures j <= x < |marks| && marks[x] == Some(t) && Unmarked(marks, j, x)
    ensures var d := x - t.k - j;
            MeetsAt(p, n, t.text, d) && IsWrite([p], f, t.pass, t.text) && t.pass == p && (d > 0 ==> t.k == 0)
  {
    SomethingPut(p, out, marks, n, j);
    x := FirstMarked(marks, j, j + |n|);
    t := marks[x].value;
    FirstPutMeets(p, f, n, out, marks, j, x);
  }

  lemma FirstPutOf(p: Pattern, f: string -> string, text: string, n: string, j: nat) returns (x: nat, t: Put)
    requires Unguarded(p) && Plain(p.names) && Writes(f) && n in p.names
    requires j <= |Sub(p, f, text)| && Fires(p, n, Sub(p, f, text), j)
    ensures j <= x < |Sub(p, f, text)|
    ensures var marks := Marks(p, f, text, NoMarks(|text|)); marks[x] == Some(t) && Unmarked(marks, j, x)
    ensures var d := x - t.k - j;
            MeetsAt(p, n, t.text, d) && IsWrite([p], f, t.pass, t.text) && t.pass == p && (d > 0 ==> t.k == 0)
  {
    OnePassWhole(p, f, text);
    x, t := FirstPutIn(p, f, n, Sub(p, f, text), Marks(p, f, text, NoMarks(|text|)), j);
  }

  /** Where it begins within the name, the name was copied up to there, from just before its match. */
  lemma FirstPutFrom(p: Pattern, f: string -> string, text: string, n: string, j: nat) returns (t: Put, d: int, c: nat, e: nat)
    requires Unguarded(p) && Plain(p.names) && Writes(f) && n in p.names
    requires j <= |Sub(p, f, text)| && Fires(p, n, Sub(p, f, text), j)
    ensures MeetsAt(p, n, t.text, d) && IsWrite([p], f, t.pass, t.text)
    ensures d > 0 ==> d <= |n| && FirstMatch(p, f, text, c, e, t.text) && Lower(text[c..e]) == n[..d]
  {
    var x;
    x, t := FirstPutOf(p, f, text, n, j);
    d, c, e := x - t.k - j, 0, 0;
    if d > 0 {
      assert PutFrom(p, f, text, NoMarks(|text|), 0, j, x, t.text);
      c, e := CopiedUpToPut(p, f, text, NoMarks(|text|), 0, j, x, t.text);
      LowerOfPart(n, Sub(p, f, text), j, x);
    }
  }

  /** A name that is left meets a replacement quietly. */
  lemma LeftIsMet(p: Pattern, f: string -> string, text: string, n: string, j: nat) returns (s: string, d: int)
    requires Unguarded(p) && Plain(p.names) && Writes(f) && n in p.names
    requires j <= |Sub(p, f, text)| && Fires(p, n, Sub(p, f, text), j)
    ensures MetQuietly(p.names, f, n, s, d)
  {
    var t, c, e;
    t, d, c, e := FirstPutFrom(p, f, text, n, j);
    if d <= 0 {
      s := MetFromTheStart(p, f, n, t, d);
    } else {
      s := QuietInText(p, f, text, c, e, text[c..e], t.text, n, d);
    }
  }

  /** Exactly when a pass leaves a name: its names and replacements alone decide. */
  lemma PassLeavesIff(p: Pattern, f: string -> string)
    requires Unguarded(p) && Plain(p.names) && Writes(f)
    ensures (exists text, n, j: nat :: n in p.names && j <= |Sub(p, f, text)| && Fires(p, n, Sub(p, f, text), j))
       <==> (exists n, s, d :: MetQuietly(p.names, f, n, s, d))
  {
    if text, n, j: nat :| n in p.names && j <= |Sub(p, f, text)| && Fires(p, n, Sub(p, f, text), j) {
      var s, d := LeftIsMet(p, f, text, n, j);
    }
    if n, s, d :| MetQuietly(p.names, f, n, s, d) {
      var text := MetIsLeft(p, f, n, s, d);
    }
  }

  // ---------------------------------------------------------------- a map of such names

  /** Accounts that may be replaced anywhere, and nothing else. */
  predicate AllTierA(m: Masker) {
    forall n :: n in m.names ==> !IsDomain(n) && TierFor(m, n) == A
  }

  lemma {:induction false} OfAll(m: Masker, names: seq<string>, t: Tier)
    requires forall n :: n in names ==> !IsDomain(n) && TierFor(m, n) == A
    ensures Of(m, names, t) == (if t == A then names else []) && Domains(names) == []
  {
    if names != [] {
      assert names == [names[0]] + names[1..];
      OfAll(m, names[1..], t);
    }
  }

  lemma OnlyPass(m: Masker, f: string -> string, text: string)
    requires m.keep == [] && AllTierA(m)
    ensures MaskedWith(m, f, text) == Sub(Pattern(NothingBehind, m.names, NothingAhead), f, text)
  {
    OfAll(m, m.names, A);
    OfAll(m, m.names, B);
    OfAll(m, m.names, C);
    OfAll(m, m.names, D);
    assert Passes(m) == WidePasses(m) + [] == WidePasses(m);
    OnePassWorks(WidePasses(m), f, text, 1);
  }

  lemma MetInLower(m: Masker, n: string, s: string, d: int)
    requires MetQuietly(m.names, Pseudonymizer(m), n, s, d)
    ensures MetQuietly(m.names, Pseudonymizer(m), n, Lower(s), d)
  {
    LowerTwice(s);
    var c := FrontOf(n, d);
    assert Lower(c + s) == Lower(c + Lower(s));
    forall o, k: nat | o in m.names && k < |c| ensures !Stands(o, c + Lower(s), k) {
      SameInLower(o, c + s, c + Lower(s), k);
    }
  }

  /**
    * Exactly which maps of such accounts leave one, whatever the text: those in which a name,
    * laid over a pseudonym, agrees with it wherever they overlap, and what of the name comes
    * before it does not run on into the account replaced to begin a name.
    */
  lemma TierALeavesIff(m: Masker)
    requires m.keep == [] && AllTierA(m) && Plain(m.names) && forall n :: n in m.pseudonym ==> m.pseudonym[n] != ""
    ensures var f := Pseudonymizer(m);
            (exists text, n, j: nat :: n in m.names && j <= |MaskedWith(m, f, text)| && Stands(n, MaskedWith(m, f, text), j))
            <==> (exists n, o, d :: o in m.names && MetQuietly(m.names, f, n, o, d))
  {
    var p, f := Pattern(NothingBehind, m.names, NothingAhead), Pseudonymizer(m);
    PseudonymsWrite(m);
    if text, n, j: nat :| n in m.names && j <= |MaskedWith(m, f, text)| && Stands(n, MaskedWith(m, f, text), j) {
      OnlyPass(m, f, text);
      var s, d := LeftIsMet(p, f, text, n, j);
      MetInLower(m, n, s, d);
    }
    if n, o, d :| o in m.names && MetQuietly(m.names, f, n, o, d) {
      var text := MetIsLeft(p, f, n, o, d);
      OnlyPass(m, f, text);
    }
  }
}
