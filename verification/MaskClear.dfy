/** When masking leaves no name: none can be laid over a pseudonym, and none is let in by one beside it. */
module MaskClear {
  import opened Prelude
  import opened Scanner
  import opened MaskTiers
  import opened KeptSpans
  import opened IncidentMask
  import opened MaskReach

  // ---------------------------------------------------------------- names against pseudonyms

  /** `q`, laid over the name with its first character at `d`, agrees with it wherever they overlap. */
  predicate Agree(n: string, q: string, d: int) {
    forall k :: 0 <= k < |n| && 0 <= k - d < |q| ==> n[k] == LowerChar(q[k - d])
  }

  /** Laid there, `q` reaches past the name on a side the pattern guards, with a character the guard refuses. */
  predicate Refused(p: Pattern, n: string, q: string, d: int) {
    || (p.behind.NoAlnumBehind? && -|q| < d < 0 && IsAlnum(q[-d - 1]))
    || (p.ahead.NoLetterAhead? && 0 <= |n| - d < |q| && IsLetter(q[|n| - d]))
  }

  predicate MeetsAt(p: Pattern, n: string, q: string, d: int) {
    -|q| < d < |n| && Agree(n, q, d) && !Refused(p, n, q, d)
  }

  /** Some text with `q` in it can show the pattern this name on characters of `q`. */
  predicate Meets(p: Pattern, n: string, q: string) {
    exists d :: -|q| < d < |n| && MeetsAt(p, n, q, d)
  }

  /** The pattern matches only after something that is not a letter or digit. */
  predicate AfterBreak(p: Pattern) {
    !p.behind.NothingBehind?
  }

  /** The pattern matches only before something that is not a letter. */
  predicate BeforeBreak(p: Pattern) {
    !p.ahead.NothingAhead?
  }

  /** What pass `r` writes, standing just before or just after the name, can satisfy a guard that the text refused. */
  predicate LetsIn(p: Pattern, n: string, r: Pattern, q: string) {
    n != "" && q != ""
    && ((p.behind.NoAlnumBehind? && !IsAlnum(q[|q| - 1]) && !(BeforeBreak(r) && IsLetter(n[0])))
        || (p.ahead.NoLetterAhead? && !IsLetter(q[0]) && !(AfterBreak(r) && IsAlnum(n[|n| - 1]))))
  }

  /** No name of any pass meets what any pass writes. */
  ghost predicate NothingMet(ps: seq<Pattern>, f: string -> string) {
    forall p, n, r, s :: p in ps && n in p.names && r in ps && Lower(s) in r.names ==> !Meets(p, n, f(s))
  }

  /** None is let in by what its own pass or a later one writes. */
  ghost predicate NothingLetIn(ps: seq<Pattern>, f: string -> string) {
    forall i, j, n, s :: 0 <= i <= j < |ps| && Wide(ps[i]) && n in ps[i].names && Lower(s) in ps[j].names ==>
      !LetsIn(ps[i], n, ps[j], f(s))
  }

  ghost predicate Clear(ps: seq<Pattern>, f: string -> string) {
    NothingMet(ps, f) && NothingLetIn(ps, f)
  }

  /** The shortest text with `q` laid over the name at `d`, and where the name would begin in it. */
  function Spelled(n: string, q: string, d: int): string
    requires -|q| < d < |n|
  {
    (if d > 0 then n[..d] else "") + (q + (if d + |q| < |n| then n[d + |q|..] else ""))
  }

  function Spot(d: int): nat {
    if d < 0 then -d else 0
  }

  /** That is what meeting is: a wide pattern finds the name in that text if and only if the name meets `q` there. */
  lemma SpelledShowsIt(p: Pattern, n: string, q: string, d: int)
    requires Wide(p) && Lower(n) == n && -|q| < d < |n|
    ensures Spot(d) + |n| <= |Spelled(n, q, d)|
    ensures Fires(p, n, Spelled(n, q, d), Spot(d)) <==> MeetsAt(p, n, q, d)
  {
    var text, at := Spelled(n, q, d), Spot(d);
    var part := text[at..at + |n|];
    forall k | 0 <= k < |n| ensures part[k] == if 0 <= k - d < |q| then q[k - d] else n[k] {
    }
    forall k | 0 <= k < |n| && !(0 <= k - d < |q|) ensures LowerChar(part[k]) == n[k] {
      assert Lower(n)[k] == n[k];
    }
    if Stands(n, text, at) {
      forall k | 0 <= k < |n| && 0 <= k - d < |q| ensures n[k] == LowerChar(q[k - d]) {
        assert Lower(part)[k] == LowerChar(part[k]);
      }
    }
  }

  // ---------------------------------------------------------------- whole pseudonyms

  /** What stands before a character: nothing, or a character and its mark. */
  datatype Side = Start | After(c: char, mark: Mark)

  /** Two characters that follow each other: what was put comes whole, and where its pass asked for a break there is one or more was put. */
  predicate Follow(c: char, a: Mark, d: char, b: Mark) {
    && (a.Some? && a.value.k + 1 < |a.value.text| ==> b == Some(a.value.(k := a.value.k + 1)))
    && (b.Some? && b.value.k > 0 ==> a == Some(b.value.(k := b.value.k - 1)))
    && (a.Some? && a.value.k + 1 == |a.value.text| && BeforeBreak(a.value.pass) ==> b.Some? || !IsLetter(d))
    && (b.Some? && b.value.k == 0 && AfterBreak(b.value.pass) ==> a.Some? || !IsAlnum(c))
  }

  predicate Next(left: Side, d: char, b: Mark) {
    && (b.Some? ==> b.value.k < |b.value.text| && b.value.text[b.value.k] == d)
    && match left
       case Start => b.Some? ==> b.value.k == 0
       case After(c, a) => Follow(c, a, d, b)
  }

  predicate Ends(left: Side) {
    left.After? && left.mark.Some? ==> left.mark.value.k + 1 == |left.mark.value.text|
  }

  function SideAt(left: Side, text: string, marks: seq<Mark>, x: nat): Side
    requires x <= |text| == |marks|
  {
    if x == 0 then left else After(text[x - 1], marks[x - 1])
  }

  predicate StepAt(left: Side, text: string, marks: seq<Mark>, x: nat)
    requires x < |text| == |marks|
  {
    Next(SideAt(left, text, marks, x), text[x], marks[x])
  }

  ghost predicate Steps(left: Side, text: string, marks: seq<Mark>)
    requires |text| == |marks|
  {
    forall x: nat :: x < |text| ==> StepAt(left, text, marks, x)
  }

  /** Everything put into the text is there whole. */
  ghost predicate Whole(left: Side, text: string, marks: seq<Mark>)
    requires |text| == |marks|
  {
    Steps(left, text, marks) && Ends(SideAt(left, text, marks, |text|))
  }

  lemma SideInConcat(left: Side, a: string, ma: seq<Mark>, b: string, mb: seq<Mark>, x: nat)
    requires |a| == |ma| && |b| == |mb| && x <= |a| + |b|
    ensures SideAt(left, a + b, ma + mb, x)
         == if x <= |a| then SideAt(left, a, ma, x) else SideAt(SideAt(left, a, ma, |a|), b, mb, x - |a|)
  {
  }

  lemma WholeConcat(left: Side, a: string, ma: seq<Mark>, b: string, mb: seq<Mark>)
    requires |a| == |ma| && |b| == |mb| && Steps(left, a, ma) && Whole(SideAt(left, a, ma, |a|), b, mb)
    ensures Whole(left, a + b, ma + mb)
  {
    var text, marks := a + b, ma + mb;
    forall x: nat | x < |text| ensures StepAt(left, text, marks, x) {
      StepInConcat(left, a, ma, b, mb, x);
    }
    SideInConcat(left, a, ma, b, mb, |text|);
  }

  lemma StepInConcat(left: Side, a: string, ma: seq<Mark>, b: string, mb: seq<Mark>, x: nat)
    requires |a| == |ma| && |b| == |mb| && Steps(left, a, ma) && Steps(SideAt(left, a, ma, |a|), b, mb) && x < |a| + |b|
    ensures StepAt(left, a + b, ma + mb, x)
  {
    var mid := SideAt(left, a, ma, |a|);
    SideInConcat(left, a, ma, b, mb, x);
    if x < |a| {
      assert StepAt(left, a, ma, x);
    } else {
      assert StepAt(mid, b, mb, x - |a|);
    }
  }

  // ---------------------------------------------------------------- a pass keeps them whole

  /** No match of the pass is empty or touches anything put. */
  ghost predicate MatchesMiss(q: Pattern, text: string, before: seq<Mark>)
    requires |text| == |before|
  {
    forall i: nat :: i <= |text| && Match(q, text, i).Some? ==>
      Match(q, text, i).value != "" && Unmarked(before, i, i + |Match(q, text, i).value|)
  }

  /** What stands before position `i` in the output: what did in the input, or the end of a replacement made there. */
  ghost predicate Reaches(q: Pattern, text: string, before: seq<Mark>, i: nat, left: Side)
    requires i <= |text| == |before|
  {
    || left == SideAt(Start, text, before, i)
    || (i > 0 && left.After? && left.mark.Some? && left.mark.value.pass == q
        && left.mark.value.k + 1 == |left.mark.value.text| && before[i - 1].None?
        && (BeforeBreak(q) ==> i == |text| || !IsLetter(text[i])))
  }

  lemma BreaksAround(q: Pattern, n: string, text: string, i: nat)
    requires i + |n| <= |text| && Fires(q, n, text, i)
    ensures AfterBreak(q) ==> i == 0 || !IsAlnum(text[i - 1])
    ensures BeforeBreak(q) ==> i + |n| == |text| || !IsLetter(text[i + |n|])
  {
    EndsBefore("/home/", text, i);
    EndsBefore("/", text, i);
    EndsBefore("_home_", text, i);
    EndsBefore("-", text, i);
    BeginsAt("_", text, i + |n|);
    BeginsAt("_public_html", text, i + |n|);
    BeginsAt(".conf", text, i + |n|);
  }

  lemma EndsBefore(mark: string, text: string, i: nat)
    requires mark != "" && i <= |text|
    ensures StandsBefore(mark, text, i) ==> i > 0 && LowerChar(text[i - 1]) == mark[|mark| - 1]
  {
    if StandsBefore(mark, text, i) {
      var j := i - |mark|;
      assert Lower(text[j..j + |mark|])[|mark| - 1] == LowerChar(text[i - 1]);
    }
  }

  lemma BeginsAt(mark: string, text: string, i: nat)
    requires mark != ""
    ensures Stands(mark, text, i) ==> i < |text| && LowerChar(text[i]) == mark[0]
  {
    if Stands(mark, text, i) {
      assert Lower(text[i..i + |mark|])[0] == LowerChar(text[i]);
    }
  }

  /** What a match puts into the output is whole, after whatever stands before it. */
  lemma PutFollows(q: Pattern, text: string, before: seq<Mark>, i: nat, left: Side, n: string, put: string)
    requires i + |n| <= |text| == |before| && n != "" && Fires(q, n, text, i) && put != ""
    requires Whole(Start, text, before) && Unmarked(before, i, i + |n|) && Reaches(q, text, before, i, left)
    ensures Steps(left, put, PutMarks(q, put))
    ensures Reaches(q, text, before, i + |n|, SideAt(left, put, PutMarks(q, put), |put|))
  {
    var marks := PutMarks(q, put);
    BreaksAround(q, n, text, i);
    FirstPut(q, text, before, i, left, put);
    forall x: nat | x < |put| ensures StepAt(left, put, marks, x) {
    }
    assert before[i + |n| - 1].None?;
  }

  /** The first character put: whatever stood before the match was complete, since the match itself is of the text. */
  lemma FirstPut(q: Pattern, text: string, before: seq<Mark>, i: nat, left: Side, put: string)
    requires i < |text| == |before| && put != "" && Whole(Start, text, before) && before[i].None? && Reaches(q, text, before, i, left)
    requires AfterBreak(q) ==> i == 0 || !IsAlnum(text[i - 1])
    ensures Next(left, put[0], Some(Put(q, put, 0)))
  {
    assert StepAt(Start, text, before, i);
  }

  /** The next character copied. */
  lemma CopyFollows(q: Pattern, text: string, before: seq<Mark>, i: nat, left: Side)
    requires i < |text| == |before| && Whole(Start, text, before) && Reaches(q, text, before, i, left)
    ensures Next(left, text[i], before[i])
    ensures Reaches(q, text, before, i + 1, After(text[i], before[i]))
  {
    assert StepAt(Start, text, before, i);
  }

  lemma MatchFires(q: Pattern, text: string, i: nat)
    requires i <= |text| && Match(q, text, i).Some?
    ensures Match(q, text, i).value in q.names && Fires(q, Match(q, text, i).value, text, i)
  {
    MatchIsLongest(q, text, i);
  }

  /** A match, and what a pass makes of the text there. */
  lemma AtMatch(q: Pattern, f: string -> string, text: string, before: seq<Mark>, i: nat, n: string, put: string)
    requires i + |n| <= |text| == |before| && n != "" && Match(q, text, i) == Some(n) && put == f(text[i..i + |n|])
    ensures SubFrom(q, f, text, i) == put + SubFrom(q, f, text, i + |n|)
    ensures MarksFrom(q, f, text, before, i) == PutMarks(q, put) + MarksFrom(q, f, text, before, i + |n|)
  {
  }

  lemma AtCopy(q: Pattern, f: string -> string, text: string, before: seq<Mark>, i: nat)
    requires i < |text| == |before| && Match(q, text, i).None?
    ensures SubFrom(q, f, text, i) == [text[i]] + SubFrom(q, f, text, i + 1)
    ensures MarksFrom(q, f, text, before, i) == [before[i]] + MarksFrom(q, f, text, before, i + 1)
  {
    assert SubFrom(q, f, text, i) == "" + ([text[i]] + SubFrom(q, f, text, i + 1));
    assert MarksFrom(q, f, text, before, i) == [] + ([before[i]] + MarksFrom(q, f, text, before, i + 1));
  }

  lemma WholeAtMatch(q: Pattern, f: string -> string, text: string, before: seq<Mark>, i: nat, left: Side, n: string, put: string)
    requires i + |n| <= |text| == |before| && n != "" && Match(q, text, i) == Some(n) && put == f(text[i..i + |n|])
    requires Steps(left, put, PutMarks(q, put))
    requires Whole(SideAt(left, put, PutMarks(q, put), |put|), SubFrom(q, f, text, i + |n|), MarksFrom(q, f, text, before, i + |n|))
    ensures Whole(left, SubFrom(q, f, text, i), MarksFrom(q, f, text, before, i))
  {
    WholeConcat(left, put, PutMarks(q, put), SubFrom(q, f, text, i + |n|), MarksFrom(q, f, text, before, i + |n|));
    AtMatch(q, f, text, before, i, n, put);
  }

  lemma WholeAtCopy(q: Pattern, f: string -> string, text: string, before: seq<Mark>, i: nat, left: Side)
    requires i < |text| == |before| && Match(q, text, i).None? && Next(left, text[i], before[i])
    requires Whole(After(text[i], before[i]), SubFrom(q, f, text, i + 1), MarksFrom(q, f, text, before, i + 1))
    ensures Whole(left, SubFrom(q, f, text, i), MarksFrom(q, f, text, before, i))
  {
    assert SideAt(left, [text[i]], [before[i]], 1) == After(text[i], before[i]);
    WholeConcat(left, [text[i]], [before[i]], SubFrom(q, f, text, i + 1), MarksFrom(q, f, text, before, i + 1));
    AtCopy(q, f, text, before, i);
  }

  lemma {:induction false} PassKeepsWhole(q: Pattern, f: string -> string, text: string, before: seq<Mark>, i: nat, left: Side)
    requires i <= |text| == |before| && Writes(f) && MatchesMiss(q, text, before)
    requires Whole(Start, text, before) && Reaches(q, text, before, i, left)
    ensures Whole(left, SubFrom(q, f, text, i), MarksFrom(q, f, text, before, i))
    decreases |text| - i
  {
    var r := Match(q, text, i);
    if r.Some? {
      var next := i + |r.value|;
      var put := f(text[i..next]);
      MatchFires(q, text, i);
      PutFollows(q, text, before, i, left, r.value, put);
      PassKeepsWhole(q, f, text, before, next, SideAt(left, put, PutMarks(q, put), |put|));
      WholeAtMatch(q, f, text, before, i, left, r.value, put);
    } else if i < |text| {
      CopyFollows(q, text, before, i, left);
      PassKeepsWhole(q, f, text, before, i + 1, After(text[i], before[i]));
      WholeAtCopy(q, f, text, before, i, left);
    } else {
      NothingAtTheEnd(q, f, text, before);
      EndIsWhole(q, text, before, left);
    }
  }

  lemma NothingAtTheEnd(q: Pattern, f: string -> string, text: string, before: seq<Mark>)
    requires |text| == |before| && Match(q, text, |text|).None?
    ensures SubFrom(q, f, text, |text|) == "" && MarksFrom(q, f, text, before, |text|) == []
  {
  }

  lemma EndIsWhole(q: Pattern, text: string, before: seq<Mark>, left: Side)
    requires |text| == |before| && Whole(Start, text, before) && Reaches(q, text, before, |text|, left)
    ensures Whole(left, "", [])
  {
  }

  // ---------------------------------------------------------------- a name on something put

  lemma {:induction false} PutBefore(text: string, marks: seq<Mark>, x: nat)
    requires x < |text| == |marks| && Whole(Start, text, marks) && marks[x].Some?
    ensures var t := marks[x].value; t.k <= x && forall y :: x - t.k <= y <= x ==> marks[y] == Some(t.(k := y - (x - t.k)))
    decreases x
  {
    assert StepAt(Start, text, marks, x);
    if marks[x].value.k > 0 {
      PutBefore(text, marks, x - 1);
    }
  }

  lemma {:induction false} PutBehind(text: string, marks: seq<Mark>, x: nat)
    requires x < |text| == |marks| && Whole(Start, text, marks) && marks[x].Some?
    ensures var t := marks[x].value;
            && t.k < |t.text| && x + (|t.text| - t.k) <= |text|
            && forall y :: x <= y < x + (|t.text| - t.k) ==> marks[y] == Some(t.(k := t.k + (y - x)))
    decreases |text| - x
  {
    assert StepAt(Start, text, marks, x);
    if marks[x].value.k + 1 < |marks[x].value.text| {
      assert x + 1 < |text|;
      assert StepAt(Start, text, marks, x + 1);
      PutBehind(text, marks, x + 1);
    }
  }

  /** All of it stands around one of its characters. */
  lemma PutAround(text: string, marks: seq<Mark>, x: nat)
    requires x < |text| == |marks| && Whole(Start, text, marks) && marks[x].Some?
    ensures var t := marks[x].value;
            && t.k <= x && t.k < |t.text| && x - t.k + |t.text| <= |text|
            && forall l :: 0 <= l < |t.text| ==> text[x - t.k + l] == t.text[l]
  {
    var t := marks[x].value;
    PutBefore(text, marks, x);
    PutBehind(text, marks, x);
    forall l | 0 <= l < |t.text| ensures text[x - t.k + l] == t.text[l] {
      var y := x - t.k + l;
      assert marks[y] == Some(t.(k := l));
      assert StepAt(Start, text, marks, y);
    }
  }

  lemma MeetsWhereItTouches(p: Pattern, n: string, text: string, marks: seq<Mark>, j: nat, x: nat)
    requires x < |text| == |marks| && Whole(Start, text, marks) && marks[x].Some?
    requires j <= x < j + |n| <= |text| && Fires(p, n, text, j)
    ensures MeetsAt(p, n, marks[x].value.text, x - marks[x].value.k - j)
  {
    var t := marks[x].value;
    PutAround(text, marks, x);
    var q, d := t.text, x - t.k - j;
    forall k | 0 <= k < |n| && 0 <= k - d < |q| ensures n[k] == LowerChar(q[k - d]) {
      assert Lower(text[j..j + |n|])[k] == LowerChar(text[j + k]);
      assert text[x - t.k + (k - d)] == q[k - d];
    }
    if -|q| < d < 0 {
      assert text[x - t.k + (-d - 1)] == q[-d - 1];
    }
    if 0 <= |n| - d < |q| {
      assert text[x - t.k + (|n| - d)] == q[|n| - d];
    }
  }

  /** A name that a pattern finds on a character put meets what was put. */
  lemma MeetsWhatItTouches(p: Pattern, n: string, text: string, marks: seq<Mark>, j: nat, x: nat)
    requires x < |text| == |marks| && Whole(Start, text, marks) && marks[x].Some?
    requires j <= x < j + |n| <= |text| && Fires(p, n, text, j)
    ensures Meets(p, n, marks[x].value.text)
  {
    MeetsWhereItTouches(p, n, text, marks, j, x);
  }

  // ---------------------------------------------------------------- all the passes

  /** What was put is what one of these passes writes for one of its names. */
  ghost predicate WrittenBy(ps: seq<Pattern>, f: string -> string, marks: seq<Mark>) {
    forall x :: 0 <= x < |marks| && marks[x].Some? ==> IsWrite(ps, f, marks[x].value.pass, marks[x].value.text)
  }

  ghost predicate IsWrite(ps: seq<Pattern>, f: string -> string, r: Pattern, q: string) {
    r in ps && exists s :: Lower(s) in r.names && f(s) == q
  }

  predicate Named(ps: seq<Pattern>) {
    forall p :: p in ps ==> "" !in p.names
  }

  lemma WrittenConcat(ps: seq<Pattern>, f: string -> string, a: seq<Mark>, b: seq<Mark>)
    requires WrittenBy(ps, f, a) && WrittenBy(ps, f, b)
    ensures WrittenBy(ps, f, a + b)
  {
    var marks := a + b;
    forall x | 0 <= x < |marks| && marks[x].Some? ensures IsWrite(ps, f, marks[x].value.pass, marks[x].value.text) {
      assert marks[x] == if x < |a| then a[x] else b[x - |a|];
    }
  }

  lemma PutIsWritten(ps: seq<Pattern>, q: Pattern, f: string -> string, s: string)
    requires q in ps && Lower(s) in q.names
    ensures WrittenBy(ps, f, PutMarks(q, f(s)))
  {
    assert IsWrite(ps, f, q, f(s));
  }

  lemma {:induction false} PassWrites(ps: seq<Pattern>, q: Pattern, f: string -> string, text: string, before: seq<Mark>, i: nat)
    requires i <= |text| == |before| && q in ps && Named(ps) && WrittenBy(ps, f, before)
    ensures WrittenBy(ps, f, MarksFrom(q, f, text, before, i))
    decreases |text| - i
  {
    var r := Match(q, text, i);
    if r.Some? {
      var next := i + |r.value|;
      MatchFires(q, text, i);
      PassWrites(ps, q, f, text, before, next);
      PutIsWritten(ps, q, f, text[i..next]);
      WrittenConcat(ps, f, PutMarks(q, f(text[i..next])), MarksFrom(q, f, text, before, next));
      AtMatch(q, f, text, before, i, r.value, f(text[i..next]));
    } else if i < |text| {
      PassWrites(ps, q, f, text, before, i + 1);
      WrittenConcat(ps, f, [before[i]], MarksFrom(q, f, text, before, i + 1));
      AtCopy(q, f, text, before, i);
    }
  }

  lemma ClearMatchesMiss(all: seq<Pattern>, f: string -> string, q: Pattern, text: string, before: seq<Mark>)
    requires |text| == |before| && Clear(all, f) && Named(all) && q in all && WrittenBy(all, f, before) && Whole(Start, text, before)
    ensures MatchesMiss(q, text, before)
  {
    forall i: nat | i <= |text| && Match(q, text, i).Some?
      ensures Match(q, text, i).value != "" && Unmarked(before, i, i + |Match(q, text, i).value|)
    {
      var n := Match(q, text, i).value;
      MatchIsLongest(q, text, i);
      forall x | i <= x < i + |n| && 0 <= x < |before| ensures before[x].None? {
        if before[x].Some? {
          MeetsWhatItTouches(q, n, text, before, i, x);
          NothingMeets(all, f, q, n, before[x].value.pass, before[x].value.text);
        }
      }
    }
  }

  lemma NothingMeets(all: seq<Pattern>, f: string -> string, p: Pattern, n: string, r: Pattern, q: string)
    requires Clear(all, f) && p in all && n in p.names && IsWrite(all, f, r, q)
    ensures !Meets(p, n, q)
  {
    var s :| Lower(s) in r.names && f(s) == q;
  }

  lemma WrittenByMore(ps: seq<Pattern>, all: seq<Pattern>, f: string -> string, marks: seq<Mark>)
    requires WrittenBy(ps, f, marks) && forall p :: p in ps ==> p in all
    ensures WrittenBy(all, f, marks)
  {
    forall x | 0 <= x < |marks| && marks[x].Some? ensures IsWrite(all, f, marks[x].value.pass, marks[x].value.text) {
      var s :| Lower(s) in marks[x].value.pass.names && f(s) == marks[x].value.text;
    }
  }

  /** Through the passes `ps` of `tail`, everything put stays whole. */
  lemma {:induction false} PassesKeepWhole(all: seq<Pattern>, tail: seq<Pattern>, ps: seq<Pattern>, f: string -> string, text: string, before: seq<Mark>)
    requires |text| == |before| && Clear(all, f) && Named(all) && Writes(f)
    requires (forall p :: p in tail ==> p in all) && forall p :: p in ps ==> p in tail
    requires Whole(Start, text, before) && WrittenBy(tail, f, before)
    ensures Whole(Start, SubAll(ps, f, text), MarksAll(ps, f, text, before))
    ensures WrittenBy(tail, f, MarksAll(ps, f, text, before))
    decreases |ps|
  {
    if ps != [] {
      WrittenByMore(tail, all, f, before);
      ClearMatchesMiss(all, f, ps[0], text, before);
      PassKeepsWhole(ps[0], f, text, before, 0, Start);
      PassWrites(tail, ps[0], f, text, before, 0);
      PassesKeepWhole(all, tail, ps[1..], f, Sub(ps[0], f, text), Marks(ps[0], f, text, before));
    }
  }

  // ---------------------------------------------------------------- no name is left

  lemma MarksOfMasked(m: Masker, f: string -> string, text: string, i: nat)
    requires m.keep == [] && i <= |Passes(m)| && Clear(Passes(m), f) && Named(Passes(m)) && Writes(f)
    ensures Whole(Start, MaskedWith(m, f, text), WrittenSince(m, f, text, i))
    ensures WrittenBy(Passes(m)[i..], f, WrittenSince(m, f, text, i))
  {
    var ps := Passes(m);
    var mid := SubAll(ps[..i], f, text);
    SubAllInTwo(ps, f, text, i);
    forall x: nat | x < |mid| ensures StepAt(Start, mid, NoMarks(|mid|), x) {
    }
    PassesKeepWhole(ps, ps[i..], ps[i..], f, mid, NoMarks(|mid|));
  }

  /** A character put just before the name lets it in. */
  lemma LetInFromBehind(p: Pattern, n: string, text: string, marks: seq<Mark>, j: nat)
    requires 0 < j && n != "" && j + |n| <= |text| == |marks| && Whole(Start, text, marks) && Fires(p, n, text, j)
    requires p.behind.NoAlnumBehind? && marks[j - 1].Some? && marks[j].None?
    ensures LetsIn(p, n, marks[j - 1].value.pass, marks[j - 1].value.text)
  {
    assert StepAt(Start, text, marks, j - 1) && StepAt(Start, text, marks, j);
    assert Lower(text[j..j + |n|])[0] == LowerChar(text[j]);
  }

  /** So does one put just behind it. */
  lemma LetInFromAhead(p: Pattern, n: string, text: string, marks: seq<Mark>, j: nat)
    requires n != "" && j + |n| < |text| == |marks| && Whole(Start, text, marks) && Fires(p, n, text, j)
    requires p.ahead.NoLetterAhead? && marks[j + |n|].Some? && marks[j + |n| - 1].None?
    ensures LetsIn(p, n, marks[j + |n|].value.pass, marks[j + |n|].value.text)
  {
    var e := j + |n|;
    assert StepAt(Start, text, marks, e);
    assert Lower(text[j..e])[|n| - 1] == LowerChar(text[e - 1]);
  }

  lemma NoneIsLetIn(m: Masker, f: string -> string, i: nat, n: string, r: Pattern, q: string)
    requires Clear(Passes(m), f) && i < 4 && n in Passes(m)[i].names && IsWrite(Passes(m)[i..], f, r, q)
    ensures !LetsIn(Passes(m)[i], n, r, q)
  {
    var ps := Passes(m);
    var s :| Lower(s) in r.names && f(s) == q;
    var k :| 0 <= k < |ps[i..]| && ps[i..][k] == r;
    assert ps[i + k] == r && Wide(ps[i]);
  }

  /** Nothing put can be among the characters a pattern looks at. */
  lemma NothingPutAround(tail: seq<Pattern>, f: string -> string, p: Pattern, n: string, text: string, marks: seq<Mark>, j: nat)
    requires |text| == |marks| && Whole(Start, text, marks) && WrittenBy(tail, f, marks)
    requires n != "" && j <= |text| && Fires(p, n, text, j) && Unmarked(marks, j, j + |n|)
    requires Wide(p) && forall r, q :: IsWrite(tail, f, r, q) ==> !LetsIn(p, n, r, q)
    ensures Untouched(p, marks, j, n)
  {
    if 0 < j && p.behind.NoAlnumBehind? && marks[j - 1].Some? {
      assert marks[j].None? && IsWrite(tail, f, marks[j - 1].value.pass, marks[j - 1].value.text);
      LetInFromBehind(p, n, text, marks, j);
    }
    var e := j + |n|;
    if e < |text| && p.ahead.NoLetterAhead? && marks[e].Some? {
      assert marks[e - 1].None? && IsWrite(tail, f, marks[e].value.pass, marks[e].value.text);
      LetInFromAhead(p, n, text, marks, j);
    }
  }

  lemma NoneAreLetIn(m: Masker, f: string -> string, i: nat, n: string)
    requires Clear(Passes(m), f) && i < 4 && n in Passes(m)[i].names
    ensures forall r, q :: IsWrite(Passes(m)[i..], f, r, q) ==> !LetsIn(Passes(m)[i], n, r, q)
  {
    forall r, q | IsWrite(Passes(m)[i..], f, r, q) ensures !LetsIn(Passes(m)[i], n, r, q) {
      NoneIsLetIn(m, f, i, n, r, q);
    }
  }

  /**
    * No name is left: where no name meets what masking writes and none is let in by it, there is
    * no keep-list and nothing is replaced by nothing, no text comes out with a domain, or an
    * account of the tiers A to C, standing in it with its guards met.
    */
  lemma NoNameIsLeft(m: Masker, f: string -> string, text: string, i: nat, n: string, j: nat)
    requires m.keep == [] && Clear(Passes(m), f) && Named(Passes(m)) && Writes(f)
    requires i < 4 && n in Passes(m)[i].names && j <= |MaskedWith(m, f, text)|
    ensures !Fires(Passes(m)[i], n, MaskedWith(m, f, text), j)
  {
    var ps := Passes(m);
    if Fires(ps[i], n, MaskedWith(m, f, text), j) {
      MaskingReaches(m, f, text, i, n, j);
      MarksOfMasked(m, f, text, i);
      NoneAreLetIn(m, f, i, n);
      NothingPutUnder(ps, ps[i..], f, ps[i], n, MaskedWith(m, f, text), WrittenSince(m, f, text, i), j);
      NothingPutAround(ps[i..], f, ps[i], n, MaskedWith(m, f, text), WrittenSince(m, f, text, i), j);
    }
  }

  lemma NothingPutUnder(all: seq<Pattern>, tail: seq<Pattern>, f: string -> string, p: Pattern, n: string, text: string, marks: seq<Mark>, j: nat)
    requires |text| == |marks| && Clear(all, f) && (forall r :: r in tail ==> r in all) && p in all && n in p.names
    requires Whole(Start, text, marks) && WrittenBy(tail, f, marks) && j <= |text| && Fires(p, n, text, j)
    ensures Unmarked(marks, j, j + |n|)
  {
    WrittenByMore(tail, all, f, marks);
    forall y | j <= y < j + |n| && 0 <= y < |marks| ensures marks[y].None? {
      if marks[y].Some? {
        MeetsWhatItTouches(p, n, text, marks, j, y);
        NothingMeets(all, f, p, n, marks[y].value.pass, marks[y].value.text);
      }
    }
  }

  // ---------------------------------------------------------------- read off the map

  /** What the map says that masking leaves no name: all names against all pseudonyms, pass by pass. */
  predicate ClearMap(m: Masker)
    requires forall n :: n in m.names ==> n in m.pseudonym
  {
    var ps := Passes(m);
    PassNames(m);
    && (forall i, j :: 0 <= i < |ps| && 0 <= j < |ps| ==>
          forall n, o :: n in ps[i].names && o in ps[j].names ==>
            && !Meets(ps[i], n, m.pseudonym[o])
            && (i < 4 && i <= j ==> !LetsIn(ps[i], n, ps[j], m.pseudonym[o])))
    && forall n :: n in m.names ==> n != "" && m.pseudonym[n] != ""
  }

  lemma {:induction false} PlaceNames(names: seq<string>, p: Pattern, n: string)
    requires p in AllPlaces(names) && n in p.names
    ensures n in names && !Wide(p)
  {
    var here, rest := Places(names[0]), AllPlaces(names[1..]);
    assert names == [names[0]] + names[1..] && AllPlaces(names) == here + rest;
    if p in here {
      PlaceIsNarrow(names[0], p);
    } else {
      PlaceNames(names[1..], p, n);
    }
  }

  lemma PlaceIsNarrow(n: string, p: Pattern)
    requires p in Places(n)
    ensures p.names == [n] && !Wide(p)
  {
  }

  /** Every pass is over names of the map. */
  lemma PassNames(m: Masker)
    ensures forall p, n :: p in Passes(m) && n in p.names ==> n in m.names
  {
    DomainsAreNames(m.names);
    forall p, n | p in Passes(m) && n in p.names ensures n in m.names {
      if p !in WidePasses(m) {
        PlaceNames(Of(m, m.names, D), p, n);
      }
    }
  }

  /** The wide ones are the first four. */
  lemma WideIsEarly(m: Masker, i: nat, n: string)
    requires i < |Passes(m)| && Wide(Passes(m)[i]) && n in Passes(m)[i].names
    ensures i < 4
  {
    if i >= 4 {
      var places := AllPlaces(Of(m, m.names, D));
      assert Passes(m)[i] == places[i - 4];
      PlaceNames(Of(m, m.names, D), places[i - 4], n);
    }
  }

  lemma MapSays(m: Masker, i: nat, j: nat, n: string, s: string)
    requires (forall n :: n in m.names ==> n in m.pseudonym) && ClearMap(m)
    requires i < |Passes(m)| && j < |Passes(m)| && n in Passes(m)[i].names && Lower(s) in Passes(m)[j].names
    ensures !Meets(Passes(m)[i], n, Pseudonym(m, s))
    ensures i < 4 && i <= j ==> !LetsIn(Passes(m)[i], n, Passes(m)[j], Pseudonym(m, s))
  {
    PassNames(m);
    assert Pseudonym(m, s) == m.pseudonym[Lower(s)];
  }

  lemma MapNothingMet(m: Masker)
    requires (forall n :: n in m.names ==> n in m.pseudonym) && ClearMap(m)
    ensures NothingMet(Passes(m), Pseudonymizer(m))
  {
    var ps, f := Passes(m), Pseudonymizer(m);
    forall p, n, r, s | p in ps && n in p.names && r in ps && Lower(s) in r.names ensures !Meets(p, n, f(s)) {
      var i :| 0 <= i < |ps| && ps[i] == p;
      var j :| 0 <= j < |ps| && ps[j] == r;
      MapSays(m, i, j, n, s);
    }
  }

  lemma MapNothingLetIn(m: Masker)
    requires (forall n :: n in m.names ==> n in m.pseudonym) && ClearMap(m)
    ensures NothingLetIn(Passes(m), Pseudonymizer(m))
  {
    var ps, f := Passes(m), Pseudonymizer(m);
    forall i, j, n, s | 0 <= i <= j < |ps| && Wide(ps[i]) && n in ps[i].names && Lower(s) in ps[j].names
      ensures !LetsIn(ps[i], n, ps[j], f(s))
    {
      WideIsEarly(m, i, n);
      MapSays(m, i, j, n, s);
    }
  }

  lemma ClearMapIsClear(m: Masker)
    requires (forall n :: n in m.names ==> n in m.pseudonym) && ClearMap(m)
    ensures Clear(Passes(m), Pseudonymizer(m)) && Named(Passes(m))
  {
    PassNames(m);
    MapNothingMet(m);
    MapNothingLetIn(m);
  }

  lemma PseudonymsWrite(m: Masker)
    requires forall n :: n in m.pseudonym ==> m.pseudonym[n] != ""
    ensures Writes(Pseudonymizer(m))
  {
  }

  /** The program's own masking: where the map says so, no text comes out with a wide pattern's name left in it. */
  lemma ClearMapLeavesNoName(m: Masker, text: string, i: nat, n: string, j: nat)
    requires m.keep == [] && m.pseudonym.Keys == (set k | k in m.names) && ClearMap(m) && !IsHex64(text)
    requires i < 4 && n in WidePasses(m)[i].names && j <= |Masked(m, text)|
    ensures !Fires(WidePasses(m)[i], n, Masked(m, text), j)
  {
    assert Passes(m)[i] == WidePasses(m)[i];
    ClearMapIsClear(m);
    if text == "" {
      assert n != "";
    } else {
      PseudonymsWrite(m);
      NoNameIsLeft(m, Pseudonymizer(m), text, i, n, j);
    }
  }

  /** With no name of tier D, masking a second time then changes nothing. */
  lemma ClearMapSettles(m: Masker, text: string)
    requires m.keep == [] && m.pseudonym.Keys == (set k | k in m.names) && ClearMap(m) && Of(m, m.names, D) == []
    ensures Masked(m, Masked(m, text)) == Masked(m, text)
  {
    var out := Masked(m, text);
    if !IsHex64(text) {
      assert Passes(m) == WidePasses(m) + [] == WidePasses(m);
      forall p, j: nat | p in Passes(m) && j <= |out| ensures Match(p, out, j).None? {
        var i :| 0 <= i < 4 && WidePasses(m)[i] == p;
        forall n | n in p.names ensures !Fires(p, n, out, j) {
          ClearMapLeavesNoName(m, text, i, n, j);
        }
        MatchIsLongest(p, out, j);
      }
      SilentPasses(Passes(m), Pseudonymizer(m), out);
    }
  }

  lemma {:induction false} SilentPasses(ps: seq<Pattern>, f: string -> string, text: string)
    requires forall p, j: nat :: p in ps && j <= |text| ==> Match(p, text, j).None?
    ensures SubAll(ps, f, text) == text
  {
    if ps != [] {
      assert Silent(ps[0], text, 0);
      SilentFrom(ps[0], f, text, 0);
      assert text[0..] == text;
      SilentPasses(ps[1..], f, text);
    }
  }

  /** Laid over one another in any way, name and pseudonym differ somewhere. */
  predicate Apart(n: string, q: string) {
    forall d :: -|q| < d < |n| ==> !Agree(n, q, d)
  }

  /**
    * For pseudonyms of the usual kind, the guards need no look: beginning with a letter and
    * ending with a letter or digit, they let nothing in.
    */
  lemma PlainPseudonymsClear(m: Masker)
    requires m.pseudonym.Keys == (set k | k in m.names) && "" !in m.names
    requires forall n, o :: n in m.names && o in m.names ==> Apart(n, m.pseudonym[o])
    requires forall o :: o in m.names ==>
      var q := m.pseudonym[o]; q != "" && IsLetter(q[0]) && IsAlnum(q[|q| - 1])
    ensures ClearMap(m)
  {
    PassNames(m);
    var ps := Passes(m);
    forall i, j, n, o | 0 <= i < |ps| && 0 <= j < |ps| && n in ps[i].names && o in ps[j].names
      ensures !Meets(ps[i], n, m.pseudonym[o]) && !LetsIn(ps[i], n, ps[j], m.pseudonym[o])
    {
      assert n in m.names && o in m.names;
      NotMetNotLetIn(ps[i], n, ps[j], m.pseudonym[o]);
    }
  }

  lemma NotMetNotLetIn(p: Pattern, n: string, r: Pattern, q: string)
    requires Apart(n, q) && q != "" && IsLetter(q[0]) && IsAlnum(q[|q| - 1])
    ensures !Meets(p, n, q) && !LetsIn(p, n, r, q)
  {
  }
}
