/**
  * Where the encoded regions of a file are: the leftmost, greedy matches of
  * `[A-Za-z0-9+/]{24,}={0,2}`, in order.
  */
module Base64Runs {
  import opened Prelude
  import opened Base64

  datatype Run = Run(start: nat, end: nat)

  const MIN_RUN: nat := 24

  function AlphabetEnd(s: seq<byte>, i: nat): (e: nat)
    requires i <= |s|
    ensures i <= e <= |s|
    ensures forall k :: i <= k < e ==> IsAlphabet(s[k])
    ensures e < |s| ==> !IsAlphabet(s[e])
    decreases |s| - i
  {
    if i < |s| && IsAlphabet(s[i]) then AlphabetEnd(s, i + 1) else i
  }

  /** At most two pads are part of a run. */
  function PadEnd(s: seq<byte>, i: nat): (e: nat)
    requires i <= |s|
    ensures i <= e <= |s| && e <= i + 2
  {
    if i < |s| && s[i] == PAD then if i + 1 < |s| && s[i + 1] == PAD then i + 2 else i + 1 else i
  }

  predicate Ordered(runs: seq<Run>, lo: nat, hi: nat) {
    if runs == [] then lo <= hi
    else lo <= runs[0].start < runs[0].end && Ordered(runs[1..], runs[0].end, hi)
  }

  function RunsFrom(s: seq<byte>, i: nat): (runs: seq<Run>)
    requires i <= |s|
    ensures Ordered(runs, i, |s|)
    decreases |s| - i
  {
    if i == |s| then []
    else
      var e := AlphabetEnd(s, i);
      if e - i < MIN_RUN then RunsFrom(s, i + 1)
      else [Run(i, PadEnd(s, e))] + RunsFrom(s, PadEnd(s, e))
  }

  function Runs(s: seq<byte>): (runs: seq<Run>)
    ensures Ordered(runs, 0, |s|)
  {
    RunsFrom(s, 0)
  }

  lemma {:induction false} OrderedIsBounded(runs: seq<Run>, lo: nat, hi: nat)
    requires Ordered(runs, lo, hi)
    ensures lo <= hi
    decreases |runs|
  {
    if runs != [] {
      OrderedIsBounded(runs[1..], runs[0].end, hi);
    }
  }

  /** Run `k` lies after every earlier one and inside the file. */
  lemma {:induction false} OrderedAt(runs: seq<Run>, lo: nat, hi: nat, k: nat)
    requires Ordered(runs, lo, hi) && k < |runs|
    ensures lo <= runs[k].start < runs[k].end <= hi
    ensures Ordered(runs[k + 1..], runs[k].end, hi)
    ensures k > 0 ==> runs[k - 1].end <= runs[k].start
    decreases k
  {
    if k == 0 {
      OrderedIsBounded(runs[1..], runs[0].end, hi);
    } else {
      OrderedAt(runs[1..], runs[0].end, hi, k - 1);
      assert runs[1..][k..] == runs[k + 1..];
    }
  }

  lemma DisjointRuns(runs: seq<Run>, hi: nat, k: nat, l: nat)
    requires Ordered(runs, 0, hi) && k < l < |runs|
    ensures runs[k].end <= runs[l].start
  {
    OrderedAt(runs, 0, hi, k);
    OrderedAt(runs[k + 1..], runs[k].end, hi, l - k - 1);
  }

  // ---------------------------------------------------------------- maximality

  /** What the scan takes for a run. */
  predicate Scanned(s: seq<byte>, r: Run) {
    && r.start < |s|
    && AlphabetEnd(s, r.start) - r.start >= MIN_RUN
    && (r.start == 0 || !IsAlphabet(s[r.start - 1]))
    && r.end == PadEnd(s, AlphabetEnd(s, r.start))
  }

  lemma {:induction false} RunsFromAreMaximal(s: seq<byte>, i: nat, r: Run)
    requires i <= |s|
    requires i == 0 || !IsAlphabet(s[i - 1]) || AlphabetEnd(s, i) - i < MIN_RUN
    ensures r in RunsFrom(s, i) <==> i <= r.start && Scanned(s, r)
    decreases |s| - i
  {
    if i < |s| {
      var e := AlphabetEnd(s, i);
      if e - i < MIN_RUN {
        RunsFromAreMaximal(s, i + 1, r);
      } else {
        var p := PadEnd(s, e);
        RunsFromAreMaximal(s, p, r);
        if i < r.start < p && Scanned(s, r) {
          if r.start <= e {
          }
          assert false;
        }
        assert RunsFrom(s, i) == [Run(i, p)] + RunsFrom(s, p);
      }
    }
  }

  /** A letter, a digit, `+` or `/`. */
  predicate InAlphabet(c: byte) {
    || ('A' as int <= c <= 'Z' as int) || ('a' as int <= c <= 'z' as int) || ('0' as int <= c <= '9' as int)
    || c == '+' as int || c == '/' as int
  }

  /** From `start` a stretch of alphabet bytes up to `e`, as long as it can be and of 24 at least, then all its `=` up to `end`, of two at most. */
  predicate IsMaximalRun(s: seq<byte>, start: nat, e: nat, end: nat) {
    && start + 24 <= e <= end <= |s| && end <= e + 2
    && (forall k :: start <= k < e ==> InAlphabet(s[k])) && (forall k :: e <= k < end ==> s[k] == '=' as int)
    && (start > 0 ==> !InAlphabet(s[start - 1])) && (e < |s| ==> !InAlphabet(s[e]))
    && (end < |s| && end < e + 2 ==> s[end] != '=' as int)
  }

  lemma {:induction false} AlphabetEndIs(s: seq<byte>, i: nat, e: nat)
    requires i <= e <= |s| && (forall k :: i <= k < e ==> IsAlphabet(s[k])) && (e < |s| ==> !IsAlphabet(s[e]))
    ensures AlphabetEnd(s, i) == e
    decreases e - i
  {
    if i < e {
      AlphabetEndIs(s, i + 1, e);
    }
  }

  lemma ScannedIsMaximal(s: seq<byte>, r: Run)
    ensures Scanned(s, r) <==> exists e: nat :: IsMaximalRun(s, r.start, e, r.end)
  {
    if Scanned(s, r) {
      assert IsMaximalRun(s, r.start, AlphabetEnd(s, r.start), r.end);
    }
    if e: nat :| IsMaximalRun(s, r.start, e, r.end) {
      AlphabetEndIs(s, r.start, e);
    }
  }

  /** The leftmost-first scan finds every maximal stretch and nothing else. */
  lemma RunsAreTheMaximalStretches(s: seq<byte>, r: Run)
    ensures r in Runs(s) <==> exists e: nat :: IsMaximalRun(s, r.start, e, r.end)
  {
    RunsFromAreMaximal(s, 0, r);
    ScannedIsMaximal(s, r);
  }

  /** An encoding of 24 alphabet characters or more that stands by itself is one run, pads and all. */
  lemma EncodingIsARun(left: seq<byte>, d: seq<byte>, right: seq<byte>)
    requires |d| >= 18
    requires left != [] ==> !InAlphabet(left[|left| - 1])
    requires right != [] ==> !InAlphabet(right[0]) && right[0] != '=' as int
    ensures var r := Run(|left|, |left| + |Encode(d)|);
            && r in Runs(left + (Encode(d) + right))
            && forall q :: q in Runs(left + (Encode(d) + right)) && q.start < r.end && r.start < q.end ==> q == r
  {
    var s, t := left + (Encode(d) + right), Encode(d);
    EncodeShape(d);
    var e, end := |left| + (|t| - PadCount(|d|)), |left| + |t|;
    EncodedAtLeast24(|d|);
    forall k | |left| <= k < end ensures s[k] == t[k - |left|] {
    }
    assert end < |s| ==> s[end] == right[0];
    assert IsMaximalRun(s, |left|, e, end);
    RunsAreTheMaximalStretches(s, Run(|left|, end));
    OnlyRunHere(s, Run(|left|, end));
  }

  lemma OnlyRunHere(s: seq<byte>, r: Run)
    requires r in Runs(s)
    ensures forall q :: q in Runs(s) && q.start < r.end && r.start < q.end ==> q == r
  {
    var k :| 0 <= k < |Runs(s)| && Runs(s)[k] == r;
    forall q | q in Runs(s) && q.start < r.end && r.start < q.end ensures q == r {
      var l :| 0 <= l < |Runs(s)| && Runs(s)[l] == q;
      if k < l {
        DisjointRuns(Runs(s), |s|, k, l);
      } else if l < k {
        DisjointRuns(Runs(s), |s|, l, k);
      }
    }
  }

  lemma EncodedAtLeast24(n: nat)
    ensures n >= 18 <==> EncodedLength(n) - PadCount(n) >= 24
  {
    if n >= 18 {
      assert (n + 2) / 3 >= 6;
    } else {
      assert (n + 2) / 3 <= 6;
    }
  }

  // ---------------------------------------------------------------- stability

  /** Same length, and at each position the same kind of byte: alphabet, pad or other. */
  ghost predicate SameShape(s: seq<byte>, t: seq<byte>) {
    && |s| == |t|
    && forall k :: 0 <= k < |s| ==> (IsAlphabet(s[k]) <==> IsAlphabet(t[k])) && (s[k] == PAD <==> t[k] == PAD)
  }

  lemma {:induction false} SameShapeSameEnd(s: seq<byte>, t: seq<byte>, i: nat)
    requires SameShape(s, t) && i <= |s|
    ensures AlphabetEnd(s, i) == AlphabetEnd(t, i) && PadEnd(s, i) == PadEnd(t, i)
    decreases |s| - i
  {
    if i < |s| && IsAlphabet(s[i]) {
      SameShapeSameEnd(s, t, i + 1);
    }
  }

  /** Only the shape decides where the runs are. */
  lemma {:induction false} SameShapeSameRuns(s: seq<byte>, t: seq<byte>, i: nat)
    requires SameShape(s, t) && i <= |s|
    ensures RunsFrom(s, i) == RunsFrom(t, i)
    decreases |s| - i
  {
    if i < |s| {
      SameShapeSameEnd(s, t, i);
      var e := AlphabetEnd(s, i);
      SameShapeSameEnd(s, t, e);
      if e - i < MIN_RUN {
        SameShapeSameRuns(s, t, i + 1);
      } else {
        SameShapeSameRuns(s, t, PadEnd(s, e));
      }
    }
  }
}
