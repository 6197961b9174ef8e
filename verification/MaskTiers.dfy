/**
  * How widely each bare name may be substituted, measured against a vocabulary of
  * stock tokens, and what the four passes that follow from it do to that vocabulary.
  */
module MaskTiers {
  import opened Scanner

  datatype Tier = A | B | C | D

  function Rank(t: Tier): nat {
    match t
    case A => 0
    case B => 1
    case C => 2
    case D => 3
  }

  predicate StartsWith(t: string, n: string) {
    n <= t
  }

  predicate Contains(t: string, n: string) {
    exists i :: 0 <= i <= |t| && n <= t[i..]
  }

  predicate StartsOne(n: string, vocab: set<string>) {
    exists t :: t in vocab && t != n && StartsWith(t, n)
  }

  predicate InsideOne(n: string, vocab: set<string>) {
    exists t :: t in vocab && Contains(t, n)
  }

  function TierOf(n: string, vocab: set<string>): Tier {
    var low := Lower(n);
    if low in vocab || |low| < 3 then D
    else if StartsOne(low, vocab) then C
    else if InsideOne(low, vocab) then B
    else if |low| >= 6 then A
    else B
  }

  method Tiers(names: seq<string>, vocab: set<string>) returns (out: map<string, Tier>)
    ensures out.Keys == set n | n in names
    ensures forall n :: n in names ==> out[n] == TierOf(n, vocab)
  {
    out := map[];
    for k := 0 to |names|
      invariant out.Keys == set n | n in names[..k]
      invariant forall n :: n in names[..k] ==> out[n] == TierOf(n, vocab)
    {
      var n := names[k];
      var low := Lower(n);
      assert names[..k + 1] == names[..k] + [n];
      if low in vocab || |low| < 3 {
        out := out[n := D];
      } else if exists t :: t in vocab && t != low && StartsWith(t, low) {
        out := out[n := C];
      } else if exists t :: t in vocab && Contains(t, low) {
        out := out[n := B];
      } else {
        out := out[n := if |low| >= 6 then A else B];
      }
    }
    assert names[..|names|] == names;
  }

  // ---------------------------------------------------------------- pass order

  lemma PrefixInside(t: string, n: string, m: string)
    requires n <= m && Contains(t, m)
    ensures Contains(t, n)
  {
    var i :| 0 <= i <= |t| && m <= t[i..];
    assert n <= t[i..] by {
      assert t[i..][..|n|] == m[..|n|];
    }
  }

  /** A proper prefix is put in an earlier pass than the name it begins in one case only, and that exactly. */
  lemma PrefixRank(n: string, m: string, vocab: set<string>)
    requires Lower(n) == n && Lower(m) == m && n < m
    ensures Rank(TierOf(n, vocab)) < Rank(TierOf(m, vocab)) <==> m in vocab && n !in vocab && |n| >= 3
  {
    if StartsOne(m, vocab) {
      var t :| t in vocab && t != m && StartsWith(t, m);
      assert t != n;
    }
    if m in vocab {
      assert StartsWith(m, n);
    }
    if InsideOne(m, vocab) {
      var t :| t in vocab && Contains(t, m);
      PrefixInside(t, n, m);
    }
  }
}
