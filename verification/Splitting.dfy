/** `s.split(sep)` and `sep.join(parts)` for a one-character separator. */
module Splitting {
  import opened Prelude

  function Split(s: string, sep: char): (parts: seq<string>)
    ensures parts != []
    ensures forall l :: l in parts ==> sep !in l
  {
    if s == "" then [""]
    else
      var rest := Split(s[1..], sep);
      if s[0] == sep then [""] + rest else [[s[0]] + rest[0]] + rest[1..]
  }

  function Join(parts: seq<string>, sep: char): string {
    if parts == [] then "" else if |parts| == 1 then parts[0] else parts[0] + ([sep] + Join(parts[1..], sep))
  }

  lemma {:induction false} JoinOfSplit(s: string, sep: char)
    ensures Join(Split(s, sep), sep) == s
  {
    if s != "" {
      JoinOfSplit(s[1..], sep);
      var rest := Split(s[1..], sep);
      if s[0] == sep {
        assert ([""] + rest)[1..] == rest;
        assert "" + ([sep] + Join(rest, sep)) == s;
      } else {
        assert [rest[0]] + rest[1..] == rest;
      }
    }
  }

  lemma {:induction false} SplitOfJoin(parts: seq<string>, sep: char)
    requires parts != [] && forall l :: l in parts ==> sep !in l
    ensures Split(Join(parts, sep), sep) == parts
    decreases |parts|, |parts[0]|
  {
    var first, rest := parts[0], parts[1..];
    assert first in parts && parts == [first] + rest;
    if first != "" {
      assert first == [first[0]] + first[1..];
      var shorter := [first[1..]] + rest;
      assert shorter[1..] == rest;
      forall l | l in shorter ensures sep !in l {
        assert l in rest ==> l in parts;
      }
      SplitOfJoin(shorter, sep);
      assert Join(parts, sep)[1..] == Join(shorter, sep);
    } else if rest != [] {
      SplitOfJoin(rest, sep);
      assert Join(parts, sep) == [sep] + Join(rest, sep);
      assert Join(parts, sep)[1..] == Join(rest, sep);
    }
  }

  /** A last part that is empty leaves the separator before it at the end. */
  lemma {:induction false} JoinSnocEmpty(parts: seq<string>, sep: char)
    requires parts != []
    ensures Join(parts + [""], sep) == Join(parts, sep) + [sep]
  {
    if |parts| == 1 {
      assert (parts + [""])[1..] == [""];
      assert Join([""], sep) == "";
      assert [sep] + "" == [sep];
    } else {
      JoinSnocEmpty(parts[1..], sep);
      assert (parts + [""])[1..] == parts[1..] + [""];
      ConcatAssociates([sep], Join(parts[1..], sep), [sep]);
      ConcatAssociates(parts[0], [sep] + Join(parts[1..], sep), [sep]);
    }
  }

  lemma {:induction false} JoinEndsAsLast(parts: seq<string>, sep: char)
    requires parts != [] && parts[|parts| - 1] != ""
    ensures var s, l := Join(parts, sep), parts[|parts| - 1]; s != "" && s[|s| - 1] == l[|l| - 1]
  {
    if |parts| > 1 {
      JoinEndsAsLast(parts[1..], sep);
    }
  }

  lemma {:induction false} JoinConcat(a: seq<string>, b: seq<string>, sep: char)
    requires a != [] && b != []
    ensures Join(a + b, sep) == Join(a, sep) + ([sep] + Join(b, sep))
  {
    assert (a + b)[1..] == a[1..] + b;
    if |a| > 1 {
      JoinConcat(a[1..], b, sep);
      ConcatAssociates([sep], Join(a[1..], sep), [sep] + Join(b, sep));
      ConcatAssociates(a[0], [sep] + Join(a[1..], sep), [sep] + Join(b, sep));
    }
  }

  lemma {:induction false} SplitConcat(s: string, t: string, sep: char)
    ensures Split(s + ([sep] + t), sep) == Split(s, sep) + Split(t, sep)
  {
    if s == "" {
      assert "" + ([sep] + t) == [sep] + t && ([sep] + t)[1..] == t;
    } else {
      assert (s + ([sep] + t))[1..] == s[1..] + ([sep] + t);
      SplitConcat(s[1..], t, sep);
    }
  }
}
