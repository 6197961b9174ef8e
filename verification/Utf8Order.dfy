/**
  * The prefix range scan: SQLite compares TEXT byte by byte in UTF-8, and
  * `_prefix_upper` turns "starts with" into a range under that order.
  * A `char` is a Unicode scalar value, so a string here is one SQLite can hold.
  */
module Utf8Order {
  import opened Prelude

  /** Lexicographic order: `memcmp` on the common part, then the shorter first. */
  predicate Less(a: seq<int>, b: seq<int>) {
    b != [] && (a == [] || a[0] < b[0] || (a[0] == b[0] && Less(a[1..], b[1..])))
  }

  function Codes(s: string): (c: seq<int>)
    ensures |c| == |s|
  {
    seq(|s|, i requires 0 <= i < |s| => s[i] as int)
  }

  /** One scalar value in UTF-8, section 3 of RFC 3629. */
  function EncodeChar(c: char): (b: seq<byte>)
    ensures 1 <= |b| <= 4
  {
    var n := c as int;
    if n < 0x80 then [n]
    else if n < 0x800 then [0xC0 + n / 64, 0x80 + n % 64]
    else if n < 0x10000 then [0xE0 + n / 4096, 0x80 + n / 64 % 64, 0x80 + n % 64]
    else [0xF0 + n / 262144, 0x80 + n / 4096 % 64, 0x80 + n / 64 % 64, 0x80 + n % 64]
  }

  function Utf8(s: string): (b: seq<byte>) {
    if s == [] then [] else EncodeChar(s[0]) + Utf8(s[1..])
  }

  // ---------------------------------------------------------------- order facts

  lemma {:induction false} LessAfterCommon(p: seq<int>, a: seq<int>, b: seq<int>)
    ensures Less(p + a, p + b) <==> Less(a, b)
    decreases |p|
  {
    if p == [] {
      assert p + a == a && p + b == b;
    } else {
      assert (p + a)[1..] == p[1..] + a && (p + b)[1..] == p[1..] + b;
      LessAfterCommon(p[1..], a, b);
    }
  }

  lemma LessAtDifference(a: seq<int>, b: seq<int>, k: nat)
    requires k < |a| && k < |b| && a[..k] == b[..k] && a[k] < b[k]
    ensures Less(a, b) && !Less(b, a)
  {
    assert a == a[..k] + a[k..] && b == a[..k] + b[k..];
    LessAfterCommon(a[..k], a[k..], b[k..]);
    LessAfterCommon(a[..k], b[k..], a[k..]);
  }

  /** Two numbers whose base-64 digits agree above a place and differ there compare as those digits. */
  lemma DigitsDecide(m: nat, n: nat)
    requires m < n
    ensures m / 64 < n / 64 || (m / 64 == n / 64 && m % 64 < n % 64)
  {
  }

  lemma NestedDivision(n: nat)
    ensures n / 64 / 64 == n / 4096 && n / 4096 / 64 == n / 262144
  {
  }

  lemma ThreeBytesDiffer(c: char, d: char) returns (k: nat)
    requires c < d && |EncodeChar(c)| == 3 == |EncodeChar(d)|
    ensures k < 3 && EncodeChar(c)[..k] == EncodeChar(d)[..k] && EncodeChar(c)[k] < EncodeChar(d)[k]
  {
    var m, n := c as int, d as int;
    NestedDivision(m);
    NestedDivision(n);
    DigitsDecide(m, n);
    if m / 64 == n / 64 {
      k := 2;
    } else {
      DigitsDecide(m / 64, n / 64);
      k := if m / 4096 == n / 4096 then 1 else 0;
    }
  }

  lemma FourBytesDiffer(c: char, d: char) returns (k: nat)
    requires c < d && |EncodeChar(c)| == 4 == |EncodeChar(d)|
    ensures k < 4 && EncodeChar(c)[..k] == EncodeChar(d)[..k] && EncodeChar(c)[k] < EncodeChar(d)[k]
  {
    var m, n := c as int, d as int;
    NestedDivision(m);
    NestedDivision(n);
    DigitsDecide(m, n);
    if m / 64 == n / 64 {
      k := 3;
    } else {
      DigitsDecide(m / 64, n / 64);
      if m / 4096 == n / 4096 {
        k := 2;
      } else {
        DigitsDecide(m / 4096, n / 4096);
        k := if m / 262144 == n / 262144 then 1 else 0;
      }
    }
  }

  lemma TwoBytesDiffer(c: char, d: char) returns (k: nat)
    requires c < d && |EncodeChar(c)| == 2 == |EncodeChar(d)|
    ensures k < 2 && EncodeChar(c)[..k] == EncodeChar(d)[..k] && EncodeChar(c)[k] < EncodeChar(d)[k]
  {
    DigitsDecide(c as int, d as int);
    k := if c as int / 64 == d as int / 64 then 1 else 0;
  }

  /** Encodings of different scalar values differ before either ends, the smaller one below. */
  lemma EncodedCharsDiffer(c: char, d: char) returns (k: nat)
    requires c < d
    ensures k < |EncodeChar(c)| && k < |EncodeChar(d)|
    ensures EncodeChar(c)[..k] == EncodeChar(d)[..k] && EncodeChar(c)[k] < EncodeChar(d)[k]
  {
    if |EncodeChar(c)| == 2 == |EncodeChar(d)| {
      k := TwoBytesDiffer(c, d);
    } else if |EncodeChar(c)| == 3 == |EncodeChar(d)| {
      k := ThreeBytesDiffer(c, d);
    } else if |EncodeChar(c)| == 4 == |EncodeChar(d)| {
      k := FourBytesDiffer(c, d);
    } else {
      k := 0;
    }
  }

  lemma {:induction false} SmallerCharFirst(s: string, t: string)
    requires s != [] && t != [] && s[0] < t[0]
    ensures Less(Utf8(s), Utf8(t)) && !Less(Utf8(t), Utf8(s))
  {
    var k := EncodedCharsDiffer(s[0], t[0]);
    var a, b := EncodeChar(s[0]), EncodeChar(t[0]);
    assert Utf8(s)[..k] == a[..k] && Utf8(t)[..k] == b[..k];
    LessAtDifference(Utf8(s), Utf8(t), k);
  }

  /** UTF-8 byte order is code point order, section 1 of RFC 3629. */
  lemma {:induction false} ByteOrderIsCodePointOrder(s: string, t: string)
    ensures Less(Utf8(s), Utf8(t)) <==> Less(Codes(s), Codes(t))
    decreases |s|
  {
    if s != [] && t != [] {
      assert Codes(s)[1..] == Codes(s[1..]) && Codes(t)[1..] == Codes(t[1..]);
      if s[0] == t[0] {
        ByteOrderIsCodePointOrder(s[1..], t[1..]);
        LessAfterCommon(EncodeChar(s[0]), Utf8(s[1..]), Utf8(t[1..]));
      } else if s[0] < t[0] {
        SmallerCharFirst(s, t);
      } else {
        SmallerCharFirst(t, s);
      }
    }
  }

  // ---------------------------------------------------------------- the bound

  /** The exclusive upper bound of the scan, or none. */
  function PrefixUpper(prefix: string): (r: Option<string>) {
    if prefix == [] then None
    else
      var last := prefix[|prefix| - 1] as int + 1;
      var last' := if 0xD800 <= last <= 0xDFFF then 0xE000 else last;
      if last' > 0x10FFFF then None else Some(prefix[..|prefix| - 1] + [last' as char])
  }

  /** What the scan selects: `path >= prefix`, and `path < upper` when there is one. */
  predicate InRange(prefix: string, s: string) {
    && !Less(Utf8(s), Utf8(prefix))
    && (PrefixUpper(prefix).Some? ==> Less(Utf8(s), Utf8(PrefixUpper(prefix).value)))
  }

  /** Between the last character and its successor lies no scalar value. */
  lemma RangeOfOneChar(c: char, u: char, s: string)
    requires PrefixUpper([c]) == Some([u])
    ensures !Less(Codes(s), [c as int]) && Less(Codes(s), [u as int]) <==> s != [] && s[0] == c
  {
    NextChar(c, u);
    if s != [] {
      AgainstOneChar(s, c);
      AgainstOneChar(s, u);
      if s[0] > c {
        assert s[0] as int >= u as int;
      }
    }
  }

  lemma NextChar(c: char, u: char)
    requires PrefixUpper([c]) == Some([u])
    ensures u as int == if c as int + 1 == 0xD800 then 0xE000 else c as int + 1
  {
    assert [c][..0] + [u] == [u];
    assert [u][0] == u;
  }

  /** A non-empty string is below one character exactly when its first character is. */
  lemma AgainstOneChar(s: string, c: char)
    requires s != []
    ensures Less(Codes(s), [c as int]) <==> s[0] < c
  {
    assert Codes(s)[0] == s[0] as int;
    assert [c as int][1..] == [];
  }

  lemma {:induction false} RangeIsPrefix(prefix: string, upper: string, s: string)
    requires PrefixUpper(prefix) == Some(upper)
    ensures !Less(Codes(s), Codes(prefix)) && Less(Codes(s), Codes(upper)) <==> prefix <= s
    decreases |prefix|
  {
    assert |upper| == |prefix|;
    if |prefix| == 1 {
      assert prefix == [prefix[0]] && upper == [upper[0]];
      assert Codes(prefix) == [prefix[0] as int] && Codes(upper) == [upper[0] as int];
      RangeOfOneChar(prefix[0], upper[0], s);
    } else if s != [] {
      assert upper[0] == prefix[0];
      assert Codes(prefix)[1..] == Codes(prefix[1..]) && Codes(upper)[1..] == Codes(upper[1..]);
      assert Codes(s)[1..] == Codes(s[1..]);
      assert prefix[1..][|prefix| - 2] == prefix[|prefix| - 1];
      assert upper[1..] == prefix[1..][..|prefix| - 2] + [upper[|prefix| - 1]];
      RangeIsPrefix(prefix[1..], upper[1..], s[1..]);
      assert prefix <= s <==> prefix[0] == s[0] && prefix[1..] <= s[1..];
    }
  }

  lemma {:induction false} PrefixIsNotLess(prefix: string, s: string)
    requires prefix <= s
    ensures !Less(Codes(s), Codes(prefix))
    decreases |prefix|
  {
    if prefix != [] {
      assert Codes(s)[1..] == Codes(s[1..]) && Codes(prefix)[1..] == Codes(prefix[1..]);
      PrefixIsNotLess(prefix[1..], s[1..]);
    }
  }

  /** Where the bound exists, the range holds exactly the strings that start with the prefix. */
  lemma RangeScanIsPrefixTest(prefix: string, s: string)
    requires PrefixUpper(prefix).Some?
    ensures InRange(prefix, s) <==> prefix <= s
  {
    var upper := PrefixUpper(prefix).value;
    ByteOrderIsCodePointOrder(s, prefix);
    ByteOrderIsCodePointOrder(s, upper);
    RangeIsPrefix(prefix, upper, s);
  }

  /** No string that starts with the prefix is ever outside the range, bounded or not. */
  lemma RangeScanMissesNothing(prefix: string, s: string)
    requires prefix <= s
    ensures InRange(prefix, s)
  {
    if PrefixUpper(prefix).Some? {
      RangeScanIsPrefixTest(prefix, s);
    } else {
      ByteOrderIsCodePointOrder(s, prefix);
      PrefixIsNotLess(prefix, s);
    }
  }

  // ---------------------------------------------------------------- where it is exact

  const LAST: char := 0x10FFFF as char

  ghost predicate Exact(prefix: string) {
    forall s: string :: InRange(prefix, s) <==> prefix <= s
  }

  /** A prefix whose scan is exact: its last character is below U+10FFFF, or it consists of that character, or it is empty. */
  predicate Bounded(prefix: string) {
    (prefix != [] && prefix[|prefix| - 1] != LAST) || (forall i :: 0 <= i < |prefix| ==> prefix[i] == LAST)
  }

  /** There is an upper bound exactly where the last character is below U+10FFFF. */
  lemma UnboundedEndsInLast(prefix: string)
    requires prefix != []
    ensures PrefixUpper(prefix).None? <==> prefix[|prefix| - 1] == LAST
  {
    var c := prefix[|prefix| - 1];
    assert c as int <= 0x10FFFF;
    assert c as int == 0x10FFFF ==> c == LAST;
  }

  lemma {:induction false} NothingAboveLast(prefix: string, s: string)
    requires forall i :: 0 <= i < |prefix| ==> prefix[i] == LAST
    requires !Less(Codes(s), Codes(prefix))
    ensures prefix <= s
    decreases |prefix|
  {
    if prefix != [] {
      assert Codes(prefix)[0] == 0x10FFFF;
      assert s != [];
      assert Codes(s)[1..] == Codes(s[1..]) && Codes(prefix)[1..] == Codes(prefix[1..]);
      assert s[0] == LAST;
      NothingAboveLast(prefix[1..], s[1..]);
    }
  }

  /** A string above the prefix at an earlier character is in an unbounded range and does not start with it. */
  lemma UnboundedRangeHasMore(prefix: string, i: nat) returns (s: string)
    requires PrefixUpper(prefix).None?
    requires i < |prefix| && prefix[i] != LAST
    ensures InRange(prefix, s) && !(prefix <= s)
  {
    s := prefix[..i] + [LAST];
    ByteOrderIsCodePointOrder(s, prefix);
    assert Codes(prefix)[..i] == Codes(s)[..i];
    assert prefix[i] < LAST by {
      assert prefix[i] as int <= 0x10FFFF;
    }
    LessAtDifference(Codes(prefix), Codes(s), i);
    assert s[i] != prefix[i];
  }

  /** Exactly when the range scan means "starts with". */
  lemma ExactIffBounded(prefix: string)
    ensures Exact(prefix) <==> Bounded(prefix)
  {
    if prefix != [] {
      UnboundedEndsInLast(prefix);
    }
    if Bounded(prefix) {
      forall s: string ensures InRange(prefix, s) <==> prefix <= s {
        if PrefixUpper(prefix).Some? {
          RangeScanIsPrefixTest(prefix, s);
        } else {
          ByteOrderIsCodePointOrder(s, prefix);
          if InRange(prefix, s) {
            NothingAboveLast(prefix, s);
          }
          if prefix <= s {
            RangeScanMissesNothing(prefix, s);
          }
        }
      }
    } else {
      var i :| 0 <= i < |prefix| && prefix[i] != LAST;
      var s := UnboundedRangeHasMore(prefix, i);
    }
  }
}
