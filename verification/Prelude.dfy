/** Small datatypes and sequence facts the other modules share. */
module Prelude {

  datatype Option<+T> = None | Some(value: T)

  type byte = b: int | 0 <= b < 256

  /** White space to `str.strip` and to `\s`, over ASCII: the four separators below the blank are white space too. */
  predicate IsSpace(c: char) {
    c == ' ' || '\t' <= c <= '\r' || 28 <= c as int <= 31
  }

  /** `x` written `n` times. */
  function Repeat<T>(x: T, n: nat): (s: seq<T>)
    ensures |s| == n
    ensures forall k :: 0 <= k < n ==> s[k] == x
  {
    seq(n, _ => x)
  }

  lemma ConcatAssociates<T>(a: seq<T>, b: seq<T>, c: seq<T>)
    ensures (a + b) + c == a + (b + c)
  {
  }

  lemma SliceOfSlice<T>(s: seq<T>, i: nat, n: nat, x: nat, y: nat)
    requires i + n <= |s| && x <= y <= n
    ensures s[i..i + n][x..y] == s[i + x..i + y]
  {
    var part, a, b := s[i..i + n], s[i..i + n][x..y], s[i + x..i + y];
    forall k | 0 <= k < y - x ensures a[k] == b[k] {
      assert a[k] == part[x + k] == s[i + x + k];
    }
  }

  lemma ConcatFour<T>(a: seq<T>, b: seq<T>, c: seq<T>, d: seq<T>)
    ensures (a + b) + c + d == a + (b + c + d)
  {
  }
}
