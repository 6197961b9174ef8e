/** JSON values as the index rows hold them. */
module JsonValues {
  import opened Prelude

  /**
    * `Digest(of)` is the hexadecimal string that hashing `of` gives. It stands for
    * the value it was taken over, so equal digests are digests of equal values.
    */
  datatype Json =
    | Null
    | Bool(b: bool)
    | Int(n: int)
    | Str(s: string)
    | Digest(of: Json)
    | Arr(items: seq<Json>)
    | Obj(fields: map<string, Json>)

  type Fields = map<string, Json>

  /** `d.get(k)`: an absent key and an explicit null read alike. */
  function Get(o: Fields, k: string): Json {
    if k in o then o[k] else Null
  }

  predicate Truthy(j: Json) {
    match j
    case Null => false
    case Bool(b) => b
    case Int(n) => n != 0
    case Str(s) => s != ""
    case Digest(_) => true
    case Arr(items) => items != []
    case Obj(fields) => fields != map[]
  }

  /** `isinstance(v, str) and v.strip()`, with ASCII white space. */
  predicate SaysSomething(j: Json) {
    j.Digest? || (j.Str? && !IsBlank(j.s))
  }

  predicate IsBlank(s: string) {
    forall i :: 0 <= i < |s| ==> IsSpace(s[i])
  }

  /** `s.strip()`. */
  function Strip(s: string): (r: string)
    ensures r == "" <==> IsBlank(s)
    decreases |s|
  {
    if s == "" then ""
    else if IsSpace(s[0]) then Strip(s[1..])
    else if IsSpace(s[|s| - 1]) then Strip(s[..|s| - 1])
    else s
  }

  // ---------------------------------------------------------------- what these mean

  /** `o[k]` is the string `v`. */
  ghost predicate HasString(o: Fields, k: string, v: string) {
    k in o && o[k] == Str(v)
  }

  /** White space by its code points. */
  lemma SpaceIff(c: char)
    ensures IsSpace(c) <==> c as int in {9, 10, 11, 12, 13, 28, 29, 30, 31, 32}
  {
  }

  /** Everything but null, false, zero and what is empty. */
  lemma TruthyIff(j: Json)
    ensures Truthy(j) <==> j !in {Null, Bool(false), Int(0), Str(""), Arr([]), Obj(map[])}
  {
  }

  /** White space before `i` and from `j` on, and none at the ends of what is between. */
  ghost predicate TrimmedAt(s: string, i: nat, j: nat) {
    && i <= j <= |s| && (forall k :: 0 <= k < i || j <= k < |s| ==> IsSpace(s[k]))
    && (i < j ==> !IsSpace(s[i]) && !IsSpace(s[j - 1]))
  }

  lemma {:induction false} StripTrims(s: string) returns (i: nat, j: nat)
    ensures TrimmedAt(s, i, j) && Strip(s) == s[i..j]
    decreases |s|
  {
    if s == "" || (!IsSpace(s[0]) && !IsSpace(s[|s| - 1])) {
      i, j := 0, |s|;
    } else if IsSpace(s[0]) {
      i, j := StripTrims(s[1..]);
      assert forall k :: 0 < k < |s| ==> s[k] == s[1..][k - 1];
      i, j := i + 1, j + 1;
    } else {
      i, j := StripTrims(s[..|s| - 1]);
    }
  }

  /** Stripping leaves exactly what is between white space at the ends. */
  lemma StripIff(s: string, t: string)
    ensures Strip(s) == t <==> exists i: nat, j: nat :: TrimmedAt(s, i, j) && s[i..j] == t
  {
    var i, j := StripTrims(s);
    if x: nat, y: nat :| TrimmedAt(s, x, y) && s[x..y] == t {
      if x < y {
        assert !IsSpace(s[x]) && !IsSpace(s[y - 1]);
      }
    }
  }
}
