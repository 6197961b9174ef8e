/**
  * The length-preserving masker over sample text: what a mapped identifier is replaced
  * by, and what every such replacement keeps.
  *
  * A replacement is drawn from a hash of the lower-cased name, recased like the original.
  * It has the same length, its dots and public suffix where the original has them, and
  * nothing in it that could be taken for a hole of the keep-list.
  */
module ContentIdentifiers {
  import opened Prelude
  import opened Scanner
  import opened KeepHoles
  import opened IncidentMask
  import opened Splitting

  const MARKER := "mask"

  /** The two alphabets synthetic names are drawn from. */
  datatype Alphabet = LowerCase | LowerCaseAndDigits {
    function Size(): (n: nat)
      ensures n > 0
    {
      if LowerCase? then 26 else 36
    }

    function At(k: nat): (c: char)
      requires k < Size()
      ensures IsAlnum(c) && (LowerCase? ==> IsLetter(c))
    {
      if k < 26 then ('a' as int + k) as char else ('0' as int + k - 26) as char
    }
  }

  type Digest = s: seq<byte> | |s| == 32 witness Repeat(0, 32)

  /** A hash of a tag and a lower-cased name, a hash of a digest again, and the public suffixes of two labels. */
  datatype Hash = Hash(seed: (string, string) -> Digest, again: Digest -> Digest, multiSuffix: set<string>)

  // ---------------------------------------------------------------- synthetic names

  function Letters(hash: Hash, d: Digest, i: nat, alphabet: Alphabet, n: nat): (s: string)
    requires i <= 32
    ensures |s| == n && Alnum(s) && (alphabet.LowerCase? ==> forall k :: 0 <= k < n ==> IsLetter(s[k]))
    decreases n, if i == 32 then 1 else 0
  {
    if n == 0 then ""
    else if i == 32 then Letters(hash, hash.again(d), 0, alphabet, n)
    else [alphabet.At(d[i] % alphabet.Size())] + Letters(hash, d, i + 1, alphabet, n - 1)
  }

  /** With `out` drawn and the digest `d` used up to `i`, the rest completes `whole`. */
  ghost predicate Drawing(hash: Hash, d: Digest, i: nat, alphabet: Alphabet, n: nat, out: string, whole: string) {
    i <= 32 && |out| <= n && out + Letters(hash, d, i, alphabet, n - |out|) == whole
  }

  lemma OneLetter(hash: Hash, d: Digest, i: nat, alphabet: Alphabet, n: nat, out: string, whole: string)
    requires Drawing(hash, d, i, alphabet, n, out, whole) && i < 32 && |out| < n
    ensures Drawing(hash, d, i + 1, alphabet, n, out + [alphabet.At(d[i] % alphabet.Size())], whole)
  {
    ConcatAssociates(out, [alphabet.At(d[i] % alphabet.Size())], Letters(hash, d, i + 1, alphabet, n - |out| - 1));
  }

  /** Deterministic letters over the alphabet, re-hashing whenever the digest runs out. */
  method Deterministic(hash: Hash, seed: Digest, alphabet: Alphabet, n: nat) returns (out: string)
    ensures out == Letters(hash, seed, 0, alphabet, n)
  {
    out := "";
    var h, i := seed, 0;
    ghost var whole := Letters(hash, seed, 0, alphabet, n);
    while |out| < n
      invariant Drawing(hash, h, i, alphabet, n, out, whole)
    {
      if i >= |h| {
        h := hash.again(h);
        i := 0;
      }
      OneLetter(hash, h, i, alphabet, n, out, whole);
      out := out + [alphabet.At(h[i] % alphabet.Size())];
      i := i + 1;
    }
  }

  function Synthetic(hash: Hash, original: string, tag: string): (s: string)
    ensures |s| == |original|
  {
    var seed := hash.seed(tag, Lower(original));
    if |original| >= |MARKER| + 3 then MARKER + Letters(hash, seed, 0, LowerCaseAndDigits, |original| - |MARKER|)
    else Letters(hash, seed, 0, LowerCase, |original|)
  }

  predicate IsUpper(c: char) {
    'A' <= c <= 'Z'
  }

  function UpperChar(c: char): char {
    if 'a' <= c <= 'z' then (c as int - 32) as char else c
  }

  /** The replacement in the original's letter case. */
  function Like(original: string, replacement: string): (s: string)
    requires |replacement| == |original|
    ensures |s| == |original|
  {
    seq(|original|, i requires 0 <= i < |original| =>
      if IsUpper(original[i]) then UpperChar(replacement[i]) else replacement[i])
  }

  // ---------------------------------------------------------------- host names

  function SuffixLength(hash: Hash, labels: seq<string>): (n: nat)
    ensures n <= |labels|
  {
    var k := |labels|;
    if k >= 3 && Lower(Join(labels[k - 2..], '.')) in hash.multiSuffix then 2 else if k >= 2 then 1 else 0
  }

  function MaskLabels(hash: Hash, labels: seq<string>): (r: seq<string>)
    ensures |r| == |labels| && forall i :: 0 <= i < |r| ==> |r[i]| == |labels[i]|
  {
    if labels == [] then [] else [Like(labels[0], Synthetic(hash, labels[0], "dom"))] + MaskLabels(hash, labels[1..])
  }

  function MaskHostname(hash: Hash, host: string): string {
    var labels := Split(host, '.');
    var n := |labels| - SuffixLength(hash, labels);
    if n <= 0 then host else Join(MaskLabels(hash, labels[..n]) + labels[n..], '.')
  }

  function ReplaceIdentifier(hash: Hash, text: string): string {
    if IsDomain(text) then MaskHostname(hash, text) else Like(text, Synthetic(hash, text, "acct"))
  }

  function Replacer(hash: Hash): string -> string {
    s => ReplaceIdentifier(hash, s)
  }

  // ---------------------------------------------------------------- what the replacement keeps

  lemma LikeShape(original: string, replacement: string)
    requires |replacement| == |original| && Alnum(replacement) && (replacement != "" ==> IsLetter(replacement[0]))
    ensures var s := Like(original, replacement); Alnum(s) && (s != "" ==> IsLetter(s[0]))
  {
  }

  /** Same-length labels joined: same length, the dots at the same places. */
  lemma {:induction false} JoinSameLengths(a: seq<string>, b: seq<string>)
    requires |a| == |b| && (forall i :: 0 <= i < |a| ==> |a[i]| == |b[i]|)
    requires (forall l :: l in a ==> '.' !in l) && forall l :: l in b ==> '.' !in l
    ensures |Join(a, '.')| == |Join(b, '.')| && forall k :: 0 <= k < |Join(a, '.')| ==> (Join(a, '.')[k] == '.' <==> Join(b, '.')[k] == '.')
  {
    if a != [] {
      assert a[0] in a && b[0] in b;
      if |a| > 1 {
        JoinSameLengths(a[1..], b[1..]);
      }
    }
  }

  lemma {:induction false} MaskedLabelsShape(hash: Hash, labels: seq<string>)
    ensures forall l :: l in MaskLabels(hash, labels) ==> Alnum(l)
  {
    if labels != [] {
      LikeShape(labels[0], Synthetic(hash, labels[0], "dom"));
      MaskedLabelsShape(hash, labels[1..]);
    }
  }

  /** The labels a host name is masked to: as long as its own, the public suffix as it was. */
  function MaskedHost(hash: Hash, host: string): (r: seq<string>)
    requires SuffixLength(hash, Split(host, '.')) < |Split(host, '.')|
    ensures |r| == |Split(host, '.')| && forall i :: 0 <= i < |r| ==> |r[i]| == |Split(host, '.')[i]|
  {
    var labels := Split(host, '.');
    var n := |labels| - SuffixLength(hash, labels);
    MaskLabels(hash, labels[..n]) + labels[n..]
  }

  lemma MaskedHostDotless(hash: Hash, host: string)
    requires SuffixLength(hash, Split(host, '.')) < |Split(host, '.')|
    ensures forall l :: l in MaskedHost(hash, host) ==> '.' !in l
  {
    var labels := Split(host, '.');
    var n := |labels| - SuffixLength(hash, labels);
    MaskedLabelsShape(hash, labels[..n]);
    var masked, suffix := MaskLabels(hash, labels[..n]), labels[n..];
    forall l | l in masked ensures '.' !in l {
    }
    forall l | l in suffix ensures '.' !in l {
      assert l in labels;
    }
    assert MaskedHost(hash, host) == masked + suffix;
  }

  /** A host name keeps its length, its dots and its public suffix. */
  lemma HostnameKeepsShape(hash: Hash, host: string)
    ensures var out := MaskHostname(hash, host);
            && |out| == |host| && (forall k :: 0 <= k < |host| ==> (out[k] == '.' <==> host[k] == '.'))
            && |Split(out, '.')| == |Split(host, '.')|
            && var n := |Split(host, '.')| - SuffixLength(hash, Split(host, '.'));
            Split(out, '.')[n..] == Split(host, '.')[n..]
  {
    JoinOfSplit(host, '.');
    if SuffixLength(hash, Split(host, '.')) < |Split(host, '.')| {
      MaskedHostDotless(hash, host);
      JoinSameLengths(Split(host, '.'), MaskedHost(hash, host));
      SplitOfJoin(MaskedHost(hash, host), '.');
    }
  }

  lemma {:induction false} SplitNoNul(s: string)
    requires NoNul(s)
    ensures forall l :: l in Split(s, '.') ==> NoNul(l)
  {
    if s != "" {
      SplitNoNul(s[1..]);
      assert Split(s[1..], '.')[0] in Split(s[1..], '.');
    }
  }

  lemma {:induction false} JoinNoNul(labels: seq<string>)
    requires forall l :: l in labels ==> NoNul(l)
    ensures NoNul(Join(labels, '.'))
  {
    if labels != [] {
      assert labels[0] in labels;
      JoinNoNul(labels[1..]);
    }
  }

  lemma HostnameNoNul(hash: Hash, host: string)
    requires NoNul(host)
    ensures NoNul(MaskHostname(hash, host))
  {
    if SuffixLength(hash, Split(host, '.')) < |Split(host, '.')| {
      var labels := Split(host, '.');
      var n := |labels| - SuffixLength(hash, labels);
      SplitNoNul(host);
      MaskedLabelsShape(hash, labels[..n]);
      var masked, suffix := MaskLabels(hash, labels[..n]), labels[n..];
      forall l | l in masked ensures NoNul(l) {
        assert Alnum(l);
      }
      forall l | l in suffix ensures NoNul(l) {
        assert l in labels;
      }
      assert MaskedHost(hash, host) == masked + suffix;
      JoinNoNul(MaskedHost(hash, host));
    }
  }

  /** Whatever is replaced keeps its length, and no replacement can be taken for a hole. */
  lemma ReplacementIsHoleSafe(hash: Hash, text: string)
    ensures |ReplaceIdentifier(hash, text)| == |text|
    ensures NoNul(text) ==> NoNul(ReplaceIdentifier(hash, text))
    ensures !AllDigits(text) ==> !AllDigits(ReplaceIdentifier(hash, text))
  {
    if IsDomain(text) {
      HostnameKeepsShape(hash, text);
      if NoNul(text) {
        HostnameNoNul(hash, text);
      }
      var k :| 0 <= k < |text| && text[k] == '.';
      assert MaskHostname(hash, text)[k] == '.';
    } else {
      LikeShape(text, Synthetic(hash, text, "acct"));
    }
  }

  // ---------------------------------------------------------------- letter case

  lemma LowerConcat(a: string, b: string)
    ensures Lower(a + b) == Lower(a) + Lower(b)
  {
  }

  lemma {:induction false} LowerOfJoin(labels: seq<string>)
    ensures Lower(Join(labels, '.')) == Join(LowerAll(labels), '.')
  {
    if |labels| > 1 {
      LowerOfJoin(labels[1..]);
      assert LowerAll(labels)[1..] == LowerAll(labels[1..]);
      LowerConcat(['.'], Join(labels[1..], '.'));
      LowerConcat(labels[0], ['.'] + Join(labels[1..], '.'));
      assert Lower(['.']) == ['.'];
    }
  }

  lemma {:induction false} LowerOfSplit(s: string)
    ensures LowerAll(Split(s, '.')) == Split(Lower(s), '.')
  {
    if s != "" {
      LowerOfSplit(s[1..]);
      assert Lower(s)[1..] == Lower(s[1..]) && Lower(s)[0] == LowerChar(s[0]);
      var rest := Split(s[1..], '.');
      if s[0] == '.' {
        assert LowerAll([""] + rest) == [""] + LowerAll(rest);
      } else {
        LowerConcat([s[0]], rest[0]);
        assert Lower([s[0]]) == [LowerChar(s[0])];
        var first := [s[0]] + rest[0];
        assert Lower(first) == [LowerChar(s[0])] + Lower(rest[0]);
        assert LowerAll([first] + rest[1..]) == [Lower(first)] + LowerAll(rest)[1..];
      }
    }
  }

  lemma {:induction false} SameLabelsSameMask(hash: Hash, a: seq<string>, b: seq<string>)
    requires LowerAll(a) == LowerAll(b)
    ensures LowerAll(MaskLabels(hash, a)) == LowerAll(MaskLabels(hash, b))
  {
    assert |a| == |b|;
    if a != [] {
      assert LowerAll(a)[1..] == LowerAll(a[1..]) && LowerAll(b)[1..] == LowerAll(b[1..]);
      SameLabelsSameMask(hash, a[1..], b[1..]);
      assert Lower(a[0]) == LowerAll(a)[0] == LowerAll(b)[0] == Lower(b[0]);
      SameWordSameMask(hash, a[0], b[0], "dom");
      var x, y := MaskLabels(hash, a), MaskLabels(hash, b);
      assert x[1..] == MaskLabels(hash, a[1..]) && y[1..] == MaskLabels(hash, b[1..]);
      assert LowerAll(x) == [Lower(x[0])] + LowerAll(x[1..]) && LowerAll(y) == [Lower(y[0])] + LowerAll(y[1..]);
    }
  }

  lemma SameWordSameMask(hash: Hash, a: string, b: string, tag: string)
    requires Lower(a) == Lower(b)
    ensures Lower(Like(a, Synthetic(hash, a, tag))) == Lower(Like(b, Synthetic(hash, b, tag)))
  {
    assert |a| == |Lower(a)| == |Lower(b)| == |b|;
  }

  lemma SameMaskedHost(hash: Hash, x: seq<string>, y: seq<string>, n: nat)
    requires LowerAll(x) == LowerAll(y) && n <= |x| && n <= |y|
    ensures Lower(Join(MaskLabels(hash, x[..n]) + x[n..], '.')) == Lower(Join(MaskLabels(hash, y[..n]) + y[n..], '.'))
  {
    assert LowerAll(x[..n]) == LowerAll(x)[..n] && LowerAll(y[..n]) == LowerAll(y)[..n];
    SameLabelsSameMask(hash, x[..n], y[..n]);
    var p, q := MaskLabels(hash, x[..n]), MaskLabels(hash, y[..n]);
    LowerAllConcat(p, x[n..]);
    LowerAllConcat(q, y[n..]);
    assert LowerAll(x[n..]) == LowerAll(x)[n..] && LowerAll(y[n..]) == LowerAll(y)[n..];
    LowerOfJoin(p + x[n..]);
    LowerOfJoin(q + y[n..]);
  }

  lemma LowerAllConcat(a: seq<string>, b: seq<string>)
    ensures LowerAll(a + b) == LowerAll(a) + LowerAll(b)
  {
  }

  lemma SameHostSameMask(hash: Hash, a: string, b: string)
    requires Lower(a) == Lower(b)
    ensures Lower(MaskHostname(hash, a)) == Lower(MaskHostname(hash, b))
  {
    var x, y := Split(a, '.'), Split(b, '.');
    LowerOfSplit(a);
    LowerOfSplit(b);
    assert LowerAll(x) == LowerAll(y) && |LowerAll(x)| == |x| && |LowerAll(y)| == |y|;
    SameSuffix(hash, x, y);
    var n := |x| - SuffixLength(hash, x);
    if n > 0 {
      SameMaskedHost(hash, x, y, n);
    }
  }

  lemma SameSuffix(hash: Hash, x: seq<string>, y: seq<string>)
    requires LowerAll(x) == LowerAll(y)
    ensures SuffixLength(hash, x) == SuffixLength(hash, y)
  {
    var k := |x|;
    assert |y| == k;
    if k >= 3 {
      LowerOfJoin(x[k - 2..]);
      LowerOfJoin(y[k - 2..]);
      assert LowerAll(x[k - 2..]) == LowerAll(x)[k - 2..] && LowerAll(y[k - 2..]) == LowerAll(y)[k - 2..];
    }
  }

  /** One identifier in two letter cases, account or host name: replacements that differ only in letter case. */
  lemma SameNameSameReplacement(hash: Hash, a: string, b: string)
    requires Lower(a) == Lower(b)
    ensures Lower(ReplaceIdentifier(hash, a)) == Lower(ReplaceIdentifier(hash, b))
  {
    assert |a| == |Lower(a)| == |Lower(b)| == |b|;
    forall i | 0 <= i < |a| ensures a[i] == '.' <==> b[i] == '.' {
      assert LowerChar(a[i]) == Lower(a)[i] == Lower(b)[i] == LowerChar(b[i]);
    }
    assert IsDomain(a) <==> IsDomain(b);
    if IsDomain(a) {
      SameHostSameMask(hash, a, b);
    } else {
      SameWordSameMask(hash, a, b, "acct");
    }
  }

  // ---------------------------------------------------------------- clashes

  /** Two of the names are different and have the same replacement. */
  ghost predicate Clash(rep: string -> string, names: seq<string>, i: int, j: int) {
    0 <= i < |names| && 0 <= j < |names| && rep(names[i]) == rep(names[j]) && names[i] != names[j]
  }

  /** Nothing is reported exactly when no two different names share a replacement. */
  method Clashes(rep: string -> string, names: seq<string>) returns (clashes: seq<string>)
    ensures clashes == [] <==> forall i, j :: !Clash(rep, names, i, j)
    ensures forall n :: n in clashes ==> exists i, j :: Clash(rep, names, i, j) && names[i] == n
  {
    clashes := [];
    var seen: map<string, string> := map[];
    ghost var last: map<string, nat> := map[];
    for k := 0 to |names|
      invariant seen.Keys == last.Keys
      invariant forall i :: 0 <= i < k ==> rep(names[i]) in seen
      invariant forall r :: r in seen ==> last[r] < k && seen[r] == names[last[r]] && rep(seen[r]) == r
      invariant clashes == [] ==> forall i :: 0 <= i < k ==> seen[rep(names[i])] == names[i]
      invariant clashes != [] ==> exists i, j :: Clash(rep, names, i, j)
      invariant forall n :: n in clashes ==> exists i, j :: Clash(rep, names, i, j) && names[i] == n
    {
      var n := names[k];
      var r := rep(n);
      if r in seen && seen[r] != n {
        assert Clash(rep, names, k, last[r]);
        clashes := clashes + [n];
      }
      seen := seen[r := n];
      last := last[r := k];
    }
  }
}
