/** What a mapped identifier is replaced by in a sample, character by character. */
module ReplacementRules {
  import C = ContentMasker
  import opened ContentIdentifiers
  import opened IncidentMask
  import opened Scanner
  import opened Splitting

  // ---------------------------------------------------------------- the letters drawn

  /** The digest itself, and what hashing it again and again gives. */
  ghost function Rehashed(hash: Hash, d: Digest, n: nat): Digest {
    if n == 0 then d else hash.again(Rehashed(hash, d, n - 1))
  }

  /** The `k`-th letter drawn: a byte of the digest that holds it, by the length of the alphabet. */
  ghost function Drawn(hash: Hash, d: Digest, digits: bool, k: nat): char {
    var letters := if digits then "abcdefghijklmnopqrstuvwxyz0123456789" else "abcdefghijklmnopqrstuvwxyz";
    letters[Rehashed(hash, d, k / 32)[k % 32] % |letters|]
  }

  /** The letter in the case of the character it stands for. */
  ghost function Recased(c: char, letter: char): char {
    if 'A' <= c <= 'Z' && 'a' <= letter <= 'z' then (letter as int - 'a' as int + 'A' as int) as char else letter
  }

  /**
    * Same length, same letter case; a word of seven characters or more begins with `mask`,
    * and the rest is drawn from the hash of the lower-cased word under its tag.
    */
  ghost predicate IsSynthetic(hash: Hash, tag: string, word: string, out: string) {
    && |out| == |word|
    && exists low :: IsLowered(word, low)
         && forall k :: 0 <= k < |word| ==>
              out[k] == Recased(word[k], if |word| < 7 then Drawn(hash, hash.seed(tag, low), false, k)
                                         else if k < 4 then "mask"[k] else Drawn(hash, hash.seed(tag, low), true, k - 4))
  }

  /** How many of the last labels are the public suffix: two where they are a known one, or else the last, if there are two at all. */
  ghost predicate IsSuffixLength(hash: Hash, labels: seq<string>, n: nat) {
    var k := |labels|;
    if k < 2 then n == 0
    else if k == 2 then n == 1
    else exists low :: IsLowered(labels[k - 2] + "." + labels[k - 1], low) && n == if low in hash.multiSuffix then 2 else 1
  }

  /** A name with a dot that is not its first character is masked label by label but for its public suffix, any other as one word. */
  ghost predicate IsReplacement(hash: Hash, text: string, out: string) {
    if '.' in text && text[0] != '.' then
      var labels, masked := Split(text, '.'), Split(out, '.');
      && |masked| == |labels|
      && exists n :: IsSuffixLength(hash, labels, n)
           && forall i :: 0 <= i < |labels| ==>
                if i < |labels| - n then IsSynthetic(hash, "dom", labels[i], masked[i]) else masked[i] == labels[i]
    else IsSynthetic(hash, "acct", text, out)
  }

  // ---------------------------------------------------------------- the two agree

  lemma AlphabetIs(a: Alphabet, k: nat)
    requires k < a.Size()
    ensures var letters := if a == LowerCaseAndDigits then "abcdefghijklmnopqrstuvwxyz0123456789" else "abcdefghijklmnopqrstuvwxyz";
            a.Size() == |letters| && a.At(k) == letters[k]
  {
  }

  lemma InTheDigest(j: nat, i: nat, at: nat)
    requires i < 32 && at == 32 * j + i
    ensures at / 32 == j && at % 32 == i
  {
  }

  /** Letters drawn from the middle of a digest on. */
  lemma LaterLetter(hash: Hash, d: Digest, i: nat, a: Alphabet, n: nat, k: nat)
    requires i < 32 && 0 < k < n
    ensures Letters(hash, d, i, a, n)[k] == Letters(hash, d, i + 1, a, n - 1)[k - 1]
  {
  }

  lemma HashedAgain(hash: Hash, seed: Digest, j: nat, a: Alphabet, n: nat)
    requires 0 < n
    ensures Letters(hash, Rehashed(hash, seed, j), 32, a, n) == Letters(hash, Rehashed(hash, seed, j + 1), 0, a, n)
  {
  }

  lemma {:induction false} LettersAt(hash: Hash, seed: Digest, j: nat, i: nat, a: Alphabet, n: nat, k: nat, at: nat)
    requires i <= 32 && k < n && at == 32 * j + i + k
    ensures Letters(hash, Rehashed(hash, seed, j), i, a, n)[k] == Drawn(hash, seed, a == LowerCaseAndDigits, at)
    decreases n, if i == 32 then 1 else 0
  {
    if i == 32 {
      LettersAt(hash, seed, j + 1, 0, a, n, k, at);
      HashedAgain(hash, seed, j, a, n);
    } else if k == 0 {
      FirstLetter(hash, seed, j, i, a, n, at);
    } else {
      LaterLetter(hash, Rehashed(hash, seed, j), i, a, n, k);
      LettersAt(hash, seed, j, i + 1, a, n - 1, k - 1, at);
    }
  }

  lemma FirstLetter(hash: Hash, seed: Digest, j: nat, i: nat, a: Alphabet, n: nat, at: nat)
    requires i < 32 && 0 < n && at == 32 * j + i
    ensures Letters(hash, Rehashed(hash, seed, j), i, a, n)[0] == Drawn(hash, seed, a == LowerCaseAndDigits, at)
  {
    var d := Rehashed(hash, seed, j);
    InTheDigest(j, i, at);
    AlphabetIs(a, d[i] % a.Size());
  }

  lemma RecasedIs(c: char, letter: char)
    ensures (if IsUpper(c) then UpperChar(letter) else letter) == Recased(c, letter)
  {
  }

  lemma LetterIs(hash: Hash, tag: string, word: string, k: nat)
    requires k < |word|
    ensures var seed := hash.seed(tag, Lower(word));
            Synthetic(hash, word, tag)[k]
            == if |word| < 7 then Drawn(hash, seed, false, k) else if k < 4 then "mask"[k] else Drawn(hash, seed, true, k - 4)
  {
    var seed := hash.seed(tag, Lower(word));
    if |word| < 7 {
      LettersAt(hash, seed, 0, 0, LowerCase, |word|, k, k);
    } else if k >= 4 {
      LettersAt(hash, seed, 0, 0, LowerCaseAndDigits, |word| - 4, k - 4, k - 4);
    }
  }

  lemma SyntheticIs(hash: Hash, tag: string, word: string)
    ensures IsSynthetic(hash, tag, word, Like(word, Synthetic(hash, word, tag)))
  {
    var out := Synthetic(hash, word, tag);
    LoweredIff(word, Lower(word));
    forall k | 0 <= k < |word| ensures Like(word, out)[k] == Recased(word[k], out[k]) {
      RecasedIs(word[k], out[k]);
    }
    forall k | 0 <= k < |word| {
      LetterIs(hash, tag, word, k);
    }
  }

  lemma SuffixIs(hash: Hash, labels: seq<string>)
    ensures IsSuffixLength(hash, labels, SuffixLength(hash, labels))
  {
    var k := |labels|;
    if k >= 3 {
      var two := labels[k - 2..];
      assert two == [labels[k - 2], labels[k - 1]] && two[1..] == [labels[k - 1]];
      assert Join(two, '.') == labels[k - 2] + "." + labels[k - 1];
      LoweredIff(Join(two, '.'), Lower(Join(two, '.')));
    }
  }

  lemma {:induction false} MaskedLabelIs(hash: Hash, labels: seq<string>, i: nat)
    requires i < |labels|
    ensures IsSynthetic(hash, "dom", labels[i], MaskLabels(hash, labels)[i])
  {
    if i == 0 {
      SyntheticIs(hash, "dom", labels[0]);
    } else {
      MaskedLabelIs(hash, labels[1..], i - 1);
    }
  }

  lemma HostIs(hash: Hash, host: string)
    requires '.' in host
    ensures var labels, masked := Split(host, '.'), Split(MaskHostname(hash, host), '.');
            && |masked| == |labels|
            && forall i :: 0 <= i < |labels| ==>
                 if i < |labels| - SuffixLength(hash, labels) then IsSynthetic(hash, "dom", labels[i], masked[i]) else masked[i] == labels[i]
  {
    var labels := Split(host, '.');
    var n := |labels| - SuffixLength(hash, labels);
    if n > 0 {
      MaskedHostDotless(hash, host);
      SplitOfJoin(MaskedHost(hash, host), '.');
      forall i | 0 <= i < n ensures IsSynthetic(hash, "dom", labels[i], MaskedHost(hash, host)[i]) {
        MaskedLabelIs(hash, labels[..n], i);
      }
    }
  }

  /** The replacement of an identifier is the one there can be, and its entry in the log tells its kind and its length. */
  lemma ReplacementIs(hash: Hash, text: string)
    ensures IsReplacement(hash, text, ReplaceIdentifier(hash, text))
    ensures C.Logged(text) == C.Change('.' in text && text[0] != '.', |text|)
  {
    assert IsDomain(text) <==> '.' in text && text[0] != '.';
    if IsDomain(text) {
      HostIs(hash, text);
      SuffixIs(hash, Split(text, '.'));
    } else {
      SyntheticIs(hash, "acct", text);
    }
  }
}
