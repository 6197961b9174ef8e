/**
  * The few regular expressions the maskers use: an alternation of literals, longest
  * first, between a one-sided look behind and a look ahead, substituted from left to
  * right. Letter case is ignored, over ASCII.
  */
module Scanner {
  import opened Prelude

  // ---------------------------------------------------------------- characters

  predicate IsDigit(c: char) {
    '0' <= c <= '9'
  }

  predicate IsLetter(c: char) {
    'a' <= c <= 'z' || 'A' <= c <= 'Z'
  }

  predicate IsAlnum(c: char) {
    IsDigit(c) || IsLetter(c)
  }

  function LowerChar(c: char): char {
    if 'A' <= c <= 'Z' then (c as int + 32) as char else c
  }

  function Lower(s: string): (r: string)
    ensures |r| == |s|
    ensures forall i :: 0 <= i < |s| ==> r[i] == LowerChar(s[i])
  {
    seq(|s|, i requires 0 <= i < |s| => LowerChar(s[i]))
  }

  /** The same characters, `A` to `Z` as `a` to `z`. */
  ghost predicate IsLowered(s: string, low: string) {
    && |low| == |s|
    && forall i :: 0 <= i < |s| ==> low[i] == if 'A' <= s[i] <= 'Z' then (s[i] as int - 'A' as int + 'a' as int) as char else s[i]
  }

  lemma LoweredIff(s: string, low: string)
    ensures IsLowered(s, low) <==> low == Lower(s)
  {
  }

  predicate Alnum(s: string) {
    forall i :: 0 <= i < |s| ==> IsAlnum(s[i])
  }

  // ---------------------------------------------------------------- guards

  datatype Behind = NothingBehind | NoAlnumBehind | HomeBehind | HomeDigitBehind | UnderHomeBehind | PhpBehind

  datatype Ahead = NothingAhead | NoLetterAhead | SegmentEndAhead | UnderscoreAhead | PublicHtmlAhead | ConfAhead

  /** `name`, lower-case, stands at `i`, in any letter case. */
  predicate Stands(name: string, text: string, i: nat) {
    i + |name| <= |text| && Lower(text[i..i + |name|]) == name
  }

  /** `name` ends at `i`. */
  predicate StandsBefore(name: string, text: string, i: nat) {
    |name| <= i && Stands(name, text, i - |name|)
  }

  predicate DigitAt(text: string, i: int) {
    0 <= i < |text| && IsDigit(text[i])
  }

  predicate BehindHolds(g: Behind, text: string, i: nat)
    requires i <= |text|
  {
    match g
    case NothingBehind => true
    case NoAlnumBehind => i == 0 || !IsAlnum(text[i - 1])
    case HomeBehind => StandsBefore("/home/", text, i)
    case HomeDigitBehind => StandsBefore("/", text, i) && DigitAt(text, i - 2) && i >= 2 && StandsBefore("/home", text, i - 2)
    case UnderHomeBehind => StandsBefore("_home_", text, i)
    case PhpBehind => StandsBefore("-", text, i) && DigitAt(text, i - 2) && DigitAt(text, i - 3)
                      && i >= 3 && StandsBefore("php", text, i - 3)
  }

  predicate AheadHolds(g: Ahead, text: string, i: nat)
    requires i <= |text|
  {
    match g
    case NothingAhead => true
    case NoLetterAhead => i == |text| || !IsLetter(text[i])
    case SegmentEndAhead => i == |text| || text[i] in "/\"'\\" || IsSpace(text[i])
    case UnderscoreAhead => Stands("_", text, i)
    case PublicHtmlAhead => Stands("_public_html", text, i)
    case ConfAhead => Stands(".conf", text, i)
  }

  // ---------------------------------------------------------------- alternation

  predicate LongestFirst(names: seq<string>) {
    forall i, j :: 0 <= i < j < |names| ==> |names[i]| >= |names[j]|
  }

  function InsertByLength(name: string, names: seq<string>): seq<string> {
    if names == [] || |name| >= |names[0]| then [name] + names
    else [names[0]] + InsertByLength(name, names[1..])
  }

  function Alternation(names: seq<string>): seq<string> {
    if names == [] then [] else InsertByLength(names[0], Alternation(names[1..]))
  }

  lemma {:induction false} InsertKeepsOrder(name: string, names: seq<string>)
    requires LongestFirst(names)
    ensures LongestFirst(InsertByLength(name, names))
    ensures forall n :: n in InsertByLength(name, names) <==> n == name || n in names
  {
    if names == [] || |name| >= |names[0]| {
    } else {
      InsertKeepsOrder(name, names[1..]);
      var rest := InsertByLength(name, names[1..]);
      forall n | n in rest ensures |names[0]| >= |n| {
        if n in names[1..] {
        }
      }
      assert names == [names[0]] + names[1..];
      forall i, j | 0 <= i < j < |rest| + 1
        ensures |([names[0]] + rest)[i]| >= |([names[0]] + rest)[j]|
      {
        assert rest[j - 1] in rest;
      }
    }
  }

  /** The pattern lists the same names, longest first. */
  lemma {:induction false} AlternationSorts(names: seq<string>)
    ensures LongestFirst(Alternation(names))
    ensures forall n :: n in Alternation(names) <==> n in names
  {
    if names != [] {
      AlternationSorts(names[1..]);
      InsertKeepsOrder(names[0], Alternation(names[1..]));
      assert names == [names[0]] + names[1..];
    }
  }

  // ---------------------------------------------------------------- one pattern

  datatype Pattern = Pattern(behind: Behind, names: seq<string>, ahead: Ahead)

  predicate Fires(p: Pattern, name: string, text: string, i: nat)
    requires i <= |text|
  {
    Stands(name, text, i) && BehindHolds(p.behind, text, i) && AheadHolds(p.ahead, text, i + |name|)
  }

  /** The alternative the regular expression settles on at `i`: the first one in its list that fits. */
  function Choose(p: Pattern, alternatives: seq<string>, text: string, i: nat): (r: Option<string>)
    requires i <= |text|
    ensures r.Some? ==> i + |r.value| <= |text|
  {
    if alternatives == [] then None
    else if Fires(p, alternatives[0], text, i) then Some(alternatives[0])
    else Choose(p, alternatives[1..], text, i)
  }

  function Match(p: Pattern, text: string, i: nat): (r: Option<string>)
    requires i <= |text|
    ensures r.Some? ==> i + |r.value| <= |text|
  {
    Choose(p, Alternation(p.names), text, i)
  }

  lemma {:induction false} ChosenFires(p: Pattern, alternatives: seq<string>, text: string, i: nat)
    requires i <= |text|
    ensures var r := Choose(p, alternatives, text, i);
            r.Some? ==> r.value in alternatives && Fires(p, r.value, text, i)
  {
    if alternatives != [] && !Fires(p, alternatives[0], text, i) {
      ChosenFires(p, alternatives[1..], text, i);
    }
  }

  lemma {:induction false} ChooseIsLongest(p: Pattern, alternatives: seq<string>, text: string, i: nat, name: string)
    requires i <= |text| && LongestFirst(alternatives) && name in alternatives && Fires(p, name, text, i)
    ensures Choose(p, alternatives, text, i).Some? && |Choose(p, alternatives, text, i).value| >= |name|
  {
    if !Fires(p, alternatives[0], text, i) {
      assert name in alternatives[1..];
      ChooseIsLongest(p, alternatives[1..], text, i, name);
    } else {
      var k :| 0 <= k < |alternatives| && alternatives[k] == name;
    }
  }

  /** The match at a position is a name of the pattern that fires there, and no longer one does. */
  lemma MatchIsLongest(p: Pattern, text: string, i: nat)
    requires i <= |text|
    ensures var r := Match(p, text, i);
            && (r.Some? <==> exists n :: n in p.names && Fires(p, n, text, i))
            && (r.Some? ==> r.value in p.names && Fires(p, r.value, text, i))
            && (r.Some? ==> forall n :: n in p.names && Fires(p, n, text, i) && n != r.value ==> |n| < |r.value|)
  {
    AlternationSorts(p.names);
    ChosenFires(p, Alternation(p.names), text, i);
    var r := Match(p, text, i);
    forall n | n in p.names && Fires(p, n, text, i)
      ensures r.Some? && (n != r.value ==> |n| < |r.value|)
    {
      ChooseIsLongest(p, Alternation(p.names), text, i, n);
      if |n| == |r.value| {
        assert n == Lower(text[i..i + |n|]) == r.value;
      }
    }
  }

  // ---------------------------------------------------------------- substitution

  /** `rx.sub(f, text)` from `i` on; the guards always look at the text as it was. */
  function SubFrom(p: Pattern, f: string -> string, text: string, i: nat): string
    requires i <= |text|
    decreases |text| - i
  {
    var r := Match(p, text, i);
    if r.Some? && r.value != "" then
      f(text[i..i + |r.value|]) + SubFrom(p, f, text, i + |r.value|)
    else
      (if r.Some? then f("") else "")
      + (if i == |text| then "" else [text[i]] + SubFrom(p, f, text, i + 1))
  }

  function Sub(p: Pattern, f: string -> string, text: string): string {
    SubFrom(p, f, text, 0)
  }

  predicate Silent(p: Pattern, text: string, from: nat) {
    forall i :: from <= i <= |text| ==> Match(p, text, i).None?
  }

  lemma {:induction false} SilentFrom(p: Pattern, f: string -> string, text: string, i: nat)
    requires i <= |text| && Silent(p, text, i)
    ensures SubFrom(p, f, text, i) == text[i..]
    decreases |text| - i
  {
    if i < |text| {
      SilentFrom(p, f, text, i + 1);
      assert text[i..] == [text[i]] + text[i + 1..];
    }
  }
}
