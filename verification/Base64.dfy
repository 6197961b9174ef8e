/**
  * The base64 codec of section 4 of RFC 4648, as `base64.b64encode` writes it and
  * `base64.b64decode(..., validate=True)` reads it, and the test a region has to
  * pass before it may be spliced: that the encoder reproduces it.
  *
  * Groups are encoded to symbols first, and symbols written as bytes second, so
  * that the arithmetic of a group and the layout of the alphabet stay apart.
  */
module Base64 {
  import opened Prelude

  type sextet = x: int | 0 <= x < 64

  datatype Symbol = Digit(x: sextet) | Pad

  const PAD: byte := 61

  predicate IsAlphabet(c: byte) {
    65 <= c <= 90 || 97 <= c <= 122 || 48 <= c <= 57 || c == 43 || c == 47
  }

  // -------------------------------------------------------------------- symbols

  function CharOf(s: Symbol): (c: byte)
  {
    match s
    case Pad => PAD
    case Digit(x) =>
      if x < 26 then 65 + x else if x < 52 then 71 + x else if x < 62 then x - 4 else if x == 62 then 43 else 47
  }

  function SymbolOf(c: byte): (s: Option<Symbol>)
  {
    if 65 <= c <= 90 then Some(Digit(c - 65)) else if 97 <= c <= 122 then Some(Digit(c - 71))
    else if 48 <= c <= 57 then Some(Digit(c + 4)) else if c == 43 then Some(Digit(62))
    else if c == 47 then Some(Digit(63)) else if c == PAD then Some(Pad) else None
  }

  lemma SymbolOfCharOf(s: Symbol)
    ensures SymbolOf(CharOf(s)) == Some(s)
    ensures IsAlphabet(CharOf(s)) <==> s.Digit?
    ensures CharOf(s) == PAD <==> s.Pad?
  {
  }

  lemma CharOfSymbolOf(c: byte)
    ensures SymbolOf(c).Some? <==> IsAlphabet(c) || c == PAD
    ensures SymbolOf(c).Some? ==> CharOf(SymbolOf(c).value) == c && (SymbolOf(c).value.Pad? <==> c == PAD)
  {
  }

  function Chars(t: seq<Symbol>): (s: seq<byte>)
    ensures |s| == |t|
  {
    seq(|t|, i requires 0 <= i < |t| => CharOf(t[i]))
  }

  predicate AllSymbols(s: seq<byte>) {
    forall i :: 0 <= i < |s| ==> SymbolOf(s[i]).Some?
  }

  function Symbols(s: seq<byte>): (t: seq<Symbol>)
    requires AllSymbols(s)
    ensures |t| == |s|
  {
    seq(|s|, i requires 0 <= i < |s| => SymbolOf(s[i]).value)
  }

  lemma SymbolsOfChars(t: seq<Symbol>)
    ensures AllSymbols(Chars(t)) && Symbols(Chars(t)) == t
  {
    forall i | 0 <= i < |t| ensures SymbolOf(Chars(t)[i]) == Some(t[i]) {
      SymbolOfCharOf(t[i]);
    }
  }

  lemma CharsOfSymbols(s: seq<byte>)
    requires AllSymbols(s)
    ensures Chars(Symbols(s)) == s
  {
    forall i | 0 <= i < |s| ensures CharOf(Symbols(s)[i]) == s[i] {
      CharOfSymbolOf(s[i]);
    }
  }

  // -------------------------------------------------------------------- groups

  function EncodeGroup(a: byte, b: byte, c: byte): (r: seq<Symbol>)
  {
    [Digit(a / 4), Digit(a % 4 * 16 + b / 16), Digit(b % 16 * 4 + c / 64), Digit(c % 64)]
  }

  function DecodeGroup(a: sextet, b: sextet, c: sextet, d: sextet): (r: seq<byte>)
    ensures |r| == 3
  {
    [a * 4 + b / 16, b % 16 * 16 + c / 4, c % 4 * 64 + d]
  }

  lemma DecodeGroupOfEncodeGroup(a: byte, b: byte, c: byte)
    ensures DecodeGroup(a / 4, a % 4 * 16 + b / 16, b % 16 * 4 + c / 64, c % 64) == [a, b, c]
  {
  }

  lemma EncodeGroupOfDecodeGroup(a: sextet, b: sextet, c: sextet, d: sextet)
    ensures var g := DecodeGroup(a, b, c, d); EncodeGroup(g[0], g[1], g[2]) == [Digit(a), Digit(b), Digit(c), Digit(d)]
  {
    var x, y, z: byte := a * 4 + b / 16, b % 16 * 16 + c / 4, c % 4 * 64 + d;
    assert x / 4 == a && x % 4 == b / 16;
    assert y / 16 == b % 16 && y % 16 == c / 4;
    assert z / 64 == c % 4 && z % 64 == d;
  }

  /** The symbols of an encoding: whole groups, then a padded one if one or two bytes are left. */
  function Encoding(d: seq<byte>): (t: seq<Symbol>)
  {
    if |d| == 0 then []
    else if |d| == 1 then [Digit(d[0] / 4), Digit(d[0] % 4 * 16), Pad, Pad]
    else if |d| == 2 then [Digit(d[0] / 4), Digit(d[0] % 4 * 16 + d[1] / 16), Digit(d[1] % 16 * 4), Pad]
    else EncodeGroup(d[0], d[1], d[2]) + Encoding(d[3..])
  }

  /** The strict decoder. The unused bits of a padded final group are dropped unread. */
  function Decoding(t: seq<Symbol>): (r: Option<seq<byte>>)
    decreases |t|
  {
    if t == [] then Some([])
    else if |t| < 4 || t[0].Pad? || t[1].Pad? then None
    else if |t| == 4 && t[3].Pad? then
      if t[2].Pad? then Some([t[0].x * 4 + t[1].x / 16])
      else Some([t[0].x * 4 + t[1].x / 16, t[1].x % 16 * 16 + t[2].x / 4])
    else if t[2].Pad? || t[3].Pad? then None
    else
      match Decoding(t[4..])
      case None => None
      case Some(rest) => Some(DecodeGroup(t[0].x, t[1].x, t[2].x, t[3].x) + rest)
  }

  function Encode(d: seq<byte>): (r: seq<byte>) {
    Chars(Encoding(d))
  }

  function Decode(s: seq<byte>): (r: Option<seq<byte>>) {
    if AllSymbols(s) then Decoding(Symbols(s)) else None
  }

  // ---------------------------------------------------------------- round trips

  lemma SplitByte(a: byte, b: byte)
    ensures a / 4 * 4 + a % 4 * 16 / 16 == a
    ensures a / 4 * 4 + (a % 4 * 16 + b / 16) / 16 == a
    ensures (a % 4 * 16 + b / 16) % 16 * 16 + b % 16 * 4 / 4 == b
  {
    assert (a % 4 * 16 + b / 16) / 16 == a % 4;
    assert (a % 4 * 16 + b / 16) % 16 == b / 16;
  }

  lemma DecodingOfOneByte(a: byte)
    ensures Decoding(Encoding([a])) == Some([a])
  {
    SplitByte(a, 0);
    assert Encoding([a]) == [Digit(a / 4), Digit(a % 4 * 16), Pad, Pad];
  }

  lemma DecodingOfTwoBytes(a: byte, b: byte)
    ensures Decoding(Encoding([a, b])) == Some([a, b])
  {
    SplitByte(a, b);
    assert Encoding([a, b]) == [Digit(a / 4), Digit(a % 4 * 16 + b / 16), Digit(b % 16 * 4), Pad];
  }

  lemma DecodingOfGroupAndRest(a: sextet, b: sextet, c: sextet, d: sextet, rest: seq<Symbol>)
    requires Decoding(rest).Some?
    ensures Decoding([Digit(a), Digit(b), Digit(c), Digit(d)] + rest) == Some(DecodeGroup(a, b, c, d) + Decoding(rest).value)
  {
    var t := [Digit(a), Digit(b), Digit(c), Digit(d)] + rest;
    assert t[4..] == rest;
  }

  lemma DecodingOfGroupEncoding(a: byte, b: byte, c: byte, rest: seq<Symbol>)
    requires Decoding(rest).Some?
    ensures Decoding(EncodeGroup(a, b, c) + rest) == Some([a, b, c] + Decoding(rest).value)
  {
    DecodeGroupOfEncodeGroup(a, b, c);
    DecodingOfGroupAndRest(a / 4, a % 4 * 16 + b / 16, b % 16 * 4 + c / 64, c % 64, rest);
  }

  lemma {:induction false} DecodingOfEncoding(d: seq<byte>)
    ensures Decoding(Encoding(d)) == Some(d)
    decreases |d|
  {
    if |d| >= 3 {
      DecodingOfEncoding(d[3..]);
      DecodingOfGroupEncoding(d[0], d[1], d[2], Encoding(d[3..]));
      assert d == [d[0], d[1], d[2]] + d[3..];
    } else if |d| == 2 {
      DecodingOfTwoBytes(d[0], d[1]);
      assert d == [d[0], d[1]];
    } else if |d| == 1 {
      DecodingOfOneByte(d[0]);
      assert d == [d[0]];
    }
  }

  /** Decoding undoes encoding, for every byte string. */
  lemma DecodeOfEncode(d: seq<byte>)
    ensures Decode(Encode(d)) == Some(d)
  {
    DecodingOfEncoding(d);
    SymbolsOfChars(Encoding(d));
  }

  /** How many pad characters the encoding of `n` bytes ends in. */
  function PadCount(n: nat): (p: nat)
    ensures p <= 2
  {
    if n % 3 == 0 then 0 else 3 - n % 3
  }

  function EncodedLength(n: nat): nat {
    (n + 2) / 3 * 4
  }

  lemma {:induction false} EncodingShape(d: seq<byte>)
    ensures |Encoding(d)| == EncodedLength(|d|)
    ensures forall i :: 0 <= i < |Encoding(d)| ==> (Encoding(d)[i].Pad? <==> i >= |Encoding(d)| - PadCount(|d|))
    decreases |d|
  {
    if |d| >= 3 {
      EncodingShape(d[3..]);
      assert PadCount(|d|) == PadCount(|d[3..]|);
      assert Encoding(d)[4..] == Encoding(d[3..]);
      forall i | 0 <= i < |Encoding(d)|
        ensures Encoding(d)[i].Pad? <==> i >= |Encoding(d)| - PadCount(|d|)
      {
        if i >= 4 {
          assert Encoding(d)[i] == Encoding(d[3..])[i - 4];
        }
      }
    }
  }

  /** The exact shape of an encoding: its length, and which positions are pads. */
  lemma EncodeShape(d: seq<byte>)
    ensures |Encode(d)| == EncodedLength(|d|)
    ensures forall i :: 0 <= i < |Encode(d)| - PadCount(|d|) ==> IsAlphabet(Encode(d)[i])
    ensures forall i :: 0 <= i < |Encode(d)| ==> (Encode(d)[i] == PAD <==> i >= |Encode(d)| - PadCount(|d|))
  {
    EncodingShape(d);
    forall i | 0 <= i < |Encode(d)|
      ensures IsAlphabet(Encode(d)[i]) <==> Encoding(d)[i].Digit?
      ensures Encode(d)[i] == PAD <==> Encoding(d)[i].Pad?
    {
      SymbolOfCharOf(Encoding(d)[i]);
    }
  }

  // ---------------------------------------------------------------- locality

  /** The bytes of the `g`-th three-byte group. */
  function Group(d: seq<byte>, g: nat): (r: seq<byte>)
    requires 3 * g <= |d|
  {
    if 3 * g + 3 <= |d| then d[3 * g..3 * g + 3] else d[3 * g..]
  }

  lemma EncodingOfFirstGroup(d: seq<byte>)
    requires 0 < |d|
    ensures 4 <= |Encoding(d)|
    ensures Encoding(d)[..4] == Encoding(Group(d, 0))
    ensures |d| >= 3 ==> Encoding(d)[4..] == Encoding(d[3..])
  {
    if |d| < 3 {
      assert Group(d, 0) == d;
    } else {
      assert Group(d, 0) == [d[0], d[1], d[2]];
      assert Encoding([]) == [];
      assert Encoding(Group(d, 0)) == EncodeGroup(d[0], d[1], d[2]) + [];
    }
  }

  /** Symbols 4g to 4g+3 of an encoding are the encoding of group `g` alone. */
  lemma {:induction false} EncodingGroupAt(d: seq<byte>, g: nat)
    requires 3 * g < |d|
    ensures 4 * g + 4 <= |Encoding(d)|
    ensures Encoding(d)[4 * g..4 * g + 4] == Encoding(Group(d, g))
    decreases g
  {
    EncodingOfFirstGroup(d);
    if g > 0 {
      var t := Encoding(d);
      var rest := t[4..];
      EncodingGroupAt(d[3..], g - 1);
      assert Group(d[3..], g - 1) == Group(d, g);
      assert t[4 * g..4 * g + 4] == rest[4 * (g - 1)..4 * (g - 1) + 4];
    }
  }

  /** A substitution that keeps the length changes no character outside the groups it touches. */
  lemma SpliceIsLocal(a: seq<byte>, b: seq<byte>, j: nat)
    requires |a| == |b| && j < |Encode(a)|
    ensures |Encode(b)| == |Encode(a)| && 3 * (j / 4) < |a|
    ensures Encode(a)[j] != Encode(b)[j] ==> Group(a, j / 4) != Group(b, j / 4)
  {
    EncodingShape(a);
    EncodingShape(b);
    var g := j / 4;
    EncodingGroupAt(a, g);
    EncodingGroupAt(b, g);
    assert Encoding(a)[j] == Encoding(a)[4 * g..4 * g + 4][j - 4 * g];
    assert Encoding(b)[j] == Encoding(b)[4 * g..4 * g + 4][j - 4 * g];
  }

  // ---------------------------------------------------------------- canonical regions

  /** The pads that bring `n` characters up to a multiple of four. */
  function Missing(n: nat): seq<byte> {
    Repeat(PAD, (4 - n % 4) % 4)
  }

  function StripPads(s: seq<byte>): (r: seq<byte>)
    ensures r <= s
    ensures r != [] ==> r[|r| - 1] != PAD
    ensures forall i :: |r| <= i < |s| ==> s[i] == PAD
  {
    if s != [] && s[|s| - 1] == PAD then StripPads(s[..|s| - 1]) else s
  }

  /** Whole groups of four, a pad only in the last one, and no set bit that no byte uses. */
  predicate WellPadded(t: seq<Symbol>) {
    t == [] ||
    (&& |t| >= 4 && t[0].Digit? && t[1].Digit?
     && if |t| == 4 && t[3].Pad? then
          if t[2].Pad? then t[1].x % 16 == 0 else t[2].x % 4 == 0
        else t[2].Digit? && t[3].Digit? && WellPadded(t[4..]))
  }

  /** Sections 3.5 and 4: fully padded, or with every pad left off, and its unused bits zero. */
  predicate Canonical(region: seq<byte>) {
    && region != []
    && (|region| % 4 == 0 || PAD !in region)
    && AllSymbols(region + Missing(|region|))
    && WellPadded(Symbols(region + Missing(|region|)))
  }

  /** The test the splicer makes: the region decodes, to something, and re-encodes to itself. */
  predicate Accepted(region: seq<byte>) {
    match Decode(region + Missing(|region|))
    case None => false
    case Some(d) => d != [] && (Encode(d) == region || StripPads(Encode(d)) == region)
  }

  lemma {:induction false} EncodingIsWellPadded(d: seq<byte>)
    ensures WellPadded(Encoding(d))
    decreases |d|
  {
    if |d| >= 3 {
      EncodingIsWellPadded(d[3..]);
      assert Encoding(d)[4..] == Encoding(d[3..]);
    }
  }

  lemma EncodingOfGroupAndRest(a: sextet, b: sextet, c: sextet, d: sextet, rest: seq<byte>)
    ensures Encoding(DecodeGroup(a, b, c, d) + rest) == [Digit(a), Digit(b), Digit(c), Digit(d)] + Encoding(rest)
  {
    var g := DecodeGroup(a, b, c, d);
    EncodeGroupOfDecodeGroup(a, b, c, d);
    assert (g + rest)[3..] == rest;
    assert (g + rest)[0] == g[0] && (g + rest)[1] == g[1] && (g + rest)[2] == g[2];
  }

  lemma EncodingOfShortDecoding(a: sextet, b: sextet, c: sextet)
    ensures b % 16 == 0 ==> Encoding([a * 4 + b / 16]) == [Digit(a), Digit(b), Pad, Pad]
    ensures c % 4 == 0 ==> Encoding([a * 4 + b / 16, b % 16 * 16 + c / 4]) == [Digit(a), Digit(b), Digit(c), Pad]
  {
    var x, y: byte := a * 4 + b / 16, b % 16 * 16 + c / 4;
    assert x / 4 == a && x % 4 == b / 16;
    assert y / 16 == b % 16 && y % 16 == c / 4;
  }

  /** Encoding undoes decoding on the well-padded strings. */
  lemma {:induction false} EncodingOfDecoding(t: seq<Symbol>)
    requires WellPadded(t)
    ensures Decoding(t).Some? && Encoding(Decoding(t).value) == t
    decreases |t|
  {
    if t == [] {
    } else if |t| == 4 && t[3].Pad? {
      EncodingOfShortDecoding(t[0].x, t[1].x, if t[2].Pad? then 0 else t[2].x);
      assert t == [t[0], t[1], t[2], t[3]];
    } else {
      EncodingOfDecoding(t[4..]);
      EncodingOfGroupAndRest(t[0].x, t[1].x, t[2].x, t[3].x, Decoding(t[4..]).value);
      assert t == [t[0], t[1], t[2], t[3]] + t[4..];
    }
  }

  lemma {:induction false} StripPadsOfAppend(r: seq<byte>, n: nat)
    requires r != [] ==> r[|r| - 1] != PAD
    ensures StripPads(r + Repeat(PAD, n)) == r
    decreases n
  {
    if n == 0 {
      assert r + Repeat(PAD, 0) == r;
    } else {
      assert (r + Repeat(PAD, n))[..|r| + n - 1] == r + Repeat(PAD, n - 1);
      StripPadsOfAppend(r, n - 1);
    }
  }

  lemma MissingIsPadCount(n: nat)
    ensures EncodedLength(n) >= PadCount(n)
    ensures (4 - (EncodedLength(n) - PadCount(n)) % 4) % 4 == PadCount(n)
  {
    var groups := (n + 2) / 3;
    assert EncodedLength(n) == 4 * groups;
    assert groups >= 1 || n == 0;
    var p := PadCount(n);
    if p == 0 {
      assert (4 * groups) % 4 == 0;
    } else {
      assert 4 * groups - p == 4 * (groups - 1) + (4 - p);
      assert (4 * (groups - 1) + (4 - p)) % 4 == 4 - p;
    }
  }

  /** Stripping an encoding removes its pads and nothing else. */
  lemma StripPadsOfEncode(d: seq<byte>)
    ensures |StripPads(Encode(d))| == EncodedLength(|d|) - PadCount(|d|)
    ensures PAD !in StripPads(Encode(d))
    ensures StripPads(Encode(d)) + Missing(|StripPads(Encode(d))|) == Encode(d)
  {
    EncodeShape(d);
    MissingIsPadCount(|d|);
    var e, n, p := Encode(d), EncodedLength(|d|) - PadCount(|d|), PadCount(|d|);
    assert e == e[..n] + Repeat(PAD, p);
    assert n > 0 ==> e[n - 1] != PAD;
    StripPadsOfAppend(e[..n], p);
    assert Missing(n) == Repeat(PAD, p);
  }

  lemma CanonicalDecodes(region: seq<byte>)
    requires Canonical(region)
    ensures var padded := region + Missing(|region|);
            Decode(padded).Some? && Encode(Decode(padded).value) == padded && Decode(padded).value != []
  {
    var padded := region + Missing(|region|);
    EncodingOfDecoding(Symbols(padded));
    CharsOfSymbols(padded);
    EncodingShape(Decoding(Symbols(padded)).value);
  }

  lemma CanonicalIsAccepted(region: seq<byte>)
    requires Canonical(region)
    ensures Accepted(region)
  {
    CanonicalDecodes(region);
    if |region| % 4 == 0 {
      assert Missing(|region|) == [];
      assert region + Missing(|region|) == region;
    } else {
      assert region[|region| - 1] in region;
      StripPadsOfAppend(region, (4 - |region| % 4) % 4);
    }
  }

  lemma EncodeNeedsNoPads(d: seq<byte>)
    ensures |Encode(d)| % 4 == 0 && Encode(d) + Missing(|Encode(d)|) == Encode(d)
  {
    EncodeShape(d);
    assert Missing(|Encode(d)|) == [];
  }

  lemma EncodingOfRegion(region: seq<byte>, d: seq<byte>)
    requires Encode(d) == region || StripPads(Encode(d)) == region
    ensures Encode(d) == region + Missing(|region|)
    ensures |region| % 4 == 0 || PAD !in region
    ensures Encode(d) == region <==> |region| % 4 == 0
  {
    if Encode(d) == region {
      EncodeNeedsNoPads(d);
    } else {
      StripPadsOfEncode(d);
    }
  }

  /** An accepted region is its own bytes' encoding, up to pads left off. */
  lemma AcceptedIsEncoding(region: seq<byte>)
    requires Accepted(region)
    ensures Encode(Decode(region + Missing(|region|)).value) == region + Missing(|region|)
    ensures |region| % 4 == 0 || PAD !in region
    ensures Encode(Decode(region + Missing(|region|)).value) == region <==> |region| % 4 == 0
  {
    EncodingOfRegion(region, Decode(region + Missing(|region|)).value);
  }

  lemma AcceptedIsCanonical(region: seq<byte>)
    requires Accepted(region)
    ensures Canonical(region)
  {
    AcceptedIsEncoding(region);
    var d := Decode(region + Missing(|region|)).value;
    EncodingIsWellPadded(d);
    SymbolsOfChars(Encoding(d));
  }

  /** Both directions: a region is spliceable exactly when it is canonical. */
  lemma AcceptedIffCanonical(region: seq<byte>)
    ensures Accepted(region) <==> Canonical(region)
  {
    if Canonical(region) {
      CanonicalIsAccepted(region);
    }
    if Accepted(region) {
      AcceptedIsCanonical(region);
    }
  }
}
