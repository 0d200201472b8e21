/**
 How the usage formatter reads UTF-8 (section 3 of RFC 3629) and how many screen columns it
 gives to a text. Bytes are 8-bit and code points 32-bit vectors, as in the original.
 */
module Utf8 {

  /** A byte of a string. 0xFF is left out: it occurs in no UTF-8 text and the decoder's mask is undefined for it. */
  type Byte = b: bv8 | b != 0xFF

  // ---------------------------------------------------------------- the decoder's primitives

  predicate IsWideChar(ch: bv32) {
    ch != 0x303F &&
    ((0x1100 <= ch <= 0x115F) || (0x2329 <= ch <= 0x232A) || (0x2E80 <= ch <= 0xA4C6)
     || (0xA960 <= ch <= 0xA97C) || (0xAC00 <= ch <= 0xD7FB) || (0xF900 <= ch <= 0xFAFF)
     || (0xFE10 <= ch <= 0xFE6B) || (0xFF01 <= ch <= 0xFF60) || (0xFFE0 <= ch <= 0xFFE6)
     || 0x1B000 <= ch)
  }

  /** The number of leading zeros of a 32-bit word that holds a non-zero byte. */
  function LeadingZeros(x: bv32): (r: bv6)
    requires 0 < x <= 0xFF
    ensures r < 32
    ensures (x << r) >= 0x8000_0000 && (x << r) >> r == x
  {
    if x >= 0x80 then 24 else if x >= 0x40 then 25 else if x >= 0x20 then 26 else if x >= 0x10 then 27
    else if x >= 0x08 then 28 else if x >= 0x04 then 29 else if x >= 0x02 then 30 else 31
  }

  /** The next byte belongs to the character before it. */
  predicate IsContinuation(b: Byte) {
    (b ^ 0x80) <= 0x3F
  }

  /** A lead byte without its length bits. */
  function LeadBits(b: Byte): bv32 {
    var ch := b as bv32;
    ch & ((0xFFFF_FFFF as bv32) >> LeadingZeros(ch ^ 0xFF))
  }

  function AddContinuation(ch: bv32, b: Byte): bv32 {
    (ch << 6) ^ (b as bv32) ^ 0x80
  }

  // ---------------------------------------------------------------- characters, as the decoder reads them

  /** The leading continuation bytes. */
  function Run(s: seq<Byte>): (n: nat)
    ensures n <= |s|
    ensures forall i :: 0 <= i < n ==> IsContinuation(s[i])
    ensures n < |s| ==> !IsContinuation(s[n])
  {
    if s == [] || !IsContinuation(s[0]) then 0 else 1 + Run(s[1..])
  }

  function Gather(ch: bv32, s: seq<Byte>): bv32
    decreases |s|
  {
    if s == [] then ch else Gather(AddContinuation(ch, s[0]), s[1..])
  }

  /** How many bytes the first character has. */
  function CharLen(s: seq<Byte>): (n: nat)
    requires s != []
    ensures 1 <= n <= |s|
  {
    if s[0] > 0xC1 then 1 + Run(s[1..]) else 1
  }

  /** The code point of the first character. */
  function CodePoint(s: seq<Byte>): bv32
    requires s != []
  {
    if s[0] > 0xC1 then Gather(LeadBits(s[0]), s[1..CharLen(s)]) else s[0] as bv32
  }

  /** The screen columns of the first character. */
  function CharWidth(s: seq<Byte>): (w: nat)
    requires s != []
    ensures 1 <= w <= 2
  {
    if s[0] > 0xC1 && CodePoint(s) >= 0x1100 && IsWideChar(CodePoint(s)) then 2 else 1
  }

  function Decode(s: seq<Byte>): seq<bv32> {
    if s == [] then [] else [CodePoint(s)] + Decode(s[CharLen(s)..])
  }

  function Width(s: seq<Byte>): nat {
    if s == [] then 0 else CharWidth(s) + Width(s[CharLen(s)..])
  }

  // ---------------------------------------------------------------- well-formed UTF-8

  /** A Unicode scalar value. */
  predicate IsScalar(c: bv32) {
    c <= 0x10FFFF && !(0xD800 <= c <= 0xDFFF)
  }

  function Low(c: bv32): Byte {
    (0x80 | (c & 0x3F)) as bv8
  }

  /** The encoding table of section 3 of RFC 3629. */
  function Encode(c: bv32): (s: seq<Byte>)
    requires IsScalar(c)
    ensures s != [] && !IsContinuation(s[0])
  {
    if c < 0x80 then [c as bv8]
    else if c < 0x800 then [(0xC0 | (c >> 6)) as bv8, Low(c)]
    else if c < 0x1_0000 then [(0xE0 | (c >> 12)) as bv8, Low(c >> 6), Low(c)]
    else [(0xF0 | (c >> 18)) as bv8, Low(c >> 12), Low(c >> 6), Low(c)]
  }

  /** The examples of section 7 of RFC 3629, one of each length from one to four bytes. */
  lemma EncodedExamples()
    ensures Encode(0x41) == [0x41] && Encode(0x391) == [0xCE, 0x91]
    ensures Encode(0x2262) == [0xE2, 0x89, 0xA2] && Encode(0x233B4) == [0xF0, 0xA3, 0x8E, 0xB4]
  {
  }

  ghost predicate Scalars(cs: seq<bv32>) {
    forall i :: 0 <= i < |cs| ==> IsScalar(cs[i])
  }

  function EncodeAll(cs: seq<bv32>): (s: seq<Byte>)
    requires Scalars(cs)
    ensures s != [] ==> !IsContinuation(s[0])
  {
    if cs == [] then [] else Encode(cs[0]) + EncodeAll(cs[1..])
  }

  function Columns(c: bv32): nat {
    if IsWideChar(c) then 2 else 1
  }

  /** The wide characters and the narrow ones, range by range. */
  lemma WideRanges(c: bv32)
    ensures 0x1100 <= c <= 0x115F || 0x2329 <= c <= 0x232A || 0x2E80 <= c <= 0x303E || 0x3040 <= c <= 0xA4C6 ==> Columns(c) == 2
    ensures 0xA960 <= c <= 0xA97C || 0xAC00 <= c <= 0xD7FB || 0xF900 <= c <= 0xFAFF || 0xFE10 <= c <= 0xFE6B ==> Columns(c) == 2
    ensures 0xFF01 <= c <= 0xFF60 || 0xFFE0 <= c <= 0xFFE6 || 0x1B000 <= c ==> Columns(c) == 2
    ensures c <= 0x10FF || 0x1160 <= c <= 0x2328 || 0x232B <= c <= 0x2E7F || c == 0x303F || 0xA4C7 <= c <= 0xA95F ==> Columns(c) == 1
    ensures 0xA97D <= c <= 0xABFF || 0xD7FC <= c <= 0xF8FF || 0xFB00 <= c <= 0xFE0F || 0xFE6C <= c <= 0xFF00 ==> Columns(c) == 1
    ensures 0xFF61 <= c <= 0xFFDF || 0xFFE7 <= c <= 0x1AFFF ==> Columns(c) == 1
  {
  }

  function TotalColumns(cs: seq<bv32>): nat {
    if cs == [] then 0 else Columns(cs[0]) + TotalColumns(cs[1..])
  }

  lemma {:induction false} RunStops(s: seq<Byte>, rest: seq<Byte>)
    requires forall i :: 0 <= i < |s| ==> IsContinuation(s[i])
    requires rest != [] ==> !IsContinuation(rest[0])
    ensures Run(s + rest) == |s|
  {
    if s == [] {
      assert s + rest == rest;
    } else {
      assert (s + rest)[1..] == s[1..] + rest;
      RunStops(s[1..], rest);
    }
  }

  /** How malformed text is cut up: up to 0xC1 every byte stands alone, above it the lead byte takes all of 0x80 to 0xBF behind it. */
  lemma LoneBytes(s: seq<Byte>)
    requires s != []
    ensures s[0] <= 0xC1 ==> CharLen(s) == 1 && CodePoint(s) == s[0] as bv32 && CharWidth(s) == 1
    ensures s[0] > 0xC1 ==> forall i :: 1 <= i < CharLen(s) ==> 0x80 <= s[i] <= 0xBF
    ensures s[0] > 0xC1 && CharLen(s) < |s| ==> !(0x80 <= s[CharLen(s)] <= 0xBF)
  {
    hide LeadBits; hide IsWideChar; hide Gather;
    forall b: Byte
      ensures IsContinuation(b) <==> 0x80 <= b <= 0xBF
    {
    }
    if s[0] > 0xC1 {
      var n := CharLen(s);
      assert forall i :: 1 <= i < |s| ==> s[1..][i - 1] == s[i];
      hide IsContinuation;
      forall i | 1 <= i < n
        ensures IsContinuation(s[i])
      {
        assert s[1..][i - 1] == s[i];
      }
    }
  }

  lemma LeadBitsOf(b: Byte)
    ensures 0xC1 < b < 0xE0 ==> LeadBits(b) == (b as bv32) & 0x3F
    ensures 0xE0 <= b < 0xF0 ==> LeadBits(b) == (b as bv32) & 0x1F
    ensures 0xF0 <= b < 0xF8 ==> LeadBits(b) == (b as bv32) & 0x0F
  {
  }

  lemma TwoBytes(c: bv32)
    requires 0x80 <= c < 0x800
    ensures var b: Byte := (0xC0 | (c >> 6)) as bv8; 0xC1 < b && AddContinuation(LeadBits(b), Low(c)) == c
  {
    hide LeadBits;
    LeadBitsOf((0xC0 | (c >> 6)) as bv8);
  }

  lemma ThreeBytes(c: bv32)
    requires 0x800 <= c < 0x1_0000
    ensures var b: Byte := (0xE0 | (c >> 12)) as bv8; 0xC1 < b && AddContinuation(AddContinuation(LeadBits(b), Low(c >> 6)), Low(c)) == c
  {
    hide LeadBits;
    LeadBitsOf((0xE0 | (c >> 12)) as bv8);
  }

  lemma FourBits(c: bv32)
    requires 0x1_0000 <= c <= 0x10FFFF
    ensures var b: Byte := (0xF0 | (c >> 18)) as bv8;
            0xF0 <= b < 0xF8 && AddContinuation(AddContinuation(AddContinuation((b as bv32) & 0x0F, Low(c >> 12)), Low(c >> 6)), Low(c)) == c
  {
  }

  lemma FourBytes(c: bv32)
    requires 0x1_0000 <= c <= 0x10FFFF
    ensures var b: Byte := (0xF0 | (c >> 18)) as bv8;
            0xC1 < b && AddContinuation(AddContinuation(AddContinuation(LeadBits(b), Low(c >> 12)), Low(c >> 6)), Low(c)) == c
  {
    hide LeadBits; hide AddContinuation; hide Low;
    FourBits(c);
    LeadBitsOf((0xF0 | (c >> 18)) as bv8);
  }

  lemma GatherOne(ch: bv32, a: Byte)
    ensures Gather(ch, [a]) == AddContinuation(ch, a)
  {
    assert [a][1..] == [];
  }

  lemma GatherTwo(ch: bv32, a: Byte, b: Byte)
    ensures Gather(ch, [a, b]) == AddContinuation(AddContinuation(ch, a), b)
  {
    GatherOne(AddContinuation(ch, a), b);
    hide AddContinuation;
    assert [a, b][1..] == [b];
  }

  lemma GatherThree(ch: bv32, a: Byte, b: Byte, c: Byte)
    ensures Gather(ch, [a, b, c]) == AddContinuation(AddContinuation(AddContinuation(ch, a), b), c)
  {
    GatherTwo(AddContinuation(ch, a), b, c);
    hide AddContinuation;
    assert [a, b, c][1..] == [b, c];
  }

  /** Only the trailing bytes of an encoding are continuation bytes, and its lead byte and they give the code point back. */
  lemma EncodeGathers(c: bv32)
    requires IsScalar(c) && c >= 0x80
    ensures Encode(c)[0] > 0xC1 && Gather(LeadBits(Encode(c)[0]), Encode(c)[1..]) == c
  {
    hide LeadBits; hide Gather; hide AddContinuation; hide Low;
    var e := Encode(c);
    if c < 0x800 {
      TwoBytes(c);
      GatherOne(LeadBits(e[0]), Low(c));
      assert e[1..] == [Low(c)];
    } else if c < 0x1_0000 {
      ThreeBytes(c);
      GatherTwo(LeadBits(e[0]), Low(c >> 6), Low(c));
      assert e[1..] == [Low(c >> 6), Low(c)];
    } else {
      FourBytes(c);
      GatherThree(LeadBits(e[0]), Low(c >> 12), Low(c >> 6), Low(c));
      assert e[1..] == [Low(c >> 12), Low(c >> 6), Low(c)];
    }
  }

  lemma LowContinues(c: bv32)
    ensures IsContinuation(Low(c))
  {
  }

  lemma EncodeContinues(c: bv32)
    requires IsScalar(c)
    ensures forall i :: 1 <= i < |Encode(c)| ==> IsContinuation(Encode(c)[i])
  {
    LowContinues(c);
    LowContinues(c >> 6);
    LowContinues(c >> 12);
    hide IsContinuation; hide Low;
  }

  lemma WideIsHigh(c: bv32)
    ensures IsWideChar(c) ==> c >= 0x1100
  {
  }

  lemma FirstLength(c: bv32, rest: seq<Byte>)
    requires IsScalar(c) && (rest != [] ==> !IsContinuation(rest[0]))
    ensures CharLen(Encode(c) + rest) == |Encode(c)|
  {
    var e, s := Encode(c), Encode(c) + rest;
    hide Gather; hide LeadBits;
    if c >= 0x80 {
      EncodeGathers(c);
      EncodeContinues(c);
      hide Encode; hide IsContinuation;
      RunStops(e[1..], rest);
      assert s[1..] == e[1..] + rest;
    }
  }

  /** One encoded character, followed by anything that does not continue it, is read as that character. */
  lemma FirstCharacter(c: bv32, rest: seq<Byte>)
    requires IsScalar(c) && (rest != [] ==> !IsContinuation(rest[0]))
    ensures var s := Encode(c) + rest; CharLen(s) == |Encode(c)| && CodePoint(s) == c && CharWidth(s) == Columns(c)
  {
    hide Gather; hide LeadBits; hide CharLen;
    var e, s := Encode(c), Encode(c) + rest;
    FirstLength(c, rest);
    WideIsHigh(c);
    hide IsWideChar;
    if c >= 0x80 {
      EncodeGathers(c);
      hide Encode;
      assert s[1..|e|] == e[1..];
    } else {
      assert e == [c as bv8];
    }
  }

  /** Decoding inverts the encoding. */
  lemma {:induction false} DecodeInverts(cs: seq<bv32>)
    requires Scalars(cs)
    ensures Decode(EncodeAll(cs)) == cs
  {
    hide Encode; hide CodePoint; hide CharLen; hide CharWidth; hide Columns;
    if cs != [] {
      var rest := EncodeAll(cs[1..]);
      FirstCharacter(cs[0], rest);
      DecodeInverts(cs[1..]);
      assert EncodeAll(cs)[|Encode(cs[0])|..] == rest;
    }
  }

  /** The width of a well-formed text is the sum over its code points of one or two columns. */
  lemma {:induction false} WidthIsSum(cs: seq<bv32>)
    requires Scalars(cs)
    ensures Width(EncodeAll(cs)) == TotalColumns(cs)
  {
    hide Encode; hide CodePoint; hide CharLen; hide CharWidth; hide Columns;
    if cs != [] {
      var rest := EncodeAll(cs[1..]);
      FirstCharacter(cs[0], rest);
      WidthIsSum(cs[1..]);
      assert EncodeAll(cs)[|Encode(cs[0])|..] == rest;
    }
  }

  lemma LoneByteNarrow(s: seq<Byte>)
    requires s != []
    ensures CharWidth(s) <= CharLen(s)
  {
    if s[0] > 0xC1 && CharLen(s) == 1 {
      assert s[1..1] == [];
      assert LeadBits(s[0]) <= 0x3F;
    }
  }

  /** No text, well-formed or not, is wider than its number of bytes. */
  lemma {:induction false} WidthAtMostBytes(s: seq<Byte>)
    ensures Width(s) <= |s|
  {
    if s != [] {
      LoneByteNarrow(s);
      WidthAtMostBytes(s[CharLen(s)..]);
    }
  }

  // ---------------------------------------------------------------- character boundaries

  /** A character of `s` starts or ends at `i`. */
  predicate IsBoundary(s: seq<Byte>, i: nat)
    requires i <= |s|
    decreases i
  {
    i == 0 || (CharLen(s) <= i && IsBoundary(s[CharLen(s)..], i - CharLen(s)))
  }

  lemma {:induction false} RunOfPrefix(s: seq<Byte>, i: nat)
    requires Run(s) <= i <= |s|
    ensures Run(s[..i]) == Run(s)
  {
    if Run(s) > 0 {
      assert s[..i][1..] == s[1..][..i - 1];
      RunOfPrefix(s[1..], i - 1);
    }
  }

  lemma CutLen(s: seq<Byte>, i: nat)
    requires s != [] && CharLen(s) <= i <= |s|
    ensures CharLen(s[..i]) == CharLen(s)
  {
    if s[0] > 0xC1 {
      assert s[..i][1..] == s[1..][..i - 1];
      RunOfPrefix(s[1..], i - 1);
    }
  }

  /** Cutting the text behind its first character does not change how that is read. */
  lemma CutBehind(s: seq<Byte>, i: nat)
    requires s != [] && CharLen(s) <= i <= |s|
    ensures CharLen(s[..i]) == CharLen(s) && CodePoint(s[..i]) == CodePoint(s) && CharWidth(s[..i]) == CharWidth(s)
  {
    hide LeadBits; hide Gather; hide IsWideChar; hide CharLen;
    CutLen(s, i);
    var n := CharLen(s);
    assert s[..i][1..n] == s[1..n];
    assert s[..i][0] == s[0];
  }

  /** Widths add up at a boundary. */
  lemma {:induction false} WidthSplits(s: seq<Byte>, i: nat)
    requires i <= |s| && IsBoundary(s, i)
    ensures Width(s) == Width(s[..i]) + Width(s[i..])
    decreases i
  {
    hide CharLen; hide CharWidth; hide CodePoint;
    if i == 0 {
      assert s[0..] == s;
    } else {
      var n := CharLen(s);
      CutBehind(s, i);
      WidthSplits(s[n..], i - n);
      assert s[..i][n..] == s[n..][..i - n];
      assert s[n..][i - n..] == s[i..];
    }
  }

  lemma {:induction false} BoundaryAfter(s: seq<Byte>, i: nat, j: nat)
    requires i <= j <= |s| && IsBoundary(s, i)
    ensures IsBoundary(s, j) <==> IsBoundary(s[i..], j - i)
    decreases i
  {
    hide CharLen;
    if i == 0 {
      assert s[0..] == s;
    } else {
      var n := CharLen(s);
      BoundaryAfter(s[n..], i - n, j - n);
      assert s[n..][i - n..] == s[i..];
    }
  }

  lemma TailContinues(s: seq<Byte>)
    requires s != []
    ensures forall i :: 1 <= i < CharLen(s) ==> IsContinuation(s[i])
  {
    if s[0] > 0xC1 {
      forall i | 1 <= i < CharLen(s)
        ensures IsContinuation(s[i])
      {
        assert s[1..][i - 1] == s[i];
      }
    }
  }

  /** A byte below 0x80 is a character of its own. */
  lemma {:induction false} AsciiBoundary(s: seq<Byte>, i: nat)
    requires i < |s| && s[i] < 0x80
    ensures IsBoundary(s, i) && IsBoundary(s, i + 1)
    decreases i
  {
    var n := CharLen(s);
    if i == 0 {
      assert n == 1 && IsBoundary(s[1..], 0);
    } else {
      TailContinues(s);
      assert !IsContinuation(s[i]);
      assert s[n..][i - n] == s[i];
      AsciiBoundary(s[n..], i - n);
    }
  }

  // ---------------------------------------------------------------- the line wrapper's decoder

  /** Reads the first character of the `|s|` bytes given: how many it takes, and whether it is wide. */
  method ReadChar(s: seq<Byte>) returns (charBytes: nat, wide: bool)
    requires s != []
    ensures charBytes == CharLen(s) && wide == (CharWidth(s) == 2)
  {
    charBytes, wide := 1, false;
    var ch := s[0] as bv32;
    if s[0] > 0xC1 {
      ch := ch & ((0xFFFF_FFFF as bv32) >> LeadingZeros(ch ^ 0xFF));
      assert s[1..] == s[1..][0..];
      while charBytes < |s| && IsContinuation(s[charBytes])
        invariant 1 <= charBytes <= CharLen(s)
        invariant Gather(LeadBits(s[0]), s[1..CharLen(s)]) == Gather(ch, s[charBytes..CharLen(s)])
      {
        assert charBytes < CharLen(s) by {
          assert CharLen(s) < |s| ==> !IsContinuation(s[1..][Run(s[1..])]);
        }
        assert s[charBytes..CharLen(s)][1..] == s[charBytes + 1..CharLen(s)];
        ch := (ch << 6) ^ (s[charBytes] as bv32) ^ 0x80;
        charBytes := charBytes + 1;
      }
      assert charBytes == CharLen(s) by {
        assert charBytes < CharLen(s) ==> IsContinuation(s[1..][charBytes - 1]);
      }
      wide := ch >= 0x1100 && IsWideChar(ch);
    }
  }
}
