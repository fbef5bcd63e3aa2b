/** What a character is: the encoding of a Unicode character number, after section 3 of RFC 3629. */
module Encoding {
  import opened Text
  import opened Utf8

  /** A Unicode character number; the numbers in the gap are surrogates. */
  type CodePoint = cp: nat | cp <= 0xD7FF || 0xE000 <= cp <= 0x10FFFF

  /** The last six bits of a number, as a byte behind the first one. */
  function LastSix(n: nat): (b: Byte)
    ensures Tail(b) && n == n / 64 * 64 + (b - 0x80)
  {
    0x80 + n % 64
  }

  /** The bits of the number, six to a byte, behind a first byte that tells how many bytes there are. */
  function Encode(cp: CodePoint): (c: seq<Byte>) {
    if cp < 0x80 then [cp]
    else if cp < 0x800 then [0xC0 + cp / 64, LastSix(cp)]
    else if cp < 0x10000 then [0xE0 + cp / 64 / 64, LastSix(cp / 64), LastSix(cp)]
    else [0xF0 + cp / 64 / 64 / 64, LastSix(cp / 64 / 64), LastSix(cp / 64), LastSix(cp)]
  }

  /** The number whose last six bits are in the byte b, and the others in n. */
  function Appended(n: int, b: int): int {
    n * 64 + (b - 0x80)
  }

  function Decode(c: seq<Byte>): (cp: CodePoint)
    requires IsChar(c)
  {
    var lead: int := c[0];
    if |c| == 1 then lead
    else if |c| == 2 then Appended(lead - 0xC0, c[1])
    else if |c| == 3 then Appended(Appended(lead - 0xE0, c[1]), c[2])
    else Appended(Appended(Appended(lead - 0xF0, c[1]), c[2]), c[3])
  }

  lemma AppendedIs(n: nat, b: Byte)
    requires Tail(b)
    ensures var m := Appended(n, b); m >= 0 && m / 64 == n && LastSix(m) == b
  {
  }

  lemma EncodesAChar(cp: CodePoint)
    ensures IsChar(Encode(cp)) && Width(Encode(cp)[0]) == |Encode(cp)|
    ensures Decode(Encode(cp)) == cp
  {
  }

  lemma DecodesAChar(c: seq<Byte>)
    requires IsChar(c)
    ensures Encode(Decode(c)) == c
  {
    hide Appended, LastSix;
    var lead: int := c[0];
    if |c| == 2 {
      AppendedIs(lead - 0xC0, c[1]);
    } else if |c| == 3 {
      AppendedIs(lead - 0xE0, c[1]);
      AppendedIs(Appended(lead - 0xE0, c[1]), c[2]);
    } else if |c| == 4 {
      AppendedIs(lead - 0xF0, c[1]);
      AppendedIs(Appended(lead - 0xF0, c[1]), c[2]);
      AppendedIs(Appended(Appended(lead - 0xF0, c[1]), c[2]), c[3]);
    }
  }

  /** The byte sequences taken for characters are exactly the encodings of character numbers. */
  lemma CharIsEncoding(c: seq<Byte>)
    ensures IsChar(c) <==> exists cp: CodePoint :: c == Encode(cp)
  {
    hide IsChar, Encode, Decode, Width;
    if IsChar(c) {
      DecodesAChar(c);
    }
    if cp: CodePoint :| c == Encode(cp) {
      EncodesAChar(cp);
    }
  }

  /** The first byte tells how many bytes a character takes. */
  lemma WidthOfEncoding(cp: CodePoint, other: CodePoint)
    ensures Width(Encode(cp)[0]) == |Encode(cp)|
    ensures Encode(cp) == Encode(other) ==> cp == other
  {
    hide Encode, Decode;
    EncodesAChar(cp);
    EncodesAChar(other);
  }

  // ----- texts -----

  function EncodeAll(cps: seq<CodePoint>): seq<Byte> {
    if cps == [] then [] else Encode(cps[0]) + EncodeAll(cps[1..])
  }

  /** How many bytes the characters take together. */
  function EncodedLength(cps: seq<CodePoint>): nat {
    if cps == [] then 0 else |Encode(cps[0])| + EncodedLength(cps[1..])
  }

  /** A text has one character for each of its character numbers, and character k starts where
      the first k of them have been encoded. */
  lemma {:induction false} TextOfCodePoints(cps: seq<CodePoint>, k: nat)
    requires k <= |cps|
    ensures var b := EncodeAll(cps);
      && WellFormed(b) && |b| == EncodedLength(cps) && |Chars(b)| == |cps|
      && (forall i :: 0 <= i < |cps| ==> Chars(b)[i] == Encode(cps[i]))
      && Index(b, k) == EncodedLength(cps[..k])
  {
    hide IsChar, Encode, Decode, Width;
    if cps != [] {
      var c, rest := Encode(cps[0]), EncodeAll(cps[1..]);
      EncodesAChar(cps[0]);
      TextOfCodePoints(cps[1..], if k == 0 then 0 else k - 1);
      CharsCons(c, rest);
      Parts(c, rest);
      if k > 0 {
        assert cps[..k][1..] == cps[1..][..k - 1];
      }
    }
  }

  /** Behind k of the character numbers that b encodes comes byte i. */
  ghost predicate StartsAt(b: seq<Byte>, k: nat, i: nat) {
    forall cps: seq<CodePoint> :: b == EncodeAll(cps) ==> k <= |cps| && i == EncodedLength(cps[..k])
  }

  lemma IndexOfEncoding(b: seq<Byte>, k: nat)
    requires WellFormed(b) && k <= |Chars(b)|
    ensures StartsAt(b, k, Index(b, k))
  {
    hide WellFormed, Chars, Index, EncodeAll, EncodedLength;
    forall cps: seq<CodePoint> | b == EncodeAll(cps)
      ensures k <= |cps| && Index(b, k) == EncodedLength(cps[..k])
    {
      TextOfCodePoints(cps, 0);
      TextOfCodePoints(cps, k);
    }
  }

  /** Every text the model works on is the encoding of some character numbers. */
  lemma {:induction false} WellFormedIsEncoded(b: seq<Byte>) returns (cps: seq<CodePoint>)
    requires WellFormed(b)
    ensures b == EncodeAll(cps)
    decreases |b|
  {
    cps := [];
    if b != [] {
      hide IsChar, Encode, Decode, Width, WellFormed;
      var c, rest := FirstChar(b);
      var cps' := WellFormedIsEncoded(rest);
      DecodesAChar(c);
      cps := [Decode(c)] + cps';
      assert cps[1..] == cps';
    }
  }

  /** Four characters of the examples in section 7 of RFC 3629. */
  lemma Examples()
    ensures Encode(0x41) == [0x41] && Encode(0x391) == [0xCE, 0x91]
    ensures Encode(0x2262) == [0xE2, 0x89, 0xA2] && Encode(0x233B4) == [0xF0, 0xA3, 0x8E, 0xB4]
  {
  }
}
