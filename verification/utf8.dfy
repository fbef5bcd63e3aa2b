/** Characters as the byte sequences of UTF-8, after section 4 of RFC 3629. */
module Utf8 {
  import opened Text

  predicate Tail(b: Byte) {
    0x80 <= b <= 0xBF
  }

  /** c is the encoding of one character. */
  predicate IsChar(c: seq<Byte>) {
    || (|c| == 1 && c[0] <= 0x7F)
    || (|c| == 2 && 0xC2 <= c[0] <= 0xDF && Tail(c[1]))
    || (|c| == 3 && Tail(c[2])
        && ((c[0] == 0xE0 && 0xA0 <= c[1] <= 0xBF) || (0xE1 <= c[0] <= 0xEC && Tail(c[1]))
            || (c[0] == 0xED && 0x80 <= c[1] <= 0x9F) || (0xEE <= c[0] <= 0xEF && Tail(c[1]))))
    || (|c| == 4 && Tail(c[2]) && Tail(c[3])
        && ((c[0] == 0xF0 && 0x90 <= c[1] <= 0xBF) || (0xF1 <= c[0] <= 0xF3 && Tail(c[1]))
            || (c[0] == 0xF4 && 0x80 <= c[1] <= 0x8F)))
  }

  /** How many bytes the character takes that starts with this byte; 0 if none does. */
  function Width(lead: Byte): nat {
    if lead <= 0x7F then 1
    else if 0xC2 <= lead <= 0xDF then 2
    else if 0xE0 <= lead <= 0xEF then 3
    else if 0xF0 <= lead <= 0xF4 then 4
    else 0
  }

  lemma WidthOfChar(c: seq<Byte>)
    requires IsChar(c)
    ensures 0 < |c| <= 4 && Width(c[0]) == |c|
  {
  }

  /** b is a sequence of encoded characters. */
  predicate WellFormed(b: seq<Byte>)
    decreases |b|
  {
    b == [] || (var w := Width(b[0]); 0 < w <= |b| && IsChar(b[..w]) && WellFormed(b[w..]))
  }

  /** The characters of b. */
  function Chars(b: seq<Byte>): (cs: seq<Char>)
    requires WellFormed(b)
    ensures |cs| <= |b|
    ensures cs == [] <==> b == []
    decreases |b|
  {
    if b == [] then [] else [b[..Width(b[0])]] + Chars(b[Width(b[0])..])
  }

  /** The bytes of the characters cs. */
  function Bytes(cs: seq<Char>): seq<Byte> {
    if cs == [] then [] else cs[0] + Bytes(cs[1..])
  }

  /** The byte at which character k of b starts. */
  function Index(b: seq<Byte>, k: nat): (i: nat)
    requires WellFormed(b) && k <= |Chars(b)|
    ensures i <= |b|
    decreases |b|
  {
    if k == 0 then 0 else Width(b[0]) + Index(b[Width(b[0])..], k - 1)
  }

  lemma CharsCons(c: seq<Byte>, rest: seq<Byte>)
    requires IsChar(c) && WellFormed(rest)
    ensures WellFormed(c + rest) && Chars(c + rest) == [c] + Chars(rest)
  {
    WidthOfChar(c);
    hide IsChar, Width;
    assert (c + rest)[..|c|] == c && (c + rest)[|c|..] == rest;
  }

  /** The first character and the rest. */
  lemma FirstChar(b: seq<Byte>) returns (c: seq<Byte>, rest: seq<Byte>)
    requires WellFormed(b) && b != []
    ensures b == c + rest && IsChar(c) && WellFormed(rest) && |rest| < |b| && |c| == Width(b[0])
    ensures Chars(b) == [c] + Chars(rest)
  {
    hide IsChar, Width;
    c, rest := b[..Width(b[0])], b[Width(b[0])..];
  }

  lemma {:induction false} CharsAppend(a: seq<Byte>, b: seq<Byte>)
    requires WellFormed(a) && WellFormed(b)
    ensures WellFormed(a + b) && Chars(a + b) == Chars(a) + Chars(b)
    decreases |a|
  {
    if a == [] {
      assert a + b == b;
    } else {
      hide IsChar, Width, WellFormed, Chars;
      var c, rest := FirstChar(a);
      CharsAppend(rest, b);
      CharsCons(c, rest + b);
      Reassociate(c, rest, b);
      Reassociate([c], Chars(rest), Chars(b));
    }
  }

  lemma Reassociate<T>(a: seq<T>, b: seq<T>, c: seq<T>)
    ensures (a + b) + c == a + (b + c)
  {
  }

  lemma Parts<T>(a: seq<T>, b: seq<T>)
    ensures (a + b)[..|a|] == a && (a + b)[|a|..] == b
  {
  }

  /** b in two parts, the first of which holds k characters. */
  lemma {:induction false} SplitChars(b: seq<Byte>, k: nat) returns (p: seq<Byte>, q: seq<Byte>)
    requires WellFormed(b) && k <= |Chars(b)|
    ensures b == p + q && |p| == Index(b, k) && WellFormed(p) && WellFormed(q)
    ensures Chars(b) == Chars(p) + Chars(q) && |Chars(p)| == k
    decreases |b|
  {
    if k == 0 {
      p, q := [], b;
    } else {
      hide IsChar, Width, WellFormed, Chars;
      var c, rest := FirstChar(b);
      var p', q' := SplitChars(rest, k - 1);
      Parts(c, rest);
      CharsCons(c, p');
      Reassociate(c, p', q');
      Reassociate([c], Chars(p'), Chars(q'));
      p, q := c + p', q';
    }
  }

  /** Cutting b where character k starts cuts its characters there. */
  lemma CharsAt(b: seq<Byte>, k: nat)
    requires WellFormed(b) && k <= |Chars(b)|
    ensures var i := Index(b, k);
      && WellFormed(b[..i]) && WellFormed(b[i..])
      && Chars(b[..i]) == Chars(b)[..k] && Chars(b[i..]) == Chars(b)[k..]
  {
    hide WellFormed, Chars, Index;
    var p, q := SplitChars(b, k);
    Parts(p, q);
    Parts(Chars(p), Chars(q));
  }

  lemma {:induction false} BytesOfChars(b: seq<Byte>)
    requires WellFormed(b)
    ensures Bytes(Chars(b)) == b
    ensures forall c :: c in Chars(b) ==> IsChar(c)
    decreases |b|
  {
    hide IsChar, Width;
    if b != [] {
      var w := Width(b[0]);
      BytesOfChars(b[w..]);
      assert Chars(b)[1..] == Chars(b[w..]);
      assert b == b[..w] + b[w..];
    }
  }

  /** Characters are uniquely decodable. */
  lemma {:induction false} CharsOfBytes(cs: seq<Char>)
    requires forall c :: c in cs ==> IsChar(c)
    ensures WellFormed(Bytes(cs)) && Chars(Bytes(cs)) == cs
  {
    hide IsChar, Width;
    if cs != [] {
      var b := Bytes(cs);
      WidthOfChar(cs[0]);
      assert b[..|cs[0]|] == cs[0] && b[|cs[0]|..] == Bytes(cs[1..]);
      CharsOfBytes(cs[1..]);
    }
  }

  /** The byte index of a character is the encoded length of the characters before it. */
  lemma IndexIsEncodedLength(b: seq<Byte>, k: nat)
    requires WellFormed(b) && k <= |Chars(b)|
    ensures Index(b, k) == |Bytes(Chars(b)[..k])|
  {
    CharsAt(b, k);
    BytesOfChars(b[..Index(b, k)]);
  }

  /** Later characters start at later bytes. */
  lemma {:induction false} IndexMonotone(b: seq<Byte>, j: nat, k: nat)
    requires WellFormed(b) && j <= k <= |Chars(b)|
    ensures Index(b, j) <= Index(b, k)
    ensures j < k ==> Index(b, j) < Index(b, k)
    ensures k == |Chars(b)| ==> Index(b, k) == |b|
    decreases |b|
  {
    hide IsChar, Width;
    if b != [] {
      var rest := b[Width(b[0])..];
      if j > 0 {
        IndexMonotone(rest, j - 1, k - 1);
      } else if k > 0 {
        IndexMonotone(rest, 0, k - 1);
      }
    }
  }

  /** Reading one more character moves on by its width. */
  lemma {:induction false} IndexNext(b: seq<Byte>, k: nat)
    requires WellFormed(b) && k < |Chars(b)|
    ensures var i := Index(b, k); i < |b| && Index(b, k + 1) == i + Width(b[i])
    decreases |b|
  {
    hide IsChar, Width;
    if k > 0 {
      var w := Width(b[0]);
      IndexNext(b[w..], k - 1);
    }
  }

  lemma NothingInFront<T>(q: seq<T>)
    ensures [] + q == q
  {
  }
}
