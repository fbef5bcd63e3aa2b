/** Sequences seen through deletions and insertions.

    A deletion of a document of n characters is a mask: a sequence of n Booleans
    that is true at the characters that go.  Because a mask annotates a document
    character by character, one function does two jobs: Erase(s, m) is the
    document that is left, and Erase(m', m) is what is left of another deletion
    m' of the same document once m has happened.  Splice inserts. */
module Masks {

  /** The elements of s at which m is false, in order. */
  function Erase<T>(s: seq<T>, m: seq<bool>): (r: seq<T>)
    requires |s| == |m|
    ensures |r| == Survivors(m) <= |s|
  {
    if s == [] then [] else (if m[0] then [] else [s[0]]) + Erase(s[1..], m[1..])
  }

  /** How many positions of m survive. */
  function Survivors(m: seq<bool>): nat {
    if m == [] then 0 else (if m[0] then 0 else 1) + Survivors(m[1..])
  }

  /** Where the gap before position p ends up once m has happened. */
  function Rank(m: seq<bool>, p: nat): nat
    requires p <= |m|
  {
    Survivors(m[..p])
  }

  /** s with x inserted before position p. */
  function Splice<T>(s: seq<T>, p: nat, x: seq<T>): (r: seq<T>)
    requires p <= |s|
    ensures |r| == |s| + |x|
  {
    s[..p] + x + s[p..]
  }

  /** s without the len elements from position p on. */
  function Cut<T>(s: seq<T>, p: nat, len: nat): (r: seq<T>)
    requires p + len <= |s|
    ensures |r| == |s| - len
  {
    s[..p] + s[p + len..]
  }

  /** The mask that deletes nothing. */
  function Clear(n: nat): (m: seq<bool>)
    ensures |m| == n
  {
    seq(n, _ => false)
  }

  /** The mask that deletes everything. */
  function Full(n: nat): (m: seq<bool>)
    ensures |m| == n
  {
    seq(n, _ => true)
  }

  /** The mask that deletes the len characters from position p on. */
  function Range(n: nat, p: nat, len: nat): (m: seq<bool>)
    requires p + len <= n
    ensures |m| == n
  {
    Clear(p) + Full(len) + Clear(n - p - len)
  }

  /** Both deletions of one document. */
  function Or(a: seq<bool>, b: seq<bool>): (m: seq<bool>)
    requires |a| == |b|
    ensures |m| == |a|
  {
    seq(|a|, i requires 0 <= i < |a| => a[i] || b[i])
  }

  lemma {:induction false} EraseAppend<T>(s: seq<T>, t: seq<T>, m: seq<bool>, k: seq<bool>)
    requires |s| == |m| && |t| == |k|
    ensures Erase(s + t, m + k) == Erase(s, m) + Erase(t, k)
  {
    if s == [] {
      assert s + t == t && m + k == k;
    } else {
      assert (s + t)[1..] == s[1..] + t && (m + k)[1..] == m[1..] + k;
      EraseAppend(s[1..], t, m[1..], k);
    }
  }

  lemma {:induction false} SurvivorsAppend(m: seq<bool>, k: seq<bool>)
    ensures Survivors(m + k) == Survivors(m) + Survivors(k)
  {
    if m == [] {
      assert m + k == k;
    } else {
      assert (m + k)[1..] == m[1..] + k;
      SurvivorsAppend(m[1..], k);
    }
  }

  lemma {:induction false} EraseClear<T>(s: seq<T>)
    ensures Erase(s, Clear(|s|)) == s
    ensures Survivors(Clear(|s|)) == |s|
  {
    if s != [] {
      assert Clear(|s|)[1..] == Clear(|s| - 1);
      EraseClear(s[1..]);
    }
  }

  lemma {:induction false} EraseFull<T>(s: seq<T>)
    ensures Erase(s, Full(|s|)) == []
    ensures Survivors(Full(|s|)) == 0
  {
    if s != [] {
      assert Full(|s|)[1..] == Full(|s| - 1);
      EraseFull(s[1..]);
    }
  }

  lemma EraseThree<T>(a: seq<T>, b: seq<T>, c: seq<T>, x: seq<bool>, y: seq<bool>, z: seq<bool>,
                      a': seq<T>, b': seq<T>, c': seq<T>)
    requires |a| == |x| && |b| == |y| && |c| == |z|
    requires Erase(a, x) == a' && Erase(b, y) == b' && Erase(c, z) == c'
    ensures Erase(a + b + c, x + y + z) == a' + b' + c'
  {
    hide *;
    EraseAppend(a + b, c, x + y, z);
    EraseAppend(a, b, x, y);
  }

  lemma ThreeParts<T>(s: seq<T>, p: nat, len: nat)
    requires p + len <= |s|
    ensures s == s[..p] + s[p..p + len] + s[p + len..]
  {
  }

  lemma AppendNothing<T>(a: seq<T>, c: seq<T>)
    ensures a + [] + c == a + c
  {
  }

  lemma EraseMiddle<T>(a: seq<T>, b: seq<T>, c: seq<T>, x: seq<bool>, y: seq<bool>, z: seq<bool>)
    requires x == Clear(|a|) && y == Full(|b|) && z == Clear(|c|)
    ensures Erase(a + b + c, x + y + z) == a + c
  {
    hide *;
    assert Erase(a, x) == a by { EraseClear(a); }
    assert Erase(b, y) == [] by { EraseFull(b); }
    assert Erase(c, z) == c by { EraseClear(c); }
    EraseThree(a, b, c, x, y, z, a, [], c);
    AppendNothing(a, c);
  }

  /** Erasing a range mask is cutting the range out. */
  lemma EraseRange<T>(s: seq<T>, p: nat, len: nat)
    requires p + len <= |s|
    ensures Erase(s, Range(|s|, p, len)) == Cut(s, p, len)
  {
    hide Erase, Survivors, Clear, Full;
    var a, b, c := s[..p], s[p..p + len], s[p + len..];
    calc {
      Erase(s, Range(|s|, p, len));
      { ThreeParts(s, p, len); }
      Erase(a + b + c, Clear(p) + Full(len) + Clear(|s| - p - len));
      { EraseMiddle(a, b, c, Clear(p), Full(len), Clear(|s| - p - len)); }
      a + c;
    }
  }

  /** The gap before p, past a range deletion. */
  lemma RankRange(n: nat, q: nat, len: nat, p: nat)
    requires q + len <= n && p <= n
    ensures Rank(Range(n, q, len), p) == if p >= q + len then p - len else if p < q then p else q
  {
    var prefix := Range(n, q, len)[..p];
    var cut := if p <= q then 0 else if p >= q + len then len else p - q;
    if p <= q {
      assert prefix == Clear(p);
      EraseClear(prefix);
    } else if p >= q + len {
      assert prefix == Range(p, q, len);
      EraseRange(prefix, q, len);
    } else {
      assert prefix == Range(p, q, p - q);
      EraseRange(prefix, q, p - q);
    }
  }

  /** Erasing splits at any gap, and the gap ends up at its rank. */
  lemma EraseAt<T>(s: seq<T>, m: seq<bool>, p: nat)
    requires |s| == |m| && p <= |s|
    ensures Rank(m, p) <= |Erase(s, m)|
    ensures Erase(s, m)[..Rank(m, p)] == Erase(s[..p], m[..p])
    ensures Erase(s, m)[Rank(m, p)..] == Erase(s[p..], m[p..])
  {
    EraseAppend(s[..p], s[p..], m[..p], m[p..]);
    assert s == s[..p] + s[p..] && m == m[..p] + m[p..];
  }

  /** One deletion after the other erases what either of them names. */
  lemma {:induction false} EraseTwice<T>(s: seq<T>, a: seq<bool>, b: seq<bool>)
    requires |s| == |a| == |b|
    ensures Erase(Erase(s, a), Erase(b, a)) == Erase(s, Or(a, b))
  {
    if s != [] {
      EraseTwice(s[1..], a[1..], b[1..]);
      assert Or(a, b)[1..] == Or(a[1..], b[1..]);
      var t, k := Erase(s[1..], a[1..]), Erase(b[1..], a[1..]);
      if a[0] {
        assert Erase(s, a) == t && Erase(b, a) == k;
      } else {
        assert Erase(s, a) == [s[0]] + t && Erase(b, a) == [b[0]] + k;
        assert Erase(s, a)[1..] == t && Erase(b, a)[1..] == k;
      }
    }
  }

  /** A gap past two deletions is the gap past their union. */
  lemma RankTwice(a: seq<bool>, b: seq<bool>, p: nat)
    requires |a| == |b| && p <= |a|
    ensures Rank(a, p) <= |Erase(b, a)|
    ensures Rank(Erase(b, a), Rank(a, p)) == Rank(Or(a, b), p)
  {
    EraseAt(b, a, p);
    EraseTwice(a[..p], a[..p], b[..p]);
    assert Or(a, b)[..p] == Or(a[..p], b[..p]);
  }

  lemma OrCommutes(a: seq<bool>, b: seq<bool>)
    requires |a| == |b|
    ensures Or(a, b) == Or(b, a)
  {
  }

  /** An insertion and a deletion of one document commute, once each is carried past the other. */
  lemma EraseSplice<T>(s: seq<T>, m: seq<bool>, p: nat, x: seq<T>)
    requires |s| == |m| && p <= |s|
    ensures Rank(m, p) <= |Erase(s, m)|
    ensures Erase(Splice(s, p, x), Splice(m, p, Clear(|x|))) == Splice(Erase(s, m), Rank(m, p), x)
  {
    EraseAt(s, m, p);
    EraseAppend(s[..p] + x, s[p..], m[..p] + Clear(|x|), m[p..]);
    EraseAppend(s[..p], x, m[..p], Clear(|x|));
    EraseClear(x);
  }

  /** A gap p past an insertion at q and a deletion, in either order. */
  lemma RankSplice(m: seq<bool>, q: nat, n: nat, p: nat)
    requires q <= |m| && p <= |m|
    ensures p <= q ==> Rank(Splice(m, q, Clear(n)), p) == Rank(m, p) <= Rank(m, q)
    ensures q <= p ==> Rank(Splice(m, q, Clear(n)), p + n) == Rank(m, p) + n && Rank(m, q) <= Rank(m, p)
  {
    var w := Splice(m, q, Clear(n));
    if p <= q {
      assert w[..p] == m[..p] && m[..q] == m[..p] + m[p..q];
      SurvivorsAppend(m[..p], m[p..q]);
    }
    if q <= p {
      assert w[..p + n] == m[..q] + Clear(n) + m[q..p] && m[..p] == m[..q] + m[q..p];
      SurvivorsAppend(m[..q] + Clear(n), m[q..p]);
      SurvivorsAppend(m[..q], Clear(n));
      SurvivorsAppend(m[..q], m[q..p]);
      EraseClear(Clear(n));
    }
  }

  /** Two insertions of one document commute; the one at the later gap moves. */
  lemma SpliceSplice<T>(s: seq<T>, p: nat, x: seq<T>, q: nat, y: seq<T>)
    requires p <= q <= |s|
    ensures Splice(Splice(s, p, x), q + |x|, y) == Splice(Splice(s, q, y), p, x)
  {
    var l, r := Splice(Splice(s, p, x), q + |x|, y), Splice(Splice(s, q, y), p, x);
    var w := s[..p] + x + s[p..q] + y + s[q..];
    assert Splice(s, p, x)[..q + |x|] == s[..p] + x + s[p..q];
    assert Splice(s, p, x)[q + |x|..] == s[q..];
    assert l == w;
    assert Splice(s, q, y)[..p] == s[..p];
    assert Splice(s, q, y)[p..] == s[p..q] + y + s[q..];
    assert r == w;
  }

  // ----- ranges -----

  lemma RangeIsRange(n: nat, p: nat, len: nat)
    requires p + len <= n
    ensures forall i :: 0 <= i < n ==> (Range(n, p, len)[i] <==> p <= i < p + len)
  {
  }

  /** How many characters two ranges share. */
  function Overlap(p: nat, len: nat, q: nat, k: nat): nat {
    var lo, hi := if p < q then q else p, if p + len < q + k then p + len else q + k;
    if lo < hi then hi - lo else 0
  }

  /** Where the gap at p goes when the range (q, k) goes. */
  function Shift(p: nat, q: nat, k: nat): nat {
    if p >= q + k then p - k else if p <= q then p else q
  }

  /** A range past a cut: it starts at the image of its start and loses what it shares. */
  lemma CutRange(n: nat, p: nat, len: nat, q: nat, k: nat)
    requires p + len <= n && q + k <= n
    ensures Shift(p, q, k) + (len - Overlap(p, len, q, k)) <= n - k
    ensures Cut(Range(n, p, len), q, k) == Range(n - k, Shift(p, q, k), len - Overlap(p, len, q, k))
  {
    var p', len' := Shift(p, q, k), len - Overlap(p, len, q, k);
    RangeIsRange(n, p, len);
    RangeIsRange(n - k, p', len');
    var l, r := Cut(Range(n, p, len), q, k), Range(n - k, p', len');
    forall i | 0 <= i < n - k
      ensures l[i] == r[i]
    {
      assert l[i] == Range(n, p, len)[if i < q then i else i + k];
    }
  }

  /** What is left of one range when another one is erased. */
  lemma EraseRangeFromRange(n: nat, p: nat, len: nat, q: nat, k: nat)
    requires p + len <= n && q + k <= n
    ensures Survivors(Range(n, q, k)) == n - k
    ensures Shift(p, q, k) + (len - Overlap(p, len, q, k)) <= n - k
    ensures Erase(Range(n, p, len), Range(n, q, k)) == Range(n - k, Shift(p, q, k), len - Overlap(p, len, q, k))
  {
    var m := Range(n, p, len);
    EraseRange(m, q, k);
    assert |Cut(m, q, k)| == n - k;
    CutRange(n, p, len, q, k);
  }

  /** A range that an insertion does not cut in two. */
  lemma SpliceRange(n: nat, p: nat, len: nat, q: nat, k: nat)
    requires p + len <= n && q <= n
    requires q <= p || p + len <= q
    ensures Splice(Range(n, p, len), q, Clear(k)) == Range(n + k, if p + len <= q then p else p + k, len)
  {
    RangeIsRange(n, p, len);
    RangeIsRange(n + k, if p + len <= q then p else p + k, len);
  }

  /** A range that an insertion cuts in two. */
  lemma SpliceRangeInside(n: nat, p: nat, len: nat, q: nat, k: nat)
    requires p + len <= n && p <= q <= p + len
    ensures Splice(Range(n, p, len), q, Clear(k))
         == Or(Range(n + k, p, q - p), Range(n + k, q + k, p + len - q))
  {
    RangeIsRange(n, p, len);
    RangeIsRange(n + k, p, q - p);
    RangeIsRange(n + k, q + k, p + len - q);
  }
}
