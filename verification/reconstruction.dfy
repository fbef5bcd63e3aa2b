/** A remote deletion knows a position and a length only.  On its way it collects the
    text that other deletions take out from under it, so that in the end the text it
    deleted can be put together again.

    Throughout, t is the text the deletion had to delete originally and s the document
    as it is now.  Positions in a recon list count from offset off of t. */
module Reconstruction {
  import opened Text
  import opened Masks
  import opened Operations
  import opened Effects
  import opened Truth

  // ----- a recon list and the text that is left -----

  /** n characters of s and of t agree. */
  ghost predicate SameText(s: seq<Cell>, i: nat, t: seq<Cell>, k: nat, n: nat) {
    i + n <= |s| && k + n <= |t| && forall j :: i <= j < i + n ==> s[j] == t[k + (j - i)]
  }

  lemma SameTextWithin(s: seq<Cell>, i: nat, t: seq<Cell>, k: nat, n: nat, a: nat, m: nat)
    requires SameText(s, i, t, k, n) && a + m <= n
    ensures SameText(s, i + a, t, k + a, m)
  {
  }

  /** The recon list and the characters of s from i to hi make up t from k to end: the
      list is sorted and disjoint, holds no empty text, and fills the gaps. */
  ghost predicate Records(recon: List<Recon>, off: nat, s: seq<Cell>, i: nat, hi: nat, t: seq<Cell>, k: nat, end: nat) {
    && i <= hi <= |s| && k <= end <= |t|
    && match recon
       case Nil =>
         hi - i == end - k && SameText(s, i, t, k, hi - i)
       case Cons(r, rest) =>
         var gap := off + r.position - k;
         && 0 <= gap && i + gap <= hi && r.chunk != [] && k + gap + |r.chunk| <= end
         && SameText(s, i, t, k, gap) && SameText(r.chunk, 0, t, k + gap, |r.chunk|)
         && Records(rest, off, s, i + gap, hi, t, k + gap + |r.chunk|, end)
  }

  function ReconLength(recon: List<Recon>): nat {
    match recon
    case Nil => 0
    case Cons(r, rest) => |r.chunk| + ReconLength(rest)
  }

  /** The first entry and what is known about it. */
  lemma FirstEntry(r: Recon, rest: List<Recon>, off: nat, s: seq<Cell>, i: nat, hi: nat, t: seq<Cell>, k: nat, end: nat)
    requires Records(Cons(r, rest), off, s, i, hi, t, k, end)
    ensures var gap := off + r.position - k;
      && 0 <= gap && i + gap <= hi <= |s| && r.chunk != [] && k + gap + |r.chunk| <= end <= |t|
      && SameText(s, i, t, k, gap) && SameText(r.chunk, 0, t, k + gap, |r.chunk|)
      && Records(rest, off, s, i + gap, hi, t, k + gap + |r.chunk|, end)
  {
  }

  /** Putting an entry in front. */
  lemma AddEntry(r: Recon, rest: List<Recon>, off: nat, s: seq<Cell>, i: nat, hi: nat, t: seq<Cell>, k: nat, end: nat)
    requires var gap := off + r.position - k;
      && 0 <= gap && i + gap <= hi <= |s| && r.chunk != [] && k + gap + |r.chunk| <= end <= |t|
      && SameText(s, i, t, k, gap) && SameText(r.chunk, 0, t, k + gap, |r.chunk|)
      && Records(rest, off, s, i + gap, hi, t, k + gap + |r.chunk|, end)
    ensures Records(Cons(r, rest), off, s, i, hi, t, k, end)
  {
  }

  lemma OnlyText(off: nat, s: seq<Cell>, i: nat, hi: nat, t: seq<Cell>, k: nat, end: nat)
    requires i <= hi && k <= end && hi - i == end - k && SameText(s, i, t, k, hi - i)
    ensures Records(Nil, off, s, i, hi, t, k, end)
  {
  }

  lemma LastText(off: nat, s: seq<Cell>, i: nat, hi: nat, t: seq<Cell>, k: nat, end: nat)
    requires Records(Nil, off, s, i, hi, t, k, end)
    ensures i <= hi <= |s| && k <= end <= |t| && hi - i == end - k && SameText(s, i, t, k, hi - i)
  {
  }

  lemma RecordsBounds(recon: List<Recon>, off: nat, s: seq<Cell>, i: nat, hi: nat, t: seq<Cell>, k: nat, end: nat)
    requires Records(recon, off, s, i, hi, t, k, end)
    ensures i <= hi <= |s| && k <= end <= |t|
  {
  }

  /** The same characters may stand elsewhere in another document. */
  lemma {:induction false} RecordsMove(recon: List<Recon>, off: nat, s: seq<Cell>, i: nat, hi: nat,
                                       t: seq<Cell>, k: nat, end: nat, s': seq<Cell>, i': nat)
    requires Records(recon, off, s, i, hi, t, k, end)
    requires i' + (hi - i) <= |s'| && forall j :: i' <= j < i' + (hi - i) ==> s'[j] == s[j - i' + i]
    ensures Records(recon, off, s', i', i' + (hi - i), t, k, end)
  {
    match recon
    case Nil =>
    case Cons(r, rest) =>
      var gap := off + r.position - k;
      RecordsMove(rest, off, s, i + gap, hi, t, k + gap + |r.chunk|, end, s', i' + gap);
  }

  /** Nothing is lost. */
  lemma {:induction false} RecordsLength(recon: List<Recon>, off: nat, s: seq<Cell>, i: nat, hi: nat,
                                         t: seq<Cell>, k: nat, end: nat)
    requires Records(recon, off, s, i, hi, t, k, end)
    ensures (hi - i) + ReconLength(recon) == end - k
  {
    match recon
    case Nil =>
    case Cons(r, rest) =>
      var gap := off + r.position - k;
      RecordsLength(rest, off, s, i + gap, hi, t, k + gap + |r.chunk|, end);
  }

  // ----- feeding -----

  /** One feeding: in document s the text to delete starts at lo and ends at hi, and chunk
      stands begin characters into it; in s' it is missing, and so are d characters before lo. */
  datatype Feeding = Feeding(off: nat, t: seq<Cell>, end: nat, s: seq<Cell>, lo: nat, hi: nat,
                             begin: nat, chunk: seq<Cell>, d: nat, s': seq<Cell>)
  {
    ghost predicate Valid() {
      var q, len := lo + begin, |chunk|;
      && d <= lo && q + len <= hi <= |s| && hi - len - d <= |s'|
      && (forall j :: 0 <= j < len ==> chunk[j] == s[q + j])
      && (forall j :: lo - d <= j < q - d ==> s'[j] == s[j + d])
      && (forall j :: q - d <= j < hi - len - d ==> s'[j] == s[j + len + d])
    }

    lemma Bounds()
      requires Valid()
      ensures d <= lo && lo + begin + |chunk| <= hi <= |s| && hi - |chunk| - d <= |s'|
    {
    }

    /** Everything before character i of s, which is character k of t, has been dealt
        with: u characters of chunk and curLen of recorded text. */
    ghost predicate At(i: nat, k: nat, u: nat, curLen: nat) {
      && lo <= i && k == off + (i - lo) + curLen
      && ((u == 0 && i <= lo + begin) || (0 < u < |chunk| && i == lo + begin + u)
          || (u == |chunk| && lo + begin + u <= i))
    }

    ghost predicate Before(recon: List<Recon>, i: nat, k: nat) {
      Records(recon, off, s, i, hi, t, k, end)
    }

    /** What is to hold of the new list. */
    ghost predicate After(fed: List<Recon>, i: nat, k: nat, u: nat) {
      d + u <= i && |chunk| + d <= hi && Records(fed, off, s', i - d - u, hi - d - |chunk|, t, k, end)
    }

    /** How much of chunk goes in front of the entry r. */
    function Piece(r: Recon, u: nat, curLen: nat): int {
      var at := begin + u + curLen;
      if r.position - at > |chunk| - u then |chunk| - u else r.position - at
    }
  }

  /** Feeding keeps t. */
  lemma {:induction false} FeedRecords(f: Feeding, recon: List<Recon>, i: nat, k: nat, u: nat, curLen: nat)
    requires f.Valid() && f.At(i, k, u, curLen) && f.Before(recon, i, k)
    ensures f.After(FeedFrom(recon, f.begin, f.chunk, u, curLen), i, k, u)
  {
    hide Records, Feeding.Valid, Feeding.At;
    match recon
    case Nil => FeedLast(f, i, k, u, curLen);
    case Cons(r, rest) =>
      var gap := f.off + r.position - k;
      var n := if f.begin + u + curLen < r.position && u < |f.chunk| then f.Piece(r, u, curLen) else 0;
      FeedStep(f, r, rest, i, k, u, curLen, n);
      FeedRecords(f, rest, i + gap, k + gap + |r.chunk|, u + n, curLen + |r.chunk|);
      var fed := FeedFrom(rest, f.begin, f.chunk, u + n, curLen + |r.chunk|);
      if n > 0 {
        FeedEntry(f, r, rest, i, k, u, curLen, n, fed);
        FeedNewEntry(f, r, rest, i, k, u, curLen, n, fed);
      } else {
        FeedOldEntry(f, r, rest, i, k, u, curLen, fed);
      }
  }

  /** Going on behind the entry r. */
  lemma FeedStep(f: Feeding, r: Recon, rest: List<Recon>, i: nat, k: nat, u: nat, curLen: nat, n: nat)
    requires f.Valid() && f.At(i, k, u, curLen) && f.Before(Cons(r, rest), i, k)
    requires n == if f.begin + u + curLen < r.position && u < |f.chunk| then f.Piece(r, u, curLen) else 0
    ensures var gap := f.off + r.position - k;
      f.At(i + gap, k + gap + |r.chunk|, u + n, curLen + |r.chunk|) && f.Before(rest, i + gap, k + gap + |r.chunk|)
  {
  }

  /** What is recorded behind the last entry. */
  lemma FeedLast(f: Feeding, i: nat, k: nat, u: nat, curLen: nat)
    requires f.Valid() && f.At(i, k, u, curLen) && f.Before(Nil, i, k)
    ensures f.After(FeedFrom(Nil, f.begin, f.chunk, u, curLen), i, k, u)
  {
    hide Records, SameText, Feeding.Valid;
    f.Bounds();
    var len, i', hi' := |f.chunk|, i - f.d - u, f.hi - f.d - |f.chunk|;
    LastText(f.off, f.s, i, f.hi, f.t, k, f.end);
    if u < len {
      var e, gap := Recon(f.begin + u + curLen, f.chunk[u..]), f.lo + f.begin + u - i;
      assert e.chunk == f.chunk[u..u + (len - u)];
      TextBefore(f, i, k, u, gap, f.hi - i);
      NewChunk(f, i, k, u, gap, len - u, f.hi - i);
      TextBehind(f, i, k, gap, f.hi - i);
      OnlyText(f.off, f.s', i' + gap, hi', f.t, k + gap + len - u, f.end);
      AddEntry(e, Nil, f.off, f.s', i', hi', f.t, k, f.end);
    } else {
      TextBefore(f, i, k, u, f.hi - i, f.hi - i);
      OnlyText(f.off, f.s', i', hi', f.t, k, f.end);
    }
  }

  /** The entry r behind what is recorded in front of it. */
  lemma FeedEntry(f: Feeding, r: Recon, rest: List<Recon>, i: nat, k: nat, u: nat, curLen: nat, n: nat,
                  fed: List<Recon>)
    requires f.Valid() && f.At(i, k, u, curLen) && f.Before(Cons(r, rest), i, k)
    requires f.begin + u + curLen < r.position && u < |f.chunk| && n == f.Piece(r, u, curLen)
    requires var gap := f.off + r.position - k; f.After(fed, i + gap, k + gap + |r.chunk|, u + n)
    ensures var q := f.lo + f.begin;
      Records(Cons(r, fed), f.off, f.s', q - f.d, f.hi - f.d - |f.chunk|, f.t, k + (q + u - i) + n, f.end)
  {
    hide Records, SameText, Feeding.Valid;
    f.Bounds();
    var q, g := f.lo + f.begin, f.off + r.position - k;
    var k1, hi' := k + (q + u - i) + n, f.hi - f.d - |f.chunk|;
    FirstEntry(r, rest, f.off, f.s, i, f.hi, f.t, k, f.end);
    RecordsBounds(fed, f.off, f.s', i + g - f.d - (u + n), hi', f.t, k + g + |r.chunk|, f.end);
    if u + n == |f.chunk| {
      TextBehind(f, i, k, q + u - i, g);
    } else {
      NoText(f.s', q - f.d, f.t, k1);
    }
    AddEntry(r, fed, f.off, f.s', q - f.d, hi', f.t, k1, f.end);
  }

  lemma NoText(s: seq<Cell>, i: nat, t: seq<Cell>, k: nat)
    requires i <= |s| && k <= |t|
    ensures SameText(s, i, t, k, 0)
  {
  }

  /** What is recorded in front of the entry r. */
  lemma FeedNewEntry(f: Feeding, r: Recon, rest: List<Recon>, i: nat, k: nat, u: nat, curLen: nat, n: nat,
                     fed: List<Recon>)
    requires f.Valid() && f.At(i, k, u, curLen) && f.Before(Cons(r, rest), i, k)
    requires f.begin + u + curLen < r.position && u < |f.chunk| && n == f.Piece(r, u, curLen)
    requires var q := f.lo + f.begin;
      Records(Cons(r, fed), f.off, f.s', q - f.d, f.hi - f.d - |f.chunk|, f.t, k + (q + u - i) + n, f.end)
    ensures f.After(Cons(Recon(f.begin + u + curLen, f.chunk[u..u + n]), Cons(r, fed)), i, k, u)
  {
    hide Records, SameText, Feeding.Valid;
    f.Bounds();
    var gap, q, g := f.lo + f.begin + u - i, f.lo + f.begin, f.off + r.position - k;
    FirstEntry(r, rest, f.off, f.s, i, f.hi, f.t, k, f.end);
    RecordsBounds(Cons(r, fed), f.off, f.s', q - f.d, f.hi - f.d - |f.chunk|, f.t, k + gap + n, f.end);
    TextBefore(f, i, k, u, gap, g);
    NewChunk(f, i, k, u, gap, n, g);
    AddEntry(Recon(f.begin + u + curLen, f.chunk[u..u + n]), Cons(r, fed), f.off, f.s', i - f.d - u,
             f.hi - f.d - |f.chunk|, f.t, k, f.end);
  }

  /** An entry that stands before what is left to be recorded. */
  lemma FeedOldEntry(f: Feeding, r: Recon, rest: List<Recon>, i: nat, k: nat, u: nat, curLen: nat, fed: List<Recon>)
    requires f.Valid() && f.At(i, k, u, curLen) && f.Before(Cons(r, rest), i, k)
    requires r.position <= f.begin + u + curLen || u == |f.chunk|
    requires var gap := f.off + r.position - k; f.After(fed, i + gap, k + gap + |r.chunk|, u)
    ensures f.After(Cons(r, fed), i, k, u)
  {
    hide Records, SameText, Feeding.Valid;
    f.Bounds();
    var gap, i', hi' := f.off + r.position - k, i - f.d - u, f.hi - f.d - |f.chunk|;
    FirstEntry(r, rest, f.off, f.s, i, f.hi, f.t, k, f.end);
    TextBefore(f, i, k, u, gap, gap);
    RecordsBounds(fed, f.off, f.s', i' + gap, hi', f.t, k + gap + |r.chunk|, f.end);
    AddEntry(r, fed, f.off, f.s', i', hi', f.t, k, f.end);
  }

  /** The text in front of an entry is where it was, but for what was cut out before it. */
  lemma TextBefore(f: Feeding, i: nat, k: nat, u: nat, gap: nat, g: nat)
    requires f.Valid() && u <= |f.chunk| && f.lo <= i && gap <= g && i + g <= f.hi && SameText(f.s, i, f.t, k, g)
    requires (u == 0 && i + gap <= f.lo + f.begin) || (i == f.lo + f.begin + u && gap == 0)
          || (u == |f.chunk| && f.lo + f.begin + u <= i) || f.chunk == []
    ensures f.d + u <= i && SameText(f.s', i - f.d - u, f.t, k, gap)
  {
    forall j | i - f.d - u <= j < i - f.d - u + gap
      ensures f.s'[j] == f.t[k + (j - (i - f.d - u))]
    {
      assert f.s'[j] == f.s[j + f.d + u];
    }
  }

  /** The text behind chunk closes up. */
  lemma TextBehind(f: Feeding, i: nat, k: nat, gap: nat, g: nat)
    requires f.Valid() && f.lo <= i && i + gap <= f.lo + f.begin + |f.chunk| <= i + g <= f.hi
    requires SameText(f.s, i, f.t, k, g)
    ensures var q, behind := f.lo + f.begin, f.lo + f.begin + |f.chunk| - i;
      SameText(f.s', q - f.d, f.t, k + behind, g - behind)
  {
    var q, behind := f.lo + f.begin, f.lo + f.begin + |f.chunk| - i;
    forall j | q - f.d <= j < q - f.d + (g - behind)
      ensures f.s'[j] == f.t[k + behind + (j - (q - f.d))]
    {
      assert f.s'[j] == f.s[j + |f.chunk| + f.d];
    }
  }

  /** The piece of chunk that goes in front of an entry is part of t. */
  lemma NewChunk(f: Feeding, i: nat, k: nat, u: nat, gap: nat, n: nat, g: nat)
    requires f.Valid() && gap == f.lo + f.begin + u - i && u + n <= |f.chunk| && gap + n <= g
    requires i + g <= f.hi && SameText(f.s, i, f.t, k, g)
    ensures SameText(f.chunk[u..u + n], 0, f.t, k + gap, n)
  {
    var x := f.chunk[u..u + n];
    forall j | 0 <= j < n
      ensures x[j] == f.t[k + gap + (j - 0)]
    {
      assert x[j] == f.chunk[u + j] == f.s[i + gap + j];
    }
  }

  // ----- splitting -----

  /** Behind the split every entry goes to the second part, counted from its start. */
  lemma {:induction false} SplitBehind(recon: List<Recon>, off: nat, s: seq<Cell>, i: nat, hi: nat, t: seq<Cell>,
                                       k: nat, end: nat, splitPos: nat, curLen: nat)
    requires Records(recon, off, s, i, hi, t, k, end) && off + splitPos + curLen < k
    ensures var parts := SplitReconFrom(recon, splitPos, curLen);
      && parts.Done? && parts.value.first == Nil && parts.value.curLen == curLen
      && Records(parts.value.second, off + splitPos + curLen, s, i, hi, t, k, end)
  {
    match recon
    case Nil =>
    case Cons(r, rest) =>
      var gap := off + r.position - k;
      SplitBehind(rest, off, s, i + gap, hi, t, k + gap + |r.chunk|, end, splitPos, curLen);
  }

  /** Splitting at character m of s: the entries up to it stay with the text before it. */
  lemma {:induction false} SplitRecords(recon: List<Recon>, off: nat, s: seq<Cell>, i: nat, m: nat, hi: nat,
                                        t: seq<Cell>, k: nat, end: nat, lo: nat, curLen: nat)
    requires Records(recon, off, s, i, hi, t, k, end) && lo <= i <= m <= hi && k == off + (i - lo) + curLen
    ensures SplitReconFrom(recon, m - lo, curLen).Done?
    ensures var parts := SplitReconFrom(recon, m - lo, curLen).value; var mid := off + (m - lo) + parts.curLen;
      && mid == k + (m - i) + ReconLength(parts.first)
      && Records(parts.first, off, s, i, m, t, k, mid) && Records(parts.second, mid, s, m, hi, t, mid, end)
  {
    hide Records, SameText;
    match recon
    case Nil => SplitText(off, s, i, m, hi, t, k, end);
    case Cons(r, rest) =>
      var gap := off + r.position - k;
      FirstEntry(r, rest, off, s, i, hi, t, k, end);
      if i + gap <= m {
        SplitRecords(rest, off, s, i + gap, m, hi, t, k + gap + |r.chunk|, end, lo, curLen + |r.chunk|);
        var parts := SplitReconFrom(rest, m - lo, curLen + |r.chunk|).value;
        var mid := off + (m - lo) + parts.curLen;
        RecordsBounds(parts.first, off, s, i + gap, m, t, k + gap + |r.chunk|, mid);
        RecordsBounds(parts.second, mid, s, m, hi, t, mid, end);
        AddEntry(r, parts.first, off, s, i, m, t, k, mid);
      } else {
        SplitAfter(r, rest, off, s, i, m, hi, t, k, end, m - lo, curLen);
      }
  }

  lemma SplitText(off: nat, s: seq<Cell>, i: nat, m: nat, hi: nat, t: seq<Cell>, k: nat, end: nat)
    requires Records(Nil, off, s, i, hi, t, k, end) && i <= m <= hi
    ensures Records(Nil, off, s, i, m, t, k, k + (m - i)) && Records(Nil, k + (m - i), s, m, hi, t, k + (m - i), end)
  {
  }

  /** All entries lie behind the split. */
  lemma SplitAfter(r: Recon, rest: List<Recon>, off: nat, s: seq<Cell>, i: nat, m: nat, hi: nat,
                   t: seq<Cell>, k: nat, end: nat, splitPos: nat, curLen: nat)
    requires Records(Cons(r, rest), off, s, i, hi, t, k, end)
    requires i <= m <= hi && k + (m - i) == off + splitPos + curLen < off + r.position
    ensures var parts := SplitReconFrom(Cons(r, rest), splitPos, curLen); var mid := k + (m - i);
      && parts.Done? && parts.value.first == Nil && parts.value.curLen == curLen
      && Records(Nil, off, s, i, m, t, k, mid) && Records(parts.value.second, mid, s, m, hi, t, mid, end)
  {
    hide Records, SameText;
    var gap, mid := off + r.position - k, k + (m - i);
    FirstEntry(r, rest, off, s, i, hi, t, k, end);
    SameTextWithin(s, i, t, k, gap, 0, m - i);
    OnlyText(off, s, i, m, t, k, mid);
    SameTextWithin(s, i, t, k, gap, m - i, i + gap - m);
    SplitBehind(rest, off, s, i + gap, hi, t, k + gap + |r.chunk|, end, splitPos, curLen);
    var parts := SplitReconFrom(rest, splitPos, curLen).value;
    AddEntry(Recon(r.position - (splitPos + curLen), r.chunk), parts.second, mid, s, m, hi, t, mid, end);
  }

  // ----- a remote deletion on its way -----

  /** How many characters of the original text d stands for. */
  function Span(d: Deletion): nat {
    match d
    case DefaultDelete(_, chunk) => |chunk|
    case RemoteDelete(_, length, recon, _) => length + ReconLength(recon)
    case SplitDelete(a, b) => Span(a) + Span(b)
  }

  /** In document s, d and what it has recorded make up t from k on: every leaf starts at
      its recon offset, and the leaves follow one another. */
  ghost predicate Recovers(d: Deletion, s: seq<Cell>, t: seq<Cell>, k: nat) {
    match d
    case DefaultDelete(_, _) => false
    case RemoteDelete(p, length, recon, off) => off == k && Records(recon, k, s, p, p + length, t, k, k + Span(d))
    case SplitDelete(a, b) => Recovers(a, s, t, k) && Recovers(b, s, t, k + Span(a))
  }

  lemma {:induction false} RecoversFits(d: Deletion, s: seq<Cell>, t: seq<Cell>, k: nat)
    requires Recovers(d, s, t, k)
    ensures Fits(d, |s|) && k + Span(d) <= |t|
  {
    if d.SplitDelete? {
      RecoversFits(d.first, s, t, k);
      RecoversFits(d.second, s, t, k + Span(d.first));
    }
  }

  /** An insertion takes nothing from the text a deletion recovers. */
  lemma {:induction false} RecoversPastInsert(d: Deletion, s: seq<Cell>, t: seq<Cell>, k: nat, p: nat, x: seq<Cell>)
    requires Recovers(d, s, t, k) && p <= |s|
    ensures DeletionAgainstInsert(d, p, |x|).Done?
    ensures var d' := DeletionAgainstInsert(d, p, |x|).value;
      Recovers(d', Splice(s, p, x), t, k) && Span(d') == Span(d)
  {
    if d.SplitDelete? {
      RecoversPastInsert(d.first, s, t, k, p, x);
      RecoversPastInsert(d.second, s, t, k + Span(d.first), p, x);
    } else if d.position < p < d.position + d.length {
      LeafSplits(d, s, t, k, p, x);
    } else {
      LeafMoves(d, s, t, k, p, x);
    }
  }

  lemma LeafMoves(d: Deletion, s: seq<Cell>, t: seq<Cell>, k: nat, p: nat, x: seq<Cell>)
    requires d.RemoteDelete? && Recovers(d, s, t, k) && p <= |s|
    requires p <= d.position || d.position + d.length <= p
    ensures LeafAgainstInsert(d, p, |x|).Done?
    ensures var d' := LeafAgainstInsert(d, p, |x|).value;
      Recovers(d', Splice(s, p, x), t, k) && Span(d') == Span(d)
  {
    hide Records;
    var q, hi := d.position, d.position + d.length;
    RecordsBounds(d.recon, k, s, q, hi, t, k, k + Span(d));
    RecordsMove(d.recon, k, s, q, hi, t, k, k + Span(d), Splice(s, p, x), if hi <= p then q else q + |x|);
  }

  lemma LeafSplits(d: Deletion, s: seq<Cell>, t: seq<Cell>, k: nat, p: nat, x: seq<Cell>)
    requires d.RemoteDelete? && Recovers(d, s, t, k) && d.position < p < d.position + d.length && p <= |s|
    ensures TransformSplit(d, p - d.position, |x|).Done?
    ensures var d' := TransformSplit(d, p - d.position, |x|).value;
      Recovers(d', Splice(s, p, x), t, k) && Span(d') == Span(d)
  {
    hide Records, SplitReconFrom;
    var q, hi, end, s' := d.position, d.position + d.length, k + Span(d), Splice(s, p, x);
    RecordsBounds(d.recon, k, s, q, hi, t, k, end);
    SplitRecords(d.recon, k, s, q, p, hi, t, k, end, q, 0);
    var parts := SplitReconFrom(d.recon, p - q, 0).value;
    var mid := k + (p - q) + parts.curLen;
    RecordsLength(parts.second, mid, s, p, hi, t, mid, end);
    RecordsMove(parts.first, k, s, q, p, t, k, mid, s', q);
    RecordsMove(parts.second, mid, s, p, hi, t, mid, end, s', p + |x|);
  }

  /** The feeding of a remote leaf past a default leaf: what they share, and how much of
      the other one lies before. */
  function Shared(d: Deletion, e: Deletion, s: seq<Cell>, t: seq<Cell>): Feeding
    requires d.RemoteDelete? && e.DefaultDelete? && Fits(e, |s|)
  {
    var q, k, p, len := d.position, d.length, e.position, |e.chunk|;
    var begin, otherBegin := CutBegin(q, k, p), if p <= q then if q - p <= len then q - p else len else 0;
    var l := Overlap(q, k, p, len);
    Feeding(d.reconOffset, t, d.reconOffset + Span(d), s, q, q + k, begin,
            if otherBegin + l <= len then e.chunk[otherBegin..otherBegin + l] else [],
            q - Shift(q, p, len), Cut(s, p, len))
  }

  /** A remote leaf that overlaps with a default one gives what they share to its recon list. */
  lemma OverlapFeeds(d: Deletion, e: Deletion, s: seq<Cell>, t: seq<Cell>)
    requires d.RemoteDelete? && e.DefaultDelete? && Fits(e, |s|)
    requires !(d.position + d.length <= e.position || d.position >= e.position + |e.chunk|)
    ensures var f := Shared(d, e, s, t);
      && LeafAgainstLeaf(d, e) == Done(RemoteDelete(d.position - f.d, d.length - |f.chunk|,
                                                    ReconFeed(d.recon, f.begin, f.chunk), d.reconOffset))
  {
  }

  /** The cut begins at p and the text to delete at lo; chunk is what they share. */
  lemma CutFeeds(f: Feeding, p: nat, len: nat)
    requires f.lo <= f.hi <= |f.s| && p + len <= |f.s| && f.s' == Cut(f.s, p, len)
    requires Stands(f.chunk, f.s, f.lo + f.begin) && p < f.hi && f.lo < p + len
    requires if p <= f.lo then f.begin == 0 && f.d == f.lo - p else f.begin == p - f.lo && f.d == 0
    requires f.lo + f.begin + |f.chunk| == if p + len <= f.hi then p + len else f.hi
    ensures f.Valid()
  {
    hide Stands;
    StandsAt(f.chunk, f.s, f.lo + f.begin);
    var q, k := f.lo + f.begin, |f.chunk|;
    if p > f.lo {
      assert f.d == 0 && q == p;
    }
    if p + len <= f.hi {
      assert k + f.d == len && q - f.d == p;
    } else {
      assert f.hi - k - f.d == q - f.d;
    }
  }

  lemma SharedValid(d: Deletion, e: Deletion, s: seq<Cell>, t: seq<Cell>)
    requires d.RemoteDelete? && e.DefaultDelete? && Truthful(e, s) && Fits(d, |s|) && Fits(e, |s|)
    requires !(d.position + d.length <= e.position || d.position >= e.position + |e.chunk|)
    ensures Shared(d, e, s, t).Valid()
  {
    hide Cut, Stands, Feeding.Valid;
    var q, k, p, len := d.position, d.length, e.position, |e.chunk|;
    var f, l, ob := Shared(d, e, s, t), Overlap(q, k, p, len), if p <= q then q - p else 0;
    assert 0 <= ob && ob + l <= len && p + ob == q + f.begin;
    StandsWithin(e.chunk, s, p, ob, l);
    CutFeeds(f, p, len);
  }

  lemma StandsWithin(chunk: seq<Cell>, s: seq<Cell>, p: nat, a: nat, l: nat)
    requires Stands(chunk, s, p) && a + l <= |chunk|
    ensures Stands(chunk[a..a + l], s, p + a)
  {
  }

  lemma StandsAt(chunk: seq<Cell>, s: seq<Cell>, p: nat)
    requires Stands(chunk, s, p)
    ensures forall j :: 0 <= j < |chunk| ==> chunk[j] == s[p + j]
  {
  }

  /** A truthful default leaf takes nothing from the text a remote leaf recovers. */
  lemma RecoversPastLeaf(d: Deletion, e: Deletion, s: seq<Cell>, t: seq<Cell>, k: nat)
    requires d.RemoteDelete? && Recovers(d, s, t, k) && e.DefaultDelete? && Truthful(e, s)
    ensures LeafAgainstLeaf(d, e).Done?
    ensures var d' := LeafAgainstLeaf(d, e).value;
      Recovers(d', Cut(s, e.position, |e.chunk|), t, k) && Span(d') == Span(d)
  {
    hide Records, Cut, FeedFrom;
    var q, hi, end, s' := d.position, d.position + d.length, k + Span(d), Cut(s, e.position, |e.chunk|);
    RecordsBounds(d.recon, k, s, q, hi, t, k, end);
    if d.position + d.length <= e.position || d.position >= e.position + |e.chunk| {
      LeafApart(d, e, s, t, k);
    } else {
      var f := Shared(d, e, s, t);
      OverlapFeeds(d, e, s, t);
      TruthfulFits(e, s);
      SharedValid(d, e, s, t);
      FeedRecords(f, d.recon, q, k, 0, 0);
      var recon := ReconFeed(d.recon, f.begin, f.chunk);
      RecordsLength(recon, k, s', q - f.d, hi - f.d - |f.chunk|, t, k, end);
    }
  }

  lemma LeafApart(d: Deletion, e: Deletion, s: seq<Cell>, t: seq<Cell>, k: nat)
    requires d.RemoteDelete? && Recovers(d, s, t, k) && e.DefaultDelete? && Truthful(e, s)
    requires d.position + d.length <= e.position || d.position >= e.position + |e.chunk|
    ensures LeafAgainstLeaf(d, e).Done?
    ensures var d' := LeafAgainstLeaf(d, e).value;
      Recovers(d', Cut(s, e.position, |e.chunk|), t, k) && Span(d') == Span(d)
  {
    hide Records;
    var q, hi := d.position, d.position + d.length;
    RecordsBounds(d.recon, k, s, q, hi, t, k, k + Span(d));
    RecordsMove(d.recon, k, s, q, hi, t, k, k + Span(d), Cut(s, e.position, |e.chunk|),
                if hi <= e.position then q else q - |e.chunk|);
  }

  /** A truthful default deletion, split or not, takes nothing from the text a deletion recovers. */
  lemma {:induction false} RecoversPastDeletion(d: Deletion, e: Deletion, s: seq<Cell>, t: seq<Cell>, k: nat)
    requires Recovers(d, s, t, k) && AllDefault(e) && Truthful(e, s)
    ensures Fits(e, |s|) && DeletionAgainstDeletion(d, e).Done?
    ensures var d' := DeletionAgainstDeletion(d, e).value;
      Recovers(d', Erase(s, Mask(e, |s|)), t, k) && Span(d') == Span(d)
    decreases Size(e), Size(d)
  {
    TruthfulFits(e, s);
    if e.SplitDelete? {
      RecoversPastSplit(d, e, s, t, k);
    } else if d.SplitDelete? {
      RecoversPastDeletion(d.first, e, s, t, k);
      RecoversPastDeletion(d.second, e, s, t, k + Span(d.first));
    } else {
      RecoversPastLeaf(d, e, s, t, k);
      EraseRange(s, e.position, |e.chunk|);
    }
  }

  lemma {:induction false} RecoversPastSplit(d: Deletion, e: Deletion, s: seq<Cell>, t: seq<Cell>, k: nat)
    requires Recovers(d, s, t, k) && AllDefault(e) && Truthful(e, s) && e.SplitDelete? && Fits(e, |s|)
    ensures DeletionAgainstDeletion(d, e).Done?
    ensures var d' := DeletionAgainstDeletion(d, e).value;
      Recovers(d', Erase(s, Mask(e, |s|)), t, k) && Span(d') == Span(d)
    decreases Size(e), 0
  {
    hide Erase, Survivors, Or, Recovers, Truthful, Span;
    TruthfulParts(e, s);
    var n, e1 := |s|, DeletionAgainstDeletion(e.second, e.first).value;
    RecoversPastDeletion(d, e.first, s, t, k);
    TruthfulPastDeletion(e.second, e.first, s);
    RecoversPastDeletion(DeletionAgainstDeletion(d, e.first).value, e1, Erase(s, Mask(e.first, n)), t, k);
    DeletionAgainstDeletionMask(e.second, e.first, n);
    EraseTwice(s, Mask(e.first, n), Mask(e.second, n));
  }

  lemma TruthfulParts(e: Deletion, s: seq<Cell>)
    requires e.SplitDelete? && Truthful(e, s)
    ensures Truthful(e.first, s) && Truthful(e.second, s)
  {
  }

  /** What was recorded where a remote deletion is cut in two stays with the first part. */
  lemma RecordedAtTheCut(position: nat, length: nat, k: nat, x: seq<Cell>, offset: nat, len: nat)
    requires k <= length
    ensures TransformSplit(RemoteDelete(position, length, Cons(Recon(k, x), Nil), offset), k, len)
         == Done(SplitDelete(RemoteDelete(position, k, Cons(Recon(k, x), Nil), offset),
                             RemoteDelete(position + k + len, length - k, Nil, offset + k + |x|)))
  {
    assert SplitReconFrom(Nil, k, |x|) == Done(ReconSplit(Nil, Nil, |x|));
    assert SplitReconFrom(Cons(Recon(k, x), Nil), k, 0) == Done(ReconSplit(Cons(Recon(k, x), Nil), Nil, |x|));
  }
}
