/** The caret and the selection of a user, carried through the edits of others. */
module Selections {
  import opened Text
  import opened Masks
  import opened Operations
  import opened Effects
  import opened Siblings

  /** The caret stands at position; the selection reaches from there over length characters,
      towards the beginning if length is negative. */
  datatype Selection = Selection(position: int, length: int) {
    function Low(): int { if length < 0 then position + length else position }

    function High(): int { if length < 0 then position else position + length }

    predicate Within(n: nat) { 0 <= Low() && High() <= n }
  }

  function MoveAgainstInsert(s: Selection, insertPosition: nat, insertLength: nat, leftGravity: bool): Selection {
    var curPos, curBound := s.position, s.position + s.length;
    if curPos == curBound then
      if insertPosition < curPos || (insertPosition == curPos && !leftGravity)
      then Selection(curPos + insertLength, 0) else s
    else if curBound > curPos then
      if insertPosition <= curPos then s.(position := curPos + insertLength)
      else if insertPosition < curBound then s.(length := curBound + insertLength - curPos)
      else s
    else
      if insertPosition <= curBound then s.(position := curPos + insertLength)
      else if insertPosition < curPos then Selection(curPos + insertLength, curBound - (curPos + insertLength))
      else s
  }

  function CaretAgainstLeaf(curPos: int, deletePosition: nat, deleteLength: nat): int {
    if curPos >= deletePosition + deleteLength then curPos - deleteLength
    else if curPos > deletePosition then deletePosition
    else curPos
  }

  function MoveAgainstLeaf(s: Selection, deletePosition: nat, deleteLength: nat): (r: Outcome<Selection>)
    ensures r.Done?
  {
    var curPos, curLen, deleteEnd := s.position, s.length, deletePosition + deleteLength;
    var position := CaretAgainstLeaf(curPos, deletePosition, deleteLength);
    if curLen < 0 then
      if deleteEnd <= curPos + curLen then Done(Selection(position, curLen))
      else if deletePosition >= curPos then Done(Selection(position, curLen))
      else if deletePosition <= curPos + curLen && deleteEnd >= curPos then Done(Selection(position, 0))
      else if deletePosition <= curPos + curLen && deleteEnd > curPos + curLen then
        Done(Selection(position, -(curPos - deleteEnd)))
      else if deletePosition > curPos + curLen && deleteEnd > curPos then
        Done(Selection(position, deletePosition - (curPos + curLen)))
      else if deletePosition > curPos + curLen && deleteEnd <= curPos then
        Done(Selection(position, curLen + deleteLength))
      else AssertionFailed
    else
      if deleteEnd <= curPos then Done(Selection(position, curLen))
      else if deletePosition >= curPos + curLen then Done(Selection(position, curLen))
      else if deletePosition <= curPos && deleteEnd >= curPos + curLen then Done(Selection(position, 0))
      else if deletePosition <= curPos && deleteEnd > curPos then
        Done(Selection(position, curPos + curLen - deleteEnd))
      else if deletePosition > curPos && deleteEnd > curPos + curLen then
        Done(Selection(position, curPos - deletePosition))
      else if deletePosition > curPos && deleteEnd <= curPos + curLen then
        Done(Selection(position, curLen - deleteLength))
      else AssertionFailed
  }

  /** A selection past a deletion; past a split it goes past one part and then past the other. */
  function MoveAgainstDeletion(s: Selection, against: Deletion): Outcome<Selection>
    decreases Size(against)
  {
    if against.SplitDelete? then
      var t :- MoveAgainstDeletion(s, against.first);
      var second :- DeletionAgainstDeletion(against.second, against.first);
      MoveAgainstDeletion(t, second)
    else MoveAgainstLeaf(s, against.position, Length(against))
  }

  /** The characters that are selected in a document of n characters. */
  function Selected(s: Selection, n: nat): seq<bool>
    requires s.Within(n)
  {
    Range(n, s.Low(), s.High() - s.Low())
  }

  // ----- insertions -----

  /** What was selected stays selected, and of the new text exactly what comes in strictly
      inside the selection; the caret stays at its end of the selection. */
  lemma SelectedPastInsert(s: Selection, q: nat, k: nat, leftGravity: bool, n: nat)
    requires s.Within(n) && q <= n && s.length != 0
    ensures var t := MoveAgainstInsert(s, q, k, leftGravity);
      && t.Within(n + k) && (t.length < 0 <==> s.length < 0)
      && Selected(t, n + k) == Splice(Selected(s, n), q, if s.Low() < q < s.High() then Full(k) else Clear(k))
  {
    hide Range, Splice, Full, Clear;
    if s.Low() < q < s.High() {
      SpliceIntoRange(n, s.Low(), s.High() - s.Low(), q, k);
    } else {
      SpliceRange(n, s.Low(), s.High() - s.Low(), q, k);
    }
  }

  lemma SpliceIntoRange(n: nat, p: nat, len: nat, q: nat, k: nat)
    requires p + len <= n && p <= q <= p + len
    ensures Splice(Range(n, p, len), q, Full(k)) == Range(n + k, p, len + k)
  {
    RangeIsRange(n, p, len);
    RangeIsRange(n + k, p, len + k);
  }

  /** Without a selection the caret keeps its place among the old characters, and of the
      neighbours of the caret the one that gravity keeps away from is never new. */
  lemma CaretPastInsert(s: Selection, q: nat, k: nat, leftGravity: bool, n: nat)
    requires s.Within(n) && q <= n && s.length == 0
    ensures var t, isNew := MoveAgainstInsert(s, q, k, leftGravity), Splice(Clear(n), q, Full(k));
      && t.Within(n + k) && t.length == 0
      && Rank(isNew, t.position) == s.position
      && (leftGravity && t.position > 0 ==> !isNew[t.position - 1])
      && (!leftGravity && t.position < n + k ==> !isNew[t.position])
  {
    var t, isNew := MoveAgainstInsert(s, q, k, leftGravity), Splice(Clear(n), q, Full(k));
    assert isNew == Range(n + k, q, k);
    RankRange(n + k, q, k, t.position);
  }

  // ----- deletions -----

  lemma CaretIsRank(p: nat, q: nat, k: nat, n: nat)
    requires p <= n && q + k <= n
    ensures CaretAgainstLeaf(p, q, k) == Rank(Range(n, q, k), p)
  {
    RankRange(n, q, k, p);
  }

  /** Past one deletion the caret keeps its place among the survivors, and as many characters
      are selected as there are survivors of the selection. */
  lemma MovedPastLeaf(s: Selection, q: nat, k: nat, n: nat)
    requires s.Within(n) && q + k <= n
    ensures var t, m := MoveAgainstLeaf(s, q, k).value, Range(n, q, k);
      && t.position == Rank(m, s.position)
      && t.High() - t.Low() == Rank(m, s.High()) - Rank(m, s.Low())
  {
    RankRange(n, q, k, s.position);
    RankRange(n, q, k, s.Low());
    RankRange(n, q, k, s.High());
  }

  /** The selection is what is left of the selected characters exactly if the deletion does
      not reach from inside the selection over its right end: there it is turned round. */
  lemma SelectedPastLeaf(s: Selection, q: nat, k: nat, n: nat)
    requires s.Within(n) && q + k <= n
    ensures var t, m := MoveAgainstLeaf(s, q, k).value, Range(n, q, k);
      && t.Low() == Rank(m, s.Low()) && t.High() == Rank(m, s.High())
      <==> !(s.Low() < q < s.High() < q + k)
  {
    RankRange(n, q, k, s.Low());
    RankRange(n, q, k, s.High());
  }

  lemma RankOfRange(n: nat, p: nat, len: nat, m: seq<bool>)
    requires p + len <= n == |m|
    ensures Rank(m, p) <= Rank(m, p + len) <= Survivors(m)
    ensures Erase(Range(n, p, len), m) == Range(Survivors(m), Rank(m, p), Rank(m, p + len) - Rank(m, p))
  {
    hide Erase, Survivors;
    var a, b, c := m[..p], m[p..p + len], m[p + len..];
    ThreeParts(m, p, len);
    assert m[..p + len] == a + b;
    SurvivorsAppend(a, b);
    SurvivorsAppend(a + b, c);
    EraseAlike(Clear(p), false, a);
    EraseAlike(Full(len), true, b);
    EraseAlike(Clear(n - p - len), false, c);
    EraseThree(Clear(p), Full(len), Clear(n - p - len), a, b, c,
               Clear(Survivors(a)), Full(Survivors(b)), Clear(Survivors(c)));
  }

  /** Of equal elements equal elements are left. */
  lemma {:induction false} EraseAlike(s: seq<bool>, x: bool, m: seq<bool>)
    requires |s| == |m| && forall i :: 0 <= i < |s| ==> s[i] == x
    ensures Erase(s, m) == if x then Full(Survivors(m)) else Clear(Survivors(m))
  {
    if s != [] {
      EraseAlike(s[1..], x, m[1..]);
    }
  }

  /** Put in characters: what is selected then is what was selected, less what was deleted. */
  lemma SurvivorsStaySelected(s: Selection, q: nat, k: nat, n: nat)
    requires s.Within(n) && q + k <= n && !(s.Low() < q < s.High() < q + k)
    ensures var t, m := MoveAgainstLeaf(s, q, k).value, Range(n, q, k);
      && t.Within(Survivors(m)) && Selected(t, Survivors(m)) == Erase(Selected(s, n), m)
  {
    SelectedPastLeaf(s, q, k, n);
    RankOfRange(n, s.Low(), s.High() - s.Low(), Range(n, q, k));
  }

  /** Two of three selected characters go, and something that was not selected is. */
  lemma SelectionTurnsRound()
    ensures MoveAgainstLeaf(Selection(5, -3), 3, 3) == Done(Selection(3, 1))
    ensures MoveAgainstLeaf(Selection(2, 3), 3, 3) == Done(Selection(2, -1))
  {
  }

  /** The caret keeps its place among the survivors past deletions of any shape. */
  lemma {:induction false} CaretPastDeletion(s: Selection, e: Deletion, n: nat)
    requires 0 <= s.position <= n && Fits(e, n) && AllDefault(e)
    ensures MoveAgainstDeletion(s, e).Done?
    ensures MoveAgainstDeletion(s, e).value.position == Rank(Mask(e, n), s.position) <= Survivors(Mask(e, n))
    decreases Size(e)
  {
    if e.SplitDelete? {
      var a, b := Mask(e.first, n), Mask(e.second, n);
      var e2 := DeletionAgainstDeletion(e.second, e.first).value;
      CaretPastDeletion(s, e.first, n);
      DeletionAgainstDeletionMask(e.second, e.first, n);
      CaretPastDeletion(MoveAgainstDeletion(s, e.first).value, e2, Survivors(a));
      RankTwice(a, b, s.position);
    } else {
      CaretIsRank(s.position, e.position, Length(e), n);
    }
    EraseAt(Mask(e, n), Mask(e, n), s.position);
  }

  // ----- selections past deletions of any shape -----

  /** Every leaf begins at p or behind it. */
  predicate AllFrom(e: Deletion, p: int) {
    if e.SplitDelete? then AllFrom(e.first, p) && AllFrom(e.second, p) else p <= e.position
  }

  lemma {:induction false} AllFromPast(d: Deletion, e: Deletion, p: int)
    requires AllFrom(d, p) && AllFrom(e, p) && DeletionAgainstDeletion(d, e).Done?
    ensures AllFrom(DeletionAgainstDeletion(d, e).value, p)
    decreases Size(e), Size(d)
  {
    if e.SplitDelete? {
      AllFromPast(d, e.first, p);
      AllFromPast(e.second, e.first, p);
      AllFromPast(DeletionAgainstDeletion(d, e.first).value, DeletionAgainstDeletion(e.second, e.first).value, p);
    } else if d.SplitDelete? {
      AllFromPast(d.first, e, p);
      AllFromPast(d.second, e, p);
    } else {
      LeafAgainstLeafInterval(d, e);
    }
  }

  /** A selection that reaches from the caret towards the beginning does not change any more. */
  lemma {:induction false} BackwardsStays(s: Selection, e: Deletion)
    requires s.length < 0 && AllFrom(e, s.position) && AllDefault(e)
    ensures MoveAgainstDeletion(s, e) == Done(s)
    decreases Size(e)
  {
    if e.SplitDelete? {
      BackwardsStays(s, e.first);
      AllFromPast(e.second, e.first, s.position);
      BackwardsStays(s, DeletionAgainstDeletion(e.second, e.first).value);
    }
  }

  /** One that does not reach as far back as it should never will. */
  lemma {:induction false} NeverFarEnough(s: Selection, e: Deletion, far: int)
    requires -far < s.length <= far && AllFrom(e, s.position) && AllDefault(e)
    ensures MoveAgainstDeletion(s, e).Done?
    ensures var t := MoveAgainstDeletion(s, e).value; t.position == s.position && -far < t.length <= far
    decreases Size(e)
  {
    if e.SplitDelete? {
      NeverFarEnough(s, e.first, far);
      AllFromPast(e.second, e.first, s.position);
      NeverFarEnough(MoveAgainstDeletion(s, e.first).value, DeletionAgainstDeletion(e.second, e.first).value, far);
    }
  }

  /** A leaf reaches from before h to behind it. */
  predicate Crosses(e: Deletion, h: int) {
    if e.SplitDelete? then Crosses(e.first, h) || Crosses(e.second, h)
    else e.position < h < e.position + Length(e)
  }

  lemma {:induction false} BehindCrossing(a: Deletion, b: Deletion, h: int)
    requires Before(a, b) && Crosses(a, h)
    ensures AllFrom(b, h) && !Crosses(b, h)
    decreases Size(a) + Size(b)
  {
    if a.SplitDelete? {
      if Crosses(a.first, h) {
        BehindCrossing(a.first, b, h);
      } else {
        BehindCrossing(a.second, b, h);
      }
    } else if b.SplitDelete? {
      BehindCrossing(a, b.first, h);
      BehindCrossing(a, b.second, h);
    }
  }

  /** Where later leaves lie, seen from a gap, once earlier ones are gone. */
  lemma {:induction false} LaterLeaves(b: Deletion, a: Deletion, h: nat, n: nat)
    requires AllDefault(a) && Ordered(a) && Before(a, b) && Fits(a, n) && h <= n
    ensures DeletionAgainstDeletion(b, a).Done?
    ensures var b', h' := DeletionAgainstDeletion(b, a).value, Rank(Mask(a, n), h);
      (Crosses(b', h') <==> Crosses(b, h)) && (AllFrom(b, h) ==> AllFrom(b', h'))
    decreases Size(a), Size(b)
  {
    LaterPastEarlier(b, a);
    if a.SplitDelete? {
      var f, g := a.first, a.second;
      LaterLeaves(b, f, h, n);
      LaterPastEarlier(g, f);
      var b', g' := DeletionAgainstDeletion(b, f).value, DeletionAgainstDeletion(g, f).value;
      BeforePastDeletion(g, b, f);
      OrderedPastDeletion(g, f);
      DeletionAgainstDeletionMask(g, f, n);
      RankTwice(Mask(f, n), Mask(g, n), h);
      LaterLeaves(b', g', Rank(Mask(f, n), h), Survivors(Mask(f, n)));
    } else if b.SplitDelete? {
      LaterLeaves(b.first, a, h, n);
      LaterLeaves(b.second, a, h, n);
    } else {
      RankRange(n, a.position, Length(a), h);
      LeafAgainstLeafInterval(b, a);
    }
  }

  lemma {:induction false} NothingGoesBefore(e: Deletion, p: nat, n: nat)
    requires AllFrom(e, p) && Fits(e, n) && p <= n
    ensures forall i :: 0 <= i < p ==> !Mask(e, n)[i]
  {
    if e.SplitDelete? {
      NothingGoesBefore(e.first, p, n);
      NothingGoesBefore(e.second, p, n);
    } else {
      RangeIsRange(n, e.position, Length(e));
    }
  }

  lemma RankBefore(e: Deletion, p: nat, x: nat, n: nat)
    requires AllFrom(e, p) && Fits(e, n) && x <= p <= n
    ensures Rank(Mask(e, n), x) == x
  {
    NothingGoesBefore(e, p, n);
    assert Mask(e, n)[..x] == Clear(x);
    EraseClear(Mask(e, n)[..x]);
  }

  lemma RankGrows(m: seq<bool>, p: nat, q: nat)
    requires p <= q <= |m|
    ensures Rank(m, p) <= Rank(m, q) <= Survivors(m)
  {
    assert m[..q] == m[..p] + m[p..q] && m == m[..q] + m[q..];
    SurvivorsAppend(m[..p], m[p..q]);
    SurvivorsAppend(m[..q], m[q..]);
  }

  lemma {:induction false} AllFromEarlier(e: Deletion, p: int, q: int)
    requires AllFrom(e, p) && q <= p
    ensures AllFrom(e, q)
  {
    if e.SplitDelete? {
      AllFromEarlier(e.first, p, q);
      AllFromEarlier(e.second, p, q);
    }
  }

  /** t is what m has left of s. */
  predicate Kept(s: Selection, m: seq<bool>, t: Selection)
    requires s.Within(|m|)
  {
    t.Low() == Rank(m, s.Low()) && t.High() == Rank(m, s.High())
  }

  /** A leaf reaches over the right end of s, and something of s is left. */
  predicate TurnsRound(s: Selection, e: Deletion, n: nat)
    requires s.Within(n) && Fits(e, n)
  {
    Crosses(e, s.High()) && Rank(Mask(e, n), s.Low()) < Rank(Mask(e, n), s.High())
  }

  /** What becomes of s then: it does not reach from the caret to its other end. */
  predicate Wrong(s: Selection, m: seq<bool>, t: Selection)
    requires s.Within(|m|)
  {
    var low, high := Rank(m, s.Low()), Rank(m, s.High());
    && low < high
    && if s.length < 0 then t.position == high && low - high < t.length <= high - low
       else t.position == low && t.length < 0
  }

  lemma WrongIsNotKept(s: Selection, m: seq<bool>, t: Selection)
    requires s.Within(|m|) && Wrong(s, m, t)
    ensures !Kept(s, m, t)
  {
  }

  lemma PastLeafIs(s: Selection, e: Deletion, n: nat)
    requires e.DefaultDelete? && s.Within(n) && Fits(e, n)
    ensures MoveAgainstDeletion(s, e).Done?
    ensures var t := MoveAgainstDeletion(s, e).value;
      if TurnsRound(s, e, n) then Wrong(s, Mask(e, n), t) else Kept(s, Mask(e, n), t)
  {
    hide Rank;
    RankRange(n, e.position, |e.chunk|, s.Low());
    RankRange(n, e.position, |e.chunk|, s.High());
  }

  /** Where a gap ends up past the first part and then the second one. */
  lemma RankOfSplit(a: Deletion, b: Deletion, p: nat, n: nat)
    requires Ordered(a) && Before(a, b) && Fits(a, n) && Fits(b, n) && p <= n
    ensures DeletionAgainstDeletion(b, a).Done?
    ensures var c, k := DeletionAgainstDeletion(b, a).value, Survivors(Mask(a, n));
      && Fits(c, k) && Rank(Mask(a, n), p) <= k
      && Rank(Mask(c, k), Rank(Mask(a, n), p)) == Rank(Mask(SplitDelete(a, b), n), p)
  {
    hide Rank, Survivors, Erase, DeletionAgainstDeletion;
    LaterPastEarlier(b, a);
    DeletionAgainstDeletionMask(b, a, n);
    RankTwice(Mask(a, n), Mask(b, n), p);
  }

  /** Turned round by the first part, a selection stays wrong. */
  lemma StaysWrong(s: Selection, m: seq<bool>, t: Selection, c: Deletion, all: seq<bool>)
    requires s.Within(|m|) && |all| == |m| && Wrong(s, m, t) && AllDefault(c) && AllFrom(c, Rank(m, s.High()))
    requires Rank(all, s.Low()) == Rank(m, s.Low()) && Rank(all, s.High()) == Rank(m, s.High())
    ensures MoveAgainstDeletion(t, c).Done? && Wrong(s, all, MoveAgainstDeletion(t, c).value)
  {
    hide Rank, MoveAgainstDeletion, AllFrom;
    if s.length < 0 {
      NeverFarEnough(t, c, Rank(m, s.High()) - Rank(m, s.Low()));
    } else {
      AllFromEarlier(c, Rank(m, s.High()), Rank(m, s.Low()));
      BackwardsStays(t, c);
    }
  }

  /** What is left of what is left. */
  lemma KeptTwice(s: Selection, m: seq<bool>, t: Selection, rest: seq<bool>, u: Selection, all: seq<bool>)
    requires s.Within(|m|) && |all| == |m| && Kept(s, m, t) && t.position == Rank(m, s.position) && t.Within(|rest|)
    requires Rank(rest, t.Low()) == Rank(all, s.Low()) && Rank(rest, t.High()) == Rank(all, s.High())
    ensures Wrong(t, rest, u) ==> Wrong(s, all, u)
    ensures Kept(t, rest, u) ==> Kept(s, all, u)
  {
    hide Rank;
  }

  lemma {:induction false} PastDeletionIs(s: Selection, e: Deletion, n: nat)
    requires s.Within(n) && Fits(e, n) && AllDefault(e) && Ordered(e)
    ensures MoveAgainstDeletion(s, e).Done?
    ensures var t := MoveAgainstDeletion(s, e).value;
      if TurnsRound(s, e, n) then Wrong(s, Mask(e, n), t) else Kept(s, Mask(e, n), t)
    decreases Size(e)
  {
    hide Rank, Mask, MoveAgainstLeaf, Before, Survivors, Wrong, DeletionAgainstDeletion;
    if e.SplitDelete? {
      var a, b := e.first, e.second;
      RankOfSplit(a, b, s.Low(), n);
      RankOfSplit(a, b, s.High(), n);
      OrderedPastDeletion(b, a);
      RankGrows(Mask(a, n), s.Low(), s.High());
      LaterLeaves(b, a, s.High(), n);
      PastDeletionIs(s, a, n);
      var c, k, t := DeletionAgainstDeletion(b, a).value, Survivors(Mask(a, n)), MoveAgainstDeletion(s, a).value;
      if TurnsRound(s, a, n) {
        BehindCrossing(a, b, s.High());
        RankBefore(c, Rank(Mask(a, n), s.High()), Rank(Mask(a, n), s.Low()), k);
        RankBefore(c, Rank(Mask(a, n), s.High()), Rank(Mask(a, n), s.High()), k);
        StaysWrong(s, Mask(a, n), t, c, Mask(e, n));
      } else {
        CaretPastDeletion(s, a, n);
        PastDeletionIs(t, c, k);
        KeptTwice(s, Mask(a, n), t, Mask(c, k), MoveAgainstDeletion(t, c).value, Mask(e, n));
      }
    } else {
      PastLeafIs(s, e, n);
    }
  }

  /** Past a deletion of any shape the selection is what is left of it, exactly if no leaf reaches
      over its right end or nothing of it is left. */
  lemma SelectedPastDeletion(s: Selection, e: Deletion, n: nat)
    requires s.Within(n) && Fits(e, n) && AllDefault(e) && Ordered(e)
    ensures MoveAgainstDeletion(s, e).Done?
    ensures Kept(s, Mask(e, n), MoveAgainstDeletion(s, e).value)
      <==> !Crosses(e, s.High()) || Rank(Mask(e, n), s.Low()) == Rank(Mask(e, n), s.High())
  {
    hide Rank, Mask, MoveAgainstDeletion;
    PastDeletionIs(s, e, n);
    RankGrows(Mask(e, n), s.Low(), s.High());
    if TurnsRound(s, e, n) {
      WrongIsNotKept(s, Mask(e, n), MoveAgainstDeletion(s, e).value);
    }
  }
}
