/** What operations do to a document, and that transforming one is carrying its effect along. */
module Effects {
  import opened Text
  import opened Masks
  import opened Operations

  /** Every leaf lies inside a document of n characters. */
  predicate Fits(d: Deletion, n: nat) {
    if d.SplitDelete? then Fits(d.first, n) && Fits(d.second, n) else d.position + Length(d) <= n
  }

  /** The characters d deletes from a document of n characters. */
  function Mask(d: Deletion, n: nat): (m: seq<bool>)
    requires Fits(d, n)
    ensures |m| == n
  {
    if d.SplitDelete? then Or(Mask(d.first, n), Mask(d.second, n)) else Range(n, d.position, Length(d))
  }

  // ----- transforming is carrying the mask along -----

  lemma {:induction false} OrErase(a: seq<bool>, b: seq<bool>, m: seq<bool>)
    requires |a| == |b| == |m|
    ensures Erase(Or(a, b), m) == Or(Erase(a, m), Erase(b, m))
  {
    if a != [] {
      OrErase(a[1..], b[1..], m[1..]);
      assert Or(a, b)[1..] == Or(a[1..], b[1..]);
    }
  }

  lemma OrSplice(a: seq<bool>, b: seq<bool>, p: nat, n: nat)
    requires |a| == |b| && p <= |a|
    ensures Splice(Or(a, b), p, Clear(n)) == Or(Splice(a, p, Clear(n)), Splice(b, p, Clear(n)))
  {
  }

  /** d' is the leaf d moved and shortened by the leaf e. */
  predicate LeafPast(d: Deletion, e: Deletion, d': Deletion)
    requires !d.SplitDelete? && !e.SplitDelete?
  {
    var p, q, k := d.position, e.position, Length(e);
    && !d'.SplitDelete?
    && Length(d') == Length(d) - Overlap(p, Length(d), q, k)
    && d'.position == Shift(p, q, k)
  }

  /** Such a leaf deletes what the other one left of it. */
  lemma LeafPastMask(d: Deletion, e: Deletion, d': Deletion, n: nat)
    requires !d.SplitDelete? && !e.SplitDelete? && Fits(d, n) && Fits(e, n)
    requires LeafPast(d, e, d')
    ensures var k := Survivors(Mask(e, n)); Fits(d', k) && Mask(d', k) == Erase(Mask(d, n), Mask(e, n))
  {
    EraseRangeFromRange(n, d.position, Length(d), e.position, Length(e));
  }

  /** Where a leaf goes past a leaf, and how long it stays. */
  lemma LeafAgainstLeafInterval(d: Deletion, e: Deletion)
    requires !d.SplitDelete? && !e.SplitDelete?
    requires LeafAgainstLeaf(d, e).Done?
    ensures LeafPast(d, e, LeafAgainstLeaf(d, e).value)
  {
    hide TransformOverlap;
  }

  /** A deletion past a deletion deletes what the other one left of it. */
  lemma {:induction false} DeletionAgainstDeletionMask(d: Deletion, e: Deletion, n: nat)
    requires Fits(d, n) && Fits(e, n)
    requires DeletionAgainstDeletion(d, e).Done?
    ensures var d' := DeletionAgainstDeletion(d, e).value; var k := Survivors(Mask(e, n));
      Fits(d', k) && Mask(d', k) == Erase(Mask(d, n), Mask(e, n))
    decreases Size(e), Size(d)
  {
    if e.SplitDelete? {
      var d1 := DeletionAgainstDeletion(d, e.first).value;
      var e1 := DeletionAgainstDeletion(e.second, e.first).value;
      var a, b, k := Mask(e.first, n), Mask(e.second, n), Survivors(Mask(e.first, n));
      DeletionAgainstDeletionMask(d, e.first, n);
      DeletionAgainstDeletionMask(e.second, e.first, n);
      DeletionAgainstDeletionMask(d1, e1, k);
      EraseTwice(Mask(d, n), a, b);
      assert Survivors(Or(a, b)) == |Erase(Mask(d, n), Or(a, b))|;
    } else if d.SplitDelete? {
      DeletionAgainstDeletionMask(d.first, e, n);
      DeletionAgainstDeletionMask(d.second, e, n);
      OrErase(Mask(d.first, n), Mask(d.second, n), Mask(e, n));
    } else {
      LeafAgainstLeafInterval(d, e);
      LeafPastMask(d, e, DeletionAgainstDeletion(d, e).value, n);
    }
  }

  /** Where the range (q, k) goes past an insertion of len characters at p. */
  lemma RangePastInsert(q: nat, k: nat, p: nat, len: nat, n: nat)
    requires q + k <= n && p <= n
    ensures Splice(Range(n, q, k), p, Clear(len))
         == if q < p < q + k then Or(Range(n + len, q, p - q), Range(n + len, p + len, q + k - p))
            else Range(n + len, if q + k <= p then q else q + len, k)
  {
    if q < p < q + k { SpliceRangeInside(n, q, k, p, len); } else { SpliceRange(n, q, k, p, len); }
  }

  lemma LeafAgainstInsertMask(d: Deletion, p: nat, len: nat, n: nat)
    requires !d.SplitDelete? && Fits(d, n) && p <= n
    requires LeafAgainstInsert(d, p, len).Done?
    ensures var d' := LeafAgainstInsert(d, p, len).value;
      Fits(d', n + len) && Mask(d', n + len) == Splice(Mask(d, n), p, Clear(len))
  {
    hide Range, Or, Splice, Clear;
    var d', q, k := LeafAgainstInsert(d, p, len).value, d.position, Length(d);
    RangePastInsert(q, k, p, len, n);
    if q < p < q + k {
      var l, r := d'.first, d'.second;
      assert !l.SplitDelete? && l.position == q && Length(l) == p - q;
      assert !r.SplitDelete? && r.position == p + len && Length(r) == q + k - p;
    }
  }

  /** A deletion past an insertion deletes the same characters and none of the new ones. */
  lemma {:induction false} DeletionAgainstInsertMask(d: Deletion, p: nat, len: nat, n: nat)
    requires Fits(d, n) && p <= n
    requires DeletionAgainstInsert(d, p, len).Done?
    ensures var d' := DeletionAgainstInsert(d, p, len).value;
      Fits(d', n + len) && Mask(d', n + len) == Splice(Mask(d, n), p, Clear(len))
  {
    if d.SplitDelete? {
      DeletionAgainstInsertMask(d.first, p, len, n);
      DeletionAgainstInsertMask(d.second, p, len, n);
      OrSplice(Mask(d.first, n), Mask(d.second, n), p, len);
    } else {
      LeafAgainstInsertMask(d, p, len, n);
    }
  }

  /** An insertion past a deletion keeps its place among the survivors. */
  lemma {:induction false} PositionAgainstDeletionRank(p: nat, e: Deletion, n: nat)
    requires Fits(e, n) && p <= n
    requires PositionAgainstDeletion(p, e).Done?
    ensures PositionAgainstDeletion(p, e).value == Rank(Mask(e, n), p) <= Survivors(Mask(e, n))
    decreases Size(e)
  {
    var m := Mask(e, n);
    if e.SplitDelete? {
      var a, b := Mask(e.first, n), Mask(e.second, n);
      PositionAgainstDeletionRank(p, e.first, n);
      DeletionAgainstDeletionMask(e.second, e.first, n);
      PositionAgainstDeletionRank(Rank(a, p), DeletionAgainstDeletion(e.second, e.first).value, Survivors(a));
      RankTwice(a, b, p);
    } else {
      RankRange(n, e.position, Length(e), p);
    }
    EraseAt(m, m, p);
  }

  // ----- applying -----

  predicate Applicable(op: Operation, n: nat) {
    match op
    case Insert(p, _) => p <= n
    case Delete(d) => Fits(d, n)
  }

  /** A split applies its first part and then its second part, transformed against the first. */
  function ApplyDeletion(d: Deletion, s: seq<Cell>): (r: Outcome<seq<Cell>>)
    requires Fits(d, |s|)
    ensures r.Done? ==> r.value == Erase(s, Mask(d, |s|))
    ensures AllDefault(d) ==> r.Done?
    decreases Size(d)
  {
    if d.SplitDelete? then
      var second :- DeletionAgainstDeletion(d.second, d.first);
      var t :- ApplyDeletion(d.first, s);
      DeletionAgainstDeletionMask(d.second, d.first, |s|);
      EraseTwice(s, Mask(d.first, |s|), Mask(d.second, |s|));
      ApplyDeletion(second, t)
    else
      EraseRange(s, d.position, Length(d));
      Done(Cut(s, d.position, Length(d)))
  }

  function Apply(op: Operation, s: seq<Cell>): Outcome<seq<Cell>>
    requires Applicable(op, |s|)
  {
    match op
    case Insert(p, x) => Done(Splice(s, p, x))
    case Delete(d) => ApplyDeletion(d, s)
  }
}
