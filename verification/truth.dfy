/** Default deletions carry the text they delete, and it stays the text that stands there. */
module Truth {
  import opened Text
  import opened Masks
  import opened Operations
  import opened Effects

  /** The text chunk stands at position p of s. */
  predicate Stands(chunk: seq<Cell>, s: seq<Cell>, p: nat) {
    p + |chunk| <= |s| && forall j :: 0 <= j < |chunk| ==> chunk[j] == s[p + j]
  }

  /** Every leaf lies inside the document, and a default leaf names the text that stands there. */
  predicate Truthful(d: Deletion, s: seq<Cell>) {
    match d
    case DefaultDelete(p, chunk) => Stands(chunk, s, p)
    case RemoteDelete(p, length, _, _) => p + length <= |s|
    case SplitDelete(a, b) => Truthful(a, s) && Truthful(b, s)
  }

  lemma {:induction false} TruthfulFits(d: Deletion, s: seq<Cell>)
    requires Truthful(d, s)
    ensures Fits(d, |s|)
  {
    if d.SplitDelete? {
      TruthfulFits(d.first, s);
      TruthfulFits(d.second, s);
    }
  }

  // ----- one leaf -----

  /** Text that an insertion does not cut in two. */
  lemma StandsPastInsert(chunk: seq<Cell>, s: seq<Cell>, q: nat, p: nat, x: seq<Cell>)
    requires Stands(chunk, s, q) && p <= |s|
    ensures q + |chunk| <= p ==> Stands(chunk, Splice(s, p, x), q)
    ensures p <= q ==> Stands(chunk, Splice(s, p, x), q + |x|)
  {
  }

  lemma LeafPastInsert(d: Deletion, s: seq<Cell>, p: nat, x: seq<Cell>)
    requires !d.SplitDelete? && Truthful(d, s) && p <= |s| && LeafAgainstInsert(d, p, |x|).Done?
    ensures Truthful(LeafAgainstInsert(d, p, |x|).value, Splice(s, p, x))
  {
    hide Stands, SplitReconFrom;
    var q, k := d.position, Length(d);
    if d.DefaultDelete? {
      if q < p < q + k {
        StandsInTwo(d.chunk, s, q, p - q);
        StandsPastInsert(d.chunk[..p - q], s, q, p, x);
        StandsPastInsert(d.chunk[p - q..], s, p, p, x);
      } else {
        StandsPastInsert(d.chunk, s, q, p, x);
      }
    }
  }

  lemma StandsInTwo(chunk: seq<Cell>, s: seq<Cell>, q: nat, n: nat)
    requires Stands(chunk, s, q) && n <= |chunk|
    ensures Stands(chunk[..n], s, q) && Stands(chunk[n..], s, q + n)
  {
  }

  /** Where the part of the text at (q, k) that goes with the range (p, len) begins. */
  function CutBegin(q: nat, k: nat, p: nat): nat {
    if p <= q then 0 else if p - q <= k then p - q else k
  }

  /** The text at q after the range (p, len) is gone. */
  lemma StandsPastCut(chunk: seq<Cell>, s: seq<Cell>, q: nat, p: nat, len: nat)
    requires Stands(chunk, s, q) && p + len <= |s|
    ensures var l, b := Overlap(q, |chunk|, p, len), CutBegin(q, |chunk|, p);
      b + l <= |chunk| && Stands(Cut(chunk, b, l), Cut(s, p, len), Shift(q, p, len))
  {
    var l, b, q' := Overlap(q, |chunk|, p, len), CutBegin(q, |chunk|, p), Shift(q, p, len);
    var x, t := Cut(chunk, b, l), Cut(s, p, len);
    forall j | 0 <= j < |x|
      ensures x[j] == t[q' + j]
    {
      var i := if j < b then j else j + l;
      assert x[j] == chunk[i] == s[q + i];
    }
  }

  /** What is left of a default leaf. */
  lemma DefaultPastLeaf(d: Deletion, e: Deletion)
    requires d.DefaultDelete? && !e.SplitDelete?
    ensures var q, k, p, len := d.position, |d.chunk|, e.position, Length(e);
      var b, l := CutBegin(q, k, p), Overlap(q, k, p, len);
      b + l <= k && LeafAgainstLeaf(d, e) == Done(DefaultDelete(Shift(q, p, len), Cut(d.chunk, b, l)))
  {
    hide Cut;
    var q, k, p, len := d.position, |d.chunk|, e.position, Length(e);
    if q + k <= p || q >= p + len { CutNothing(d.chunk, CutBegin(q, k, p)); }
  }

  lemma CutNothing<T>(s: seq<T>, b: nat)
    requires b <= |s|
    ensures Cut(s, b, 0) == s
  {
  }

  lemma LeafPastLeaf(d: Deletion, e: Deletion, s: seq<Cell>)
    requires !d.SplitDelete? && !e.SplitDelete? && Truthful(d, s) && Fits(e, |s|)
    requires LeafAgainstLeaf(d, e).Done?
    ensures Truthful(LeafAgainstLeaf(d, e).value, Cut(s, e.position, Length(e)))
  {
    hide Stands, Cut, CutBegin;
    if d.DefaultDelete? {
      hide LeafAgainstLeaf, Shift, Overlap;
      DefaultPastLeaf(d, e);
      StandsPastCut(d.chunk, s, d.position, e.position, Length(e));
    } else {
      RemotePastLeaf(d, e, s);
    }
  }

  lemma RemotePastLeaf(d: Deletion, e: Deletion, s: seq<Cell>)
    requires d.RemoteDelete? && !e.SplitDelete? && Truthful(d, s) && Fits(e, |s|)
    requires LeafAgainstLeaf(d, e).Done?
    ensures LeafAgainstLeaf(d, e).value.RemoteDelete?
    ensures Truthful(LeafAgainstLeaf(d, e).value, Cut(s, e.position, Length(e)))
  {
  }

  // ----- whole operations -----

  /** A deletion stays truthful past an insertion ... */
  lemma {:induction false} TruthfulPastInsert(d: Deletion, s: seq<Cell>, p: nat, x: seq<Cell>)
    requires Truthful(d, s) && p <= |s| && DeletionAgainstInsert(d, p, |x|).Done?
    ensures Truthful(DeletionAgainstInsert(d, p, |x|).value, Splice(s, p, x))
  {
    if d.SplitDelete? {
      TruthfulPastInsert(d.first, s, p, x);
      TruthfulPastInsert(d.second, s, p, x);
    } else {
      LeafPastInsert(d, s, p, x);
    }
  }

  /** ... and past a deletion, split or not. */
  lemma {:induction false} TruthfulPastDeletion(d: Deletion, e: Deletion, s: seq<Cell>)
    requires Truthful(d, s) && Fits(e, |s|) && DeletionAgainstDeletion(d, e).Done?
    ensures Truthful(DeletionAgainstDeletion(d, e).value, Erase(s, Mask(e, |s|)))
    decreases Size(e), Size(d)
  {
    var n := |s|;
    if e.SplitDelete? {
      TruthfulPastSplit(d, e, s);
    } else if d.SplitDelete? {
      TruthfulPastDeletion(d.first, e, s);
      TruthfulPastDeletion(d.second, e, s);
    } else {
      LeafPastLeaf(d, e, s);
      EraseRange(s, e.position, Length(e));
    }
  }

  lemma {:induction false} TruthfulPastSplit(d: Deletion, e: Deletion, s: seq<Cell>)
    requires Truthful(d, s) && Fits(e, |s|) && DeletionAgainstDeletion(d, e).Done? && e.SplitDelete?
    ensures Truthful(DeletionAgainstDeletion(d, e).value, Erase(s, Mask(e, |s|)))
    decreases Size(e), 0
  {
    hide Erase, Survivors, Or;
    var n := |s|;
    TruthfulPastDeletion(d, e.first, s);
    DeletionAgainstDeletionMask(e.second, e.first, n);
    TruthfulPastDeletion(DeletionAgainstDeletion(d, e.first).value,
                         DeletionAgainstDeletion(e.second, e.first).value, Erase(s, Mask(e.first, n)));
    EraseTwice(s, Mask(e.first, n), Mask(e.second, n));
  }

  /** Text-matching operations: what an application of a default deletion asserts. */
  predicate Genuine(op: Operation, s: seq<Cell>) {
    match op
    case Insert(p, _) => p <= |s|
    case Delete(d) => AllDefault(d) && Truthful(d, s)
  }

  /** Transforming against an operation that is then applied keeps an operation genuine. */
  lemma GenuinePastGenuine(op: Operation, against: Operation, s: seq<Cell>, cid: ConcurrencyId)
    requires Genuine(op, s) && Genuine(against, s) && Transform(op, against, cid).Done?
    ensures Applicable(against, |s|) && Apply(against, s).Done?
    ensures Genuine(Transform(op, against, cid).value, Apply(against, s).value)
  {
    if against.Delete? { TruthfulFits(against.deletion, s); }
    match (op, against)
    case (Insert(p, x), Insert(q, y)) =>
    case (Insert(p, x), Delete(e)) =>
      PositionAgainstDeletionRank(p, e, |s|);
      EraseAt(s, Mask(e, |s|), p);
    case (Delete(d), Insert(q, y)) => TruthfulPastInsert(d, s, q, y);
    case (Delete(d), Delete(e)) => TruthfulPastDeletion(d, e, s);
  }
}
