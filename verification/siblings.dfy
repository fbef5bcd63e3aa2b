/** The parts of a split deletion, and deletions that differ only in what they know about
    their text. */
module Siblings {
  import opened Text
  import opened Masks
  import opened Operations
  import opened Effects
  import opened Truth
  import opened Reconstruction
  import opened Reversal

  // ----- parts of a split stay apart and in order -----

  /** Every leaf of a ends where every leaf of b begins, or earlier. */
  predicate Before(a: Deletion, b: Deletion) {
    if a.SplitDelete? then Before(a.first, b) && Before(a.second, b)
    else if b.SplitDelete? then Before(a, b.first) && Before(a, b.second)
    else a.position + Length(a) <= b.position
  }

  /** The leaves stand in order, none of them overlapping another one. */
  predicate Ordered(d: Deletion) {
    d.SplitDelete? ==> Ordered(d.first) && Ordered(d.second) && Before(d.first, d.second)
  }

  lemma {:induction false} BeforeParts(a: Deletion, b: Deletion)
    requires b.SplitDelete?
    ensures Before(a, b) <==> Before(a, b.first) && Before(a, b.second)
  {
    if a.SplitDelete? {
      BeforeParts(a.first, b);
      BeforeParts(a.second, b);
    }
  }

  lemma {:induction false} BeforePastInsert(a: Deletion, b: Deletion, p: nat, len: nat)
    requires Before(a, b) && DeletionAgainstInsert(a, p, len).Done? && DeletionAgainstInsert(b, p, len).Done?
    ensures Before(DeletionAgainstInsert(a, p, len).value, DeletionAgainstInsert(b, p, len).value)
    decreases Size(a) + Size(b)
  {
    if a.SplitDelete? {
      BeforePastInsert(a.first, b, p, len);
      BeforePastInsert(a.second, b, p, len);
    } else if b.SplitDelete? {
      BeforePastInsert(a, b.first, p, len);
      BeforePastInsert(a, b.second, p, len);
      BeforeParts(DeletionAgainstInsert(a, p, len).value, DeletionAgainstInsert(b, p, len).value);
    } else {
      LeafBeforePastInsert(a, b, p, len);
    }
  }

  lemma LeafBeforePastInsert(a: Deletion, b: Deletion, p: nat, len: nat)
    requires !a.SplitDelete? && !b.SplitDelete? && Before(a, b)
    requires LeafAgainstInsert(a, p, len).Done? && LeafAgainstInsert(b, p, len).Done?
    ensures Before(LeafAgainstInsert(a, p, len).value, LeafAgainstInsert(b, p, len).value)
  {
    hide SplitReconFrom;
  }

  lemma {:induction false} OrderedPastInsert(d: Deletion, p: nat, len: nat)
    requires Ordered(d) && DeletionAgainstInsert(d, p, len).Done?
    ensures Ordered(DeletionAgainstInsert(d, p, len).value)
  {
    if d.SplitDelete? {
      OrderedPastInsert(d.first, p, len);
      OrderedPastInsert(d.second, p, len);
      BeforePastInsert(d.first, d.second, p, len);
    } else {
      hide SplitReconFrom;
    }
  }

  lemma {:induction false} BeforePastDeletion(a: Deletion, b: Deletion, e: Deletion)
    requires Before(a, b) && DeletionAgainstDeletion(a, e).Done? && DeletionAgainstDeletion(b, e).Done?
    ensures Before(DeletionAgainstDeletion(a, e).value, DeletionAgainstDeletion(b, e).value)
    decreases Size(e), Size(a) + Size(b)
  {
    if e.SplitDelete? {
      var e1 := DeletionAgainstDeletion(e.second, e.first).value;
      BeforePastDeletion(a, b, e.first);
      BeforePastDeletion(DeletionAgainstDeletion(a, e.first).value, DeletionAgainstDeletion(b, e.first).value, e1);
    } else if a.SplitDelete? {
      BeforePastDeletion(a.first, b, e);
      BeforePastDeletion(a.second, b, e);
    } else if b.SplitDelete? {
      BeforePastDeletion(a, b.first, e);
      BeforePastDeletion(a, b.second, e);
    } else {
      LeafBeforePastLeaf(a, b, e);
    }
  }

  lemma LeafBeforePastLeaf(a: Deletion, b: Deletion, e: Deletion)
    requires !a.SplitDelete? && !b.SplitDelete? && !e.SplitDelete? && Before(a, b)
    requires LeafAgainstLeaf(a, e).Done? && LeafAgainstLeaf(b, e).Done?
    ensures Before(LeafAgainstLeaf(a, e).value, LeafAgainstLeaf(b, e).value)
  {
    hide LeafAgainstLeaf;
    LeafAgainstLeafInterval(a, e);
    LeafAgainstLeafInterval(b, e);
  }

  lemma {:induction false} OrderedPastDeletion(d: Deletion, e: Deletion)
    requires Ordered(d) && DeletionAgainstDeletion(d, e).Done?
    ensures Ordered(DeletionAgainstDeletion(d, e).value)
    decreases Size(e), Size(d)
  {
    if e.SplitDelete? {
      OrderedPastDeletion(d, e.first);
      OrderedPastDeletion(DeletionAgainstDeletion(d, e.first).value,
                          DeletionAgainstDeletion(e.second, e.first).value);
    } else if d.SplitDelete? {
      OrderedPastDeletion(d.first, e);
      OrderedPastDeletion(d.second, e);
      BeforePastDeletion(d.first, d.second, e);
    } else {
      LeafAgainstLeafInterval(d, e);
    }
  }

  /** Deletions that stand apart, remote or not, never reach the overlap of two remote ones. */
  lemma {:induction false} ApartNeverOverlap(a: Deletion, b: Deletion)
    requires Before(a, b) && Ordered(a) && Ordered(b)
    ensures DeletionAgainstDeletion(b, a).Done? && DeletionAgainstDeletion(a, b).Done?
    decreases Size(a) + Size(b)
  {
    LaterPastEarlier(b, a);
    EarlierPastLater(a, b);
  }

  lemma {:induction false} LaterPastEarlier(b: Deletion, a: Deletion)
    requires Before(a, b) && Ordered(a)
    ensures DeletionAgainstDeletion(b, a).Done?
    decreases Size(a), Size(b)
  {
    if a.SplitDelete? {
      LaterPastEarlier(b, a.first);
      LaterPastEarlier(a.second, a.first);
      BeforePastDeletion(a.second, b, a.first);
      OrderedPastDeletion(a.second, a.first);
      LaterPastEarlier(DeletionAgainstDeletion(b, a.first).value, DeletionAgainstDeletion(a.second, a.first).value);
    } else if b.SplitDelete? {
      LaterPastEarlier(b.first, a);
      LaterPastEarlier(b.second, a);
    }
  }

  lemma {:induction false} EarlierPastLater(a: Deletion, b: Deletion)
    requires Before(a, b) && Ordered(b)
    ensures DeletionAgainstDeletion(a, b).Done?
    decreases Size(b), Size(a)
  {
    if b.SplitDelete? {
      BeforeParts(a, b);
      EarlierPastLater(a, b.first);
      LaterPastEarlier(b.second, b.first);
      BeforePastDeletion(a, b.second, b.first);
      OrderedPastDeletion(b.second, b.first);
      EarlierPastLater(DeletionAgainstDeletion(a, b.first).value, DeletionAgainstDeletion(b.second, b.first).value);
    } else if a.SplitDelete? {
      EarlierPastLater(a.first, b);
      EarlierPastLater(a.second, b);
    }
  }

  /** A deletion with its parts in order can be applied. */
  lemma {:induction false} OrderedApplies(d: Deletion, s: seq<Cell>)
    requires Ordered(d) && Fits(d, |s|)
    ensures ApplyDeletion(d, s).Done?
    decreases Size(d)
  {
    if d.SplitDelete? {
      LaterPastEarlier(d.second, d.first);
      OrderedApplies(d.first, s);
      OrderedPastDeletion(d.second, d.first);
      DeletionAgainstDeletionMask(d.second, d.first, |s|);
      OrderedApplies(DeletionAgainstDeletion(d.second, d.first).value, ApplyDeletion(d.first, s).value);
    }
  }

  lemma {:induction false} OrderedAlong(d: Deletion, ops: seq<Operation>)
    requires Ordered(d) && TransformAlong(d, ops).Done?
    ensures Ordered(TransformAlong(d, ops).value)
    decreases |ops|
  {
    if ops != [] {
      var op := ops[0];
      if op.Insert? {
        OrderedPastInsert(d, op.position, |op.chunk|);
      } else {
        OrderedPastDeletion(d, op.deletion);
      }
      OrderedAlong(Transform(Delete(d), op, NoId).value.deletion, ops[1..]);
    }
  }

  // ----- the two ends of a connection -----

  /** The same leaves at the same places, however much is known about their text. */
  predicate SameShape(d: Deletion, e: Deletion) {
    if d.SplitDelete? then e.SplitDelete? && SameShape(d.first, e.first) && SameShape(d.second, e.second)
    else !e.SplitDelete? && d.position == e.position && Length(d) == Length(e)
  }

  lemma {:induction false} SameShapePastInsert(d: Deletion, e: Deletion, p: nat, len: nat)
    requires SameShape(d, e) && DeletionAgainstInsert(d, p, len).Done? && DeletionAgainstInsert(e, p, len).Done?
    ensures SameShape(DeletionAgainstInsert(d, p, len).value, DeletionAgainstInsert(e, p, len).value)
  {
    if d.SplitDelete? {
      SameShapePastInsert(d.first, e.first, p, len);
      SameShapePastInsert(d.second, e.second, p, len);
    } else {
      hide SplitReconFrom;
    }
  }

  lemma {:induction false} SameShapePastDeletion(d: Deletion, e: Deletion, x: Deletion)
    requires SameShape(d, e) && DeletionAgainstDeletion(d, x).Done? && DeletionAgainstDeletion(e, x).Done?
    ensures SameShape(DeletionAgainstDeletion(d, x).value, DeletionAgainstDeletion(e, x).value)
    decreases Size(x), Size(d)
  {
    if x.SplitDelete? {
      SameShapePastDeletion(d, e, x.first);
      SameShapePastDeletion(DeletionAgainstDeletion(d, x.first).value, DeletionAgainstDeletion(e, x.first).value,
                            DeletionAgainstDeletion(x.second, x.first).value);
    } else if d.SplitDelete? {
      SameShapePastDeletion(d.first, e.first, x);
      SameShapePastDeletion(d.second, e.second, x);
    } else {
      LeafAgainstLeafInterval(d, x);
      LeafAgainstLeafInterval(e, x);
    }
  }

  lemma {:induction false} SameShapeAlong(d: Deletion, e: Deletion, ops: seq<Operation>)
    requires SameShape(d, e) && TransformAlong(d, ops).Done? && TransformAlong(e, ops).Done?
    ensures SameShape(TransformAlong(d, ops).value, TransformAlong(e, ops).value)
    decreases |ops|
  {
    if ops != [] {
      var op := ops[0];
      if op.Insert? {
        SameShapePastInsert(d, e, op.position, |op.chunk|);
      } else {
        SameShapePastDeletion(d, e, op.deletion);
      }
      SameShapeAlong(Transform(Delete(d), op, NoId).value.deletion,
                     Transform(Delete(e), op, NoId).value.deletion, ops[1..]);
    }
  }

  lemma {:induction false} SameShapeSameMask(d: Deletion, e: Deletion, n: nat)
    requires SameShape(d, e) && Fits(d, n)
    ensures Fits(e, n) && Mask(d, n) == Mask(e, n)
  {
    if d.SplitDelete? {
      SameShapeSameMask(d.first, e.first, n);
      SameShapeSameMask(d.second, e.second, n);
    }
  }

  /** A default deletion goes past genuine operations and stays truthful. */
  lemma {:induction false} TruthfulAlong(d: Deletion, ops: seq<Operation>, s: seq<Cell>)
    requires AllDefault(d) && Truthful(d, s) && Runs(ops, s)
    ensures TransformAlong(d, ops).Done? && AllDefault(TransformAlong(d, ops).value)
    ensures Truthful(TransformAlong(d, ops).value, DocumentAfterAll(ops, s))
    decreases |ops|
  {
    if ops != [] {
      GenuinePastGenuine(Delete(d), ops[0], s, NoId);
      TruthfulAlong(Transform(Delete(d), ops[0], NoId).value.deletion, ops[1..], DocumentAfter(ops[0], s));
    }
  }

  /** The sender keeps a default deletion, the receiver a remote one of the same range.
      Past any genuine operations they have the same leaves at the same places, both can be
      applied, and they leave the same document. */
  lemma SenderAndReceiverAgree(s: seq<Cell>, position: nat, length: nat, ops: seq<Operation>)
    requires position + length <= |s| && Runs(ops, s)
    ensures var sent := TransformAlong(DefaultDelete(position, s[position..position + length]), ops);
      var received, t := TransformAlong(NewRemoteDelete(position, length), ops), DocumentAfterAll(ops, s);
      && sent.Done? && received.Done? && SameShape(sent.value, received.value) && Ordered(received.value)
      && Fits(sent.value, |t|) && Fits(received.value, |t|)
      && ApplyDeletion(sent.value, t).Done? && ApplyDeletion(sent.value, t) == ApplyDeletion(received.value, t)
  {
    var d, e, t := DefaultDelete(position, s[position..position + length]), NewRemoteDelete(position, length),
      DocumentAfterAll(ops, s);
    TruthfulAlong(d, ops, s);
    UndoReconstruction(s, position, length, ops);
    SameShapeAlong(d, e, ops);
    OrderedAlong(e, ops);
    TruthfulFits(TransformAlong(d, ops).value, t);
    SameShapeSameMask(TransformAlong(d, ops).value, TransformAlong(e, ops).value, |t|);
    OrderedApplies(TransformAlong(e, ops).value, t);
  }

  /** The text that stands in a document is a slice of it. */
  lemma Inside(x: seq<Cell>, s: seq<Cell>, p: nat)
    requires Stands(x, s, p)
    ensures p + |x| <= |s| && s[p..p + |x|] == x
  {
  }
}
