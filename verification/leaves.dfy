/** How many leaves a deletion has, and when one of them is empty. */
module Leaves {
  import opened Text
  import opened Masks
  import opened Operations
  import opened Effects
  import opened Truth
  import opened Reversal

  // ----- past an insertion -----

  /** Text that comes in at p comes between two characters of this leaf. */
  predicate InsideLeaf(leaf: Deletion, p: nat) {
    !leaf.SplitDelete? && leaf.position < p < leaf.position + Length(leaf)
  }

  /** How many of the leaves text at p comes inside of. */
  function CountInside(leaves: seq<Deletion>, p: nat): nat {
    if leaves == [] then 0 else (if InsideLeaf(leaves[0], p) then 1 else 0) + CountInside(leaves[1..], p)
  }

  /** How many of the leaves delete nothing. */
  function CountEmpty(leaves: seq<Deletion>): nat {
    if leaves == [] then 0
    else (if !leaves[0].SplitDelete? && Length(leaves[0]) == 0 then 1 else 0) + CountEmpty(leaves[1..])
  }

  lemma {:induction false} CountAppend(a: seq<Deletion>, b: seq<Deletion>, p: nat)
    ensures CountInside(a + b, p) == CountInside(a, p) + CountInside(b, p)
    ensures CountEmpty(a + b) == CountEmpty(a) + CountEmpty(b)
  {
    if a == [] {
      assert a + b == b;
    } else {
      assert (a + b)[0] == a[0] && (a + b)[1..] == a[1..] + b;
      CountAppend(a[1..], b, p);
    }
  }

  lemma LeafPieces(d: Deletion, p: nat, len: nat)
    requires !d.SplitDelete? && LeafAgainstInsert(d, p, len).Done?
    ensures var d' := LeafAgainstInsert(d, p, len).value;
      && Size(d') == 1 + CountInside([d], p) && CountEmpty(Unsplit(d')) == CountEmpty([d])
  {
    hide SplitReconFrom;
    assert [d][1..] == [];
    var d' := LeafAgainstInsert(d, p, len).value;
    if InsideLeaf(d, p) {
      assert Unsplit(d') == [d'.first, d'.second];
      assert [d'.first, d'.second][1..] == [d'.second] && [d'.second][1..] == [];
    } else {
      assert Unsplit(d') == [d'] && [d'][1..] == [];
    }
  }

  /** A deletion gets one leaf more for every leaf that the text comes in strictly inside of, and
      no leaf gets empty. */
  lemma {:induction false} PiecesPastInsert(d: Deletion, p: nat, len: nat)
    requires DeletionAgainstInsert(d, p, len).Done?
    ensures var d' := DeletionAgainstInsert(d, p, len).value;
      && Size(d') == Size(d) + CountInside(Unsplit(d), p)
      && CountEmpty(Unsplit(d')) == CountEmpty(Unsplit(d))
  {
    hide LeafAgainstInsert;
    if d.SplitDelete? {
      var d' := DeletionAgainstInsert(d, p, len).value;
      PiecesPastInsert(d.first, p, len);
      PiecesPastInsert(d.second, p, len);
      CountAppend(Unsplit(d.first), Unsplit(d.second), p);
      CountAppend(Unsplit(d'.first), Unsplit(d'.second), p);
    } else {
      LeafPieces(d, p, len);
    }
  }

  // ----- past a deletion -----

  /** The parts of a split go past a deletion of any shape one by one. */
  lemma {:induction false} PartsPastDeletion(a: Deletion, b: Deletion, e: Deletion)
    requires DeletionAgainstDeletion(SplitDelete(a, b), e).Done?
    ensures DeletionAgainstDeletion(a, e).Done? && DeletionAgainstDeletion(b, e).Done?
    ensures DeletionAgainstDeletion(SplitDelete(a, b), e).value
         == SplitDelete(DeletionAgainstDeletion(a, e).value, DeletionAgainstDeletion(b, e).value)
    decreases Size(e)
  {
    if e.SplitDelete? {
      PartsPastDeletion(a, b, e.first);
      PartsPastDeletion(DeletionAgainstDeletion(a, e.first).value, DeletionAgainstDeletion(b, e.first).value,
                        DeletionAgainstDeletion(e.second, e.first).value);
    }
  }

  lemma LeafStaysLeaf(d: Deletion, e: Deletion)
    requires !d.SplitDelete? && DeletionAgainstDeletion(d, e).Done?
    ensures !DeletionAgainstDeletion(d, e).value.SplitDelete?
  {
    assert Size(DeletionAgainstDeletion(d, e).value) == 1;
  }

  /** The deletion e takes all the text of a leaf. */
  predicate TakesAll(e: Deletion, leaf: Deletion, n: nat)
    requires Fits(e, n) && Fits(leaf, n) && !leaf.SplitDelete?
  {
    forall j :: leaf.position <= j < leaf.position + Length(leaf) ==> Mask(e, n)[j]
  }

  lemma {:induction false} NothingLeft(r: seq<bool>, m: seq<bool>)
    requires |r| == |m|
    ensures true !in Erase(r, m) <==> forall j :: 0 <= j < |r| && r[j] ==> m[j]
  {
    if r != [] {
      NothingLeft(r[1..], m[1..]);
      assert forall j :: 0 < j < |r| ==> r[j] == r[1..][j - 1] && m[j] == m[1..][j - 1];
      assert forall j :: 0 <= j < |r| - 1 ==> r[1..][j] == r[j + 1] && m[1..][j] == m[j + 1];
    }
  }

  /** A leaf is empty past a deletion exactly if that has taken all its text. */
  lemma EmptyLeaf(leaf: Deletion, e: Deletion, n: nat)
    requires !leaf.SplitDelete? && Fits(leaf, n) && Fits(e, n) && DeletionAgainstDeletion(leaf, e).Done?
    ensures !DeletionAgainstDeletion(leaf, e).value.SplitDelete?
    ensures Length(DeletionAgainstDeletion(leaf, e).value) == 0 <==> TakesAll(e, leaf, n)
  {
    hide DeletionAgainstDeletion, Erase;
    LeafStaysLeaf(leaf, e);
    DeletionAgainstDeletionMask(leaf, e, n);
    var leaf', k := DeletionAgainstDeletion(leaf, e).value, Survivors(Mask(e, n));
    var r, r' := Range(n, leaf.position, Length(leaf)), Range(k, leaf'.position, Length(leaf'));
    NothingLeft(r, Mask(e, n));
    RangeIsRange(n, leaf.position, Length(leaf));
    RangeIsRange(k, leaf'.position, Length(leaf'));
    if Length(leaf') > 0 {
      assert r'[leaf'.position];
    }
  }

  predicate NoneEmpty(d: Deletion) {
    if d.SplitDelete? then NoneEmpty(d.first) && NoneEmpty(d.second) else Length(d) > 0
  }

  /** The deletion e takes all the text of some leaf of d. */
  predicate TakesSome(e: Deletion, d: Deletion, n: nat)
    requires Fits(e, n) && Fits(d, n)
  {
    if d.SplitDelete? then TakesSome(e, d.first, n) || TakesSome(e, d.second, n) else TakesAll(e, d, n)
  }

  /** No leaf is empty past a deletion exactly if it has not taken all the text of one. */
  lemma {:induction false} NoneEmptyPastDeletion(d: Deletion, e: Deletion, n: nat)
    requires Fits(d, n) && Fits(e, n) && DeletionAgainstDeletion(d, e).Done?
    ensures NoneEmpty(DeletionAgainstDeletion(d, e).value) <==> !TakesSome(e, d, n)
    decreases d
  {
    hide DeletionAgainstDeletion, TakesAll;
    if d.SplitDelete? {
      PartsPastDeletion(d.first, d.second, e);
      NoneEmptyPastDeletion(d.first, e, n);
      NoneEmptyPastDeletion(d.second, e, n);
    } else {
      EmptyLeaf(d, e, n);
    }
  }

  lemma {:induction false} NoneEmptyCounts(d: Deletion)
    ensures NoneEmpty(d) <==> CountEmpty(Unsplit(d)) == 0
  {
    if d.SplitDelete? {
      NoneEmptyCounts(d.first);
      NoneEmptyCounts(d.second);
      CountAppend(Unsplit(d.first), Unsplit(d.second), 0);
    } else {
      assert [d][1..] == [];
    }
  }

  // ----- over a run -----

  /** One of the operations empties a leaf of what has become of d by then. */
  ghost predicate EmptiesOnTheWay(ops: seq<Operation>, d: Deletion, s: seq<Cell>)
    requires Runs(ops, s) && Fits(d, |s|) && TransformAlong(d, ops).Done?
    decreases |ops|
  {
    ops != [] && (
      StepFits(d, ops[0], s);
      || (ops[0].Delete? && TakesSome(ops[0].deletion, d, |s|))
      || EmptiesOnTheWay(ops[1..], Transform(Delete(d), ops[0], NoId).value.deletion, DocumentAfter(ops[0], s)))
  }

  lemma StepFits(d: Deletion, op: Operation, s: seq<Cell>)
    requires Genuine(op, s) && Fits(d, |s|) && Transform(Delete(d), op, NoId).Done?
    ensures Applicable(op, |s|)
    ensures var o := Transform(Delete(d), op, NoId).value; o.Delete? && Fits(o.deletion, |DocumentAfter(op, s)|)
  {
    match op
    case Insert(p, x) => DeletionAgainstInsertMask(d, p, |x|, |s|);
    case Delete(e) =>
      TruthfulFits(e, s);
      DeletionAgainstDeletionMask(d, e, |s|);
  }

  /** How many leaves of what has become of d by then the inserted texts come inside of. */
  function Cuts(d: Deletion, ops: seq<Operation>): nat
    requires TransformAlong(d, ops).Done?
    decreases |ops|
  {
    if ops == [] then 0
    else
      (if ops[0].Insert? then CountInside(Unsplit(d), ops[0].position) else 0)
      + Cuts(Transform(Delete(d), ops[0], NoId).value.deletion, ops[1..])
  }

  /** Over any run, every insertion strictly inside a leaf makes one leaf more, and nothing else does. */
  lemma {:induction false} PiecesAlong(d: Deletion, ops: seq<Operation>)
    requires TransformAlong(d, ops).Done?
    ensures Size(TransformAlong(d, ops).value) == Size(d) + Cuts(d, ops)
    decreases |ops|
  {
    if ops != [] {
      if ops[0].Insert? {
        PiecesPastInsert(d, ops[0].position, |ops[0].chunk|);
      }
      PiecesAlong(Transform(Delete(d), ops[0], NoId).value.deletion, ops[1..]);
    }
  }

  /** One step: only a deletion empties a leaf. */
  lemma NoneEmptyStep(d: Deletion, op: Operation, s: seq<Cell>)
    requires Genuine(op, s) && Fits(d, |s|) && Transform(Delete(d), op, NoId).Done?
    ensures Applicable(op, |s|)
    ensures NoneEmpty(Transform(Delete(d), op, NoId).value.deletion)
      <==> if op.Insert? then NoneEmpty(d) else !TakesSome(op.deletion, d, |s|)
  {
    hide DeletionAgainstInsert, DeletionAgainstDeletion, TakesSome, NoneEmpty, CountEmpty;
    StepFits(d, op, s);
    match op
    case Insert(p, x) =>
      PiecesPastInsert(d, p, |x|);
      NoneEmptyCounts(d);
      NoneEmptyCounts(DeletionAgainstInsert(d, p, |x|).value);
    case Delete(e) => NoneEmptyPastDeletion(d, e, |s|);
  }

  /** An empty leaf is taken by whatever happens. */
  lemma {:induction false} EmptyIsTaken(d: Deletion, e: Deletion, n: nat)
    requires Fits(d, n) && Fits(e, n)
    ensures !NoneEmpty(d) ==> TakesSome(e, d, n)
    decreases d
  {
    if d.SplitDelete? {
      EmptyIsTaken(d.first, e, n);
      EmptyIsTaken(d.second, e, n);
    }
  }

  /** Over any run: a leaf is empty in the end exactly if it was to begin with or some deletion
      has taken all the text that a leaf still had. */
  lemma {:induction false} NoneEmptyAlong(d: Deletion, ops: seq<Operation>, s: seq<Cell>)
    requires Runs(ops, s) && Fits(d, |s|) && TransformAlong(d, ops).Done?
    ensures NoneEmpty(TransformAlong(d, ops).value) <==> NoneEmpty(d) && !EmptiesOnTheWay(ops, d, s)
    decreases |ops|
  {
    hide Genuine, Transform, TakesSome, NoneEmpty, DocumentAfter;
    if ops != [] {
      StepFits(d, ops[0], s);
      NoneEmptyStep(d, ops[0], s);
      if ops[0].Delete? {
        EmptyIsTaken(d, ops[0].deletion, |s|);
      }
      NoneEmptyAlong(Transform(Delete(d), ops[0], NoId).value.deletion, ops[1..], DocumentAfter(ops[0], s));
    }
  }
}
