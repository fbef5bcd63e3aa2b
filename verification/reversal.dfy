/** Making a remote deletion reversible: the default deletion it stands for is rebuilt
    from what it recorded on its way and from what is left in the document. */
module Reversal {
  import opened Text
  import opened Masks
  import opened Operations
  import opened Effects
  import opened Truth
  import opened Reconstruction

  // ----- runs -----

  /** A sequence of genuine operations, each on the document the ones before it made. */
  predicate Runs(ops: seq<Operation>, s: seq<Cell>)
    decreases |ops|
  {
    ops == [] || (Genuine(ops[0], s) && Runs(ops[1..], DocumentAfter(ops[0], s)))
  }

  function DocumentAfter(op: Operation, s: seq<Cell>): seq<Cell>
    requires Genuine(op, s)
  {
    if op.Delete? then TruthfulFits(op.deletion, s); Apply(op, s).value else Apply(op, s).value
  }

  function DocumentAfterAll(ops: seq<Operation>, s: seq<Cell>): seq<Cell>
    requires Runs(ops, s)
    decreases |ops|
  {
    if ops == [] then s else DocumentAfterAll(ops[1..], DocumentAfter(ops[0], s))
  }

  /** A deletion transformed against a sequence of operations; it needs no concurrency id. */
  function TransformAlong(d: Deletion, ops: seq<Operation>): Outcome<Deletion>
    decreases |ops|
  {
    if ops == [] then Done(d)
    else
      var op :- Transform(Delete(d), ops[0], NoId);
      TransformAlong(op.deletion, ops[1..])
  }

  /** One step keeps what a deletion recovers. */
  lemma RecoversStep(d: Deletion, op: Operation, s: seq<Cell>, t: seq<Cell>, k: nat)
    requires Recovers(d, s, t, k) && Genuine(op, s)
    ensures Transform(Delete(d), op, NoId).Done?
    ensures var d' := Transform(Delete(d), op, NoId).value.deletion;
      Recovers(d', DocumentAfter(op, s), t, k) && Span(d') == Span(d)
  {
    match op
    case Insert(p, x) => RecoversPastInsert(d, s, t, k, p, x);
    case Delete(e) => RecoversPastDeletion(d, e, s, t, k);
  }

  lemma {:induction false} RecoversAlong(d: Deletion, ops: seq<Operation>, s: seq<Cell>, t: seq<Cell>, k: nat)
    requires Recovers(d, s, t, k) && Runs(ops, s)
    ensures TransformAlong(d, ops).Done?
    ensures var d' := TransformAlong(d, ops).value;
      Recovers(d', DocumentAfterAll(ops, s), t, k) && Span(d') == Span(d)
    decreases |ops|
  {
    if ops != [] {
      RecoversStep(d, ops[0], s, t, k);
      RecoversAlong(Transform(Delete(d), ops[0], NoId).value.deletion, ops[1..], DocumentAfter(ops[0], s), t, k);
    }
  }

  // ----- making reversible -----

  /** Appends recorded texts; each has to continue where the text so far ends. */
  function AppendRecon(recon: List<Recon>, offset: nat, chunk: seq<Cell>): Outcome<seq<Cell>> {
    match recon
    case Nil => Done(chunk)
    case Cons(r, rest) =>
      if offset + r.position != |chunk| then AssertionFailed
      else AppendRecon(rest, offset, chunk + r.chunk)
  }

  predicate LeavesFit(leaves: seq<Deletion>, n: nat) {
    forall i :: 0 <= i < |leaves| ==> !leaves[i].SplitDelete? && Fits(leaves[i], n)
  }

  /** The recon list of a remote leaf, with the text that is still in the document. */
  function FullRecon(leaf: Deletion, s: seq<Cell>): List<Recon>
    requires leaf.RemoteDelete? && Fits(leaf, |s|)
  {
    if leaf.length > 0 then ReconFeed(leaf.recon, 0, s[leaf.position..leaf.position + leaf.length]) else leaf.recon
  }

  function Collect(leaves: seq<Deletion>, s: seq<Cell>, chunk: seq<Cell>): Outcome<seq<Cell>>
    requires LeavesFit(leaves, |s|)
    decreases |leaves|
  {
    if leaves == [] then Done(chunk)
    else if !leaves[0].RemoteDelete? then AssertionFailed
    else
      var c :- AppendRecon(FullRecon(leaves[0], s), leaves[0].reconOffset, chunk);
      Collect(leaves[1..], s, c)
  }

  lemma {:induction false} UnsplitFits(d: Deletion, n: nat)
    requires Fits(d, n)
    ensures LeavesFit(Unsplit(d), n)
  {
    if d.SplitDelete? {
      UnsplitFits(d.first, n);
      UnsplitFits(d.second, n);
    }
  }

  /** The reversible form of op, given what has become of it and the document it is now in. */
  function MakeReversible(op: Deletion, with: Deletion, s: seq<Cell>): Outcome<Deletion>
    requires op.RemoteDelete? && Fits(with, |s|)
  {
    UnsplitFits(with, |s|);
    var chunk :- Collect(Unsplit(with), s, []);
    Done(DefaultDelete(op.position, chunk))
  }

  // ----- the text comes out whole -----

  /** A list around no text at all has no gaps, and so no assertion about it fails. */
  lemma {:induction false} AppendsAll(recon: List<Recon>, off: nat, s: seq<Cell>, i: nat,
                                      t: seq<Cell>, k: nat, end: nat)
    requires Records(recon, off, s, i, i, t, k, end)
    ensures AppendRecon(recon, off, t[..k]) == Done(t[..end])
  {
    match recon
    case Nil =>
    case Cons(r, rest) =>
      assert t[..k] + r.chunk == t[..k + |r.chunk|];
      AppendsAll(rest, off, s, i, t, k + |r.chunk|, end);
  }

  /** Feeding all the text that is left. */
  lemma WholeFeeds(f: Feeding)
    requires f.lo <= f.hi <= |f.s| && f.begin == 0 && f.chunk == f.s[f.lo..f.hi] && f.d == 0
    requires f.s' == Cut(f.s, f.lo, f.hi - f.lo)
    ensures f.Valid()
  {
  }

  /** A leaf gives its part of the text. */
  lemma LeafAppends(leaf: Deletion, s: seq<Cell>, t: seq<Cell>, k: nat)
    requires leaf.RemoteDelete? && Recovers(leaf, s, t, k) && Fits(leaf, |s|) && k + Span(leaf) <= |t|
    ensures AppendRecon(FullRecon(leaf, s), leaf.reconOffset, t[..k]) == Done(t[..k + Span(leaf)])
  {
    hide Records, Feeding.Valid, FeedFrom, Cut, AppendRecon;
    var p, hi, end := leaf.position, leaf.position + leaf.length, k + Span(leaf);
    if leaf.length > 0 {
      var f := Feeding(k, t, end, s, p, hi, 0, s[p..hi], 0, Cut(s, p, leaf.length));
      WholeFeeds(f);
      FeedRecords(f, leaf.recon, p, k, 0, 0);
      AppendsAll(FullRecon(leaf, s), k, f.s', p, t, k, end);
    } else {
      AppendsAll(leaf.recon, k, s, p, t, k, end);
    }
  }

  lemma {:induction false} CollectAppend(a: seq<Deletion>, b: seq<Deletion>, s: seq<Cell>, chunk: seq<Cell>)
    requires LeavesFit(a, |s|) && LeavesFit(b, |s|) && Collect(a, s, chunk).Done?
    ensures LeavesFit(a + b, |s|)
    ensures Collect(a + b, s, chunk) == Collect(b, s, Collect(a, s, chunk).value)
    decreases |a|
  {
    if a == [] {
      assert a + b == b;
    } else {
      assert (a + b)[0] == a[0] && (a + b)[1..] == a[1..] + b;
      CollectAppend(a[1..], b, s, AppendRecon(FullRecon(a[0], s), a[0].reconOffset, chunk).value);
    }
  }

  /** The leaves give the text from k on, one after the other. */
  lemma {:induction false} CollectsAll(d: Deletion, s: seq<Cell>, t: seq<Cell>, k: nat)
    requires Recovers(d, s, t, k)
    ensures Fits(d, |s|) && k + Span(d) <= |t| && LeavesFit(Unsplit(d), |s|)
    ensures Collect(Unsplit(d), s, t[..k]) == Done(t[..k + Span(d)])
  {
    RecoversFits(d, s, t, k);
    UnsplitFits(d, |s|);
    if d.SplitDelete? {
      CollectsAll(d.first, s, t, k);
      CollectsAll(d.second, s, t, k + Span(d.first));
      CollectAppend(Unsplit(d.first), Unsplit(d.second), s, t[..k]);
    } else {
      LeafAppends(d, s, t, k);
      OneLeaf(d, s, t[..k]);
    }
  }

  lemma OneLeaf(d: Deletion, s: seq<Cell>, chunk: seq<Cell>)
    requires d.RemoteDelete? && Fits(d, |s|) && AppendRecon(FullRecon(d, s), d.reconOffset, chunk).Done?
    ensures LeavesFit([d], |s|)
    ensures Collect([d], s, chunk) == AppendRecon(FullRecon(d, s), d.reconOffset, chunk)
  {
    assert [d][1..] == [];
  }

  /** A remote deletion that was made on document s and has gone past any genuine
      operations becomes, with no assertion failing, the default deletion that stands at
      its original position and names exactly the characters and authors that stood there. */
  lemma UndoReconstruction(s: seq<Cell>, position: nat, length: nat, ops: seq<Operation>)
    requires position + length <= |s| && Runs(ops, s)
    ensures var op := NewRemoteDelete(position, length);
      && TransformAlong(op, ops).Done?
      && Fits(TransformAlong(op, ops).value, |DocumentAfterAll(ops, s)|)
      && MakeReversible(op, TransformAlong(op, ops).value, DocumentAfterAll(ops, s))
         == Done(DefaultDelete(position, s[position..position + length]))
  {
    var op, t := NewRemoteDelete(position, length), s[position..position + length];
    assert Recovers(op, s, t, 0);
    RecoversAlong(op, ops, s, t, 0);
    CollectsAll(TransformAlong(op, ops).value, DocumentAfterAll(ops, s), t, 0);
    assert t[..0] == [] && t[..length] == t;
  }
}
