/** Two concurrent operations in either order, and one past two others along either path,
    when one of them may be a remote deletion, whatever it has recorded on its way. */
module Paths {
  import opened Text
  import opened Masks
  import opened Operations
  import opened Effects
  import opened Convergence
  import opened Truth
  import opened Reconstruction
  import opened Reversal
  import opened Siblings

  /** A remote deletion, new or on its way: its parts are in order, and with what they have
      recorded they make up a stretch of some text. */
  ghost predicate Recorded(op: Operation, s: seq<Cell>) {
    op.Delete? && Ordered(op.deletion) && exists t, k :: Recovers(op.deletion, s, t, k)
  }

  /** A new remote deletion is one. */
  lemma NewIsRecorded(position: nat, length: nat, s: seq<Cell>)
    requires position + length <= |s|
    ensures Recorded(Delete(NewRemoteDelete(position, length)), s)
  {
    assert Recovers(NewRemoteDelete(position, length), s, s[position..position + length], 0);
  }

  lemma RecordedApplies(op: Operation, s: seq<Cell>)
    requires Recorded(op, s)
    ensures Applicable(op, |s|) && Apply(op, s).Done?
  {
    var t, k :| Recovers(op.deletion, s, t, k);
    RecoversFits(op.deletion, s, t, k);
    OrderedApplies(op.deletion, s);
  }

  lemma GenuineApplies(op: Operation, s: seq<Cell>)
    requires Genuine(op, s)
    ensures Reversible(op) && Applicable(op, |s|) && Apply(op, s).Done? && Apply(op, s).value == DocumentAfter(op, s)
  {
    if op.Delete? {
      TruthfulFits(op.deletion, s);
    }
  }

  /** Past a genuine operation it still is one of the same text, and nothing fails. */
  lemma RecordedPast(op: Operation, against: Operation, s: seq<Cell>, cid: ConcurrencyId, t: seq<Cell>, k: nat)
    requires op.Delete? && Ordered(op.deletion) && Recovers(op.deletion, s, t, k) && Genuine(against, s)
    ensures Transform(op, against, cid).Done?
    ensures var op' := Transform(op, against, cid).value;
      op'.Delete? && Ordered(op'.deletion) && Recovers(op'.deletion, DocumentAfter(against, s), t, k)
  {
    hide Recovers;
    RecoversStep(op.deletion, against, s, t, k);
    if against.Insert? {
      OrderedPastInsert(op.deletion, against.position, |against.chunk|);
    } else {
      OrderedPastDeletion(op.deletion, against.deletion);
    }
  }

  /** A default deletion past deletions that are in order, remote or not. */
  lemma {:induction false} DefaultPastOrdered(d: Deletion, e: Deletion)
    requires AllDefault(d) && Ordered(e)
    ensures DeletionAgainstDeletion(d, e).Done? && AllDefault(DeletionAgainstDeletion(d, e).value)
    decreases Size(e), Size(d)
  {
    if e.SplitDelete? {
      LaterPastEarlier(e.second, e.first);
      OrderedPastDeletion(e.second, e.first);
      DefaultPastOrdered(d, e.first);
      DefaultPastOrdered(DeletionAgainstDeletion(d, e.first).value, DeletionAgainstDeletion(e.second, e.first).value);
    } else if d.SplitDelete? {
      DefaultPastOrdered(d.first, e);
      DefaultPastOrdered(d.second, e);
    }
  }

  lemma {:induction false} PositionPastOrdered(p: nat, e: Deletion)
    requires Ordered(e)
    ensures PositionAgainstDeletion(p, e).Done?
    decreases Size(e)
  {
    if e.SplitDelete? {
      LaterPastEarlier(e.second, e.first);
      OrderedPastDeletion(e.second, e.first);
      PositionPastOrdered(p, e.first);
      PositionPastOrdered(PositionAgainstDeletion(p, e.first).value, DeletionAgainstDeletion(e.second, e.first).value);
    }
  }

  /** Nothing fails when an insertion or a default deletion goes past a remote deletion. */
  lemma ReversiblePastRecorded(op: Operation, against: Operation, s: seq<Cell>, cid: ConcurrencyId)
    requires Reversible(op) && Recorded(against, s)
    ensures Transform(op, against, cid).Done? && Reversible(Transform(op, against, cid).value)
  {
    if op.Insert? {
      PositionPastOrdered(op.position, against.deletion);
    } else {
      DefaultPastOrdered(op.deletion, against.deletion);
    }
  }

  lemma RecordedPathsMeet(s: seq<Cell>, a: Operation, b: Operation, cid: ConcurrencyId)
    requires Recorded(a, s) && Genuine(b, s)
    ensures Applicable(a, |s|) && Applicable(b, |s|)
    ensures Apply(a, s).Done? && Apply(b, s).Done? && Transform(a, b, cid).Done? && Transform(b, a, Flip(cid)).Done?
    ensures var sa, sb := Apply(a, s).value, Apply(b, s).value;
      var a', b' := Transform(a, b, cid).value, Transform(b, a, Flip(cid)).value;
      && Applicable(b', |sa|) && Applicable(a', |sb|)
      && Apply(b', sa).Done? && Apply(b', sa) == Apply(a', sb)
  {
    hide Apply, Transform, Applicable, Genuine, Reversible, DocumentAfter, Recovers;
    RecordedApplies(a, s);
    GenuineApplies(b, s);
    var t, k :| Recovers(a.deletion, s, t, k);
    RecordedPast(a, b, s, cid, t, k);
    ReversiblePastRecorded(b, a, s, Flip(cid));
    NoTie(a, b, s);
    PathsMeet(s, a, b, cid);
    ReversibleApplies(Apply(a, s).value, Transform(b, a, Flip(cid)).value);
    RecordedApplies(Transform(a, b, cid).value, DocumentAfter(b, s));
  }

  lemma NoTie(a: Operation, b: Operation, s: seq<Cell>)
    requires Recorded(a, s)
    ensures !NeedConcurrencyId(a, b) && !NeedConcurrencyId(b, a)
  {
  }

  /** Two remote deletions transform exactly if they stand apart.  A site does not meet with two
      that overlap: it makes a remote deletion reversible before another operation goes past it. */
  lemma RemotePastRemote(d: Deletion, e: Deletion)
    requires d.RemoteDelete? && e.RemoteDelete?
    ensures DeletionAgainstDeletion(d, e).Done?
      <==> d.position + d.length <= e.position || e.position + e.length <= d.position
  {
  }

  /** Two concurrent operations of which neither or one is a remote deletion. */
  ghost predicate Compatible(a: Operation, b: Operation, s: seq<Cell>) {
    || (Reversible(a) && Reversible(b) && Applicable(a, |s|) && Applicable(b, |s|))
    || (Recorded(a, s) && Genuine(b, s))
    || (Genuine(a, s) && Recorded(b, s))
  }

  /** Whichever of two concurrent operations comes first, the other one transformed against it
      leads to the same document, authors included, and nothing fails. */
  lemma TwoWayConvergence(s: seq<Cell>, a: Operation, b: Operation, cid: ConcurrencyId)
    requires Compatible(a, b, s) && (NeedConcurrencyId(a, b) ==> cid != NoId)
    ensures Applicable(a, |s|) && Applicable(b, |s|)
    ensures Apply(a, s).Done? && Apply(b, s).Done? && Transform(a, b, cid).Done? && Transform(b, a, Flip(cid)).Done?
    ensures var sa, sb := Apply(a, s).value, Apply(b, s).value;
      var a', b' := Transform(a, b, cid).value, Transform(b, a, Flip(cid)).value;
      && Applicable(b', |sa|) && Applicable(a', |sb|)
      && Apply(b', sa).Done? && Apply(b', sa) == Apply(a', sb)
  {
    hide Apply, Transform, Applicable, Genuine, Reversible, Recorded;
    if Reversible(a) && Reversible(b) && Applicable(a, |s|) && Applicable(b, |s|) {
      ReversiblePathsMeet(s, a, b, cid);
    } else if Recorded(a, s) && Genuine(b, s) {
      RecordedPathsMeet(s, a, b, cid);
    } else {
      RecordedPathsMeet(s, b, a, Flip(cid));
    }
  }

  /** A remote deletion past two concurrent requests. */
  lemma RecordedPastTwo(s: seq<Cell>, c: Request, a: Request, b: Request)
    requires AllConcurrent([a, b], |s|) && Transformable(a, |s|) && Transformable(b, |s|)
    requires Recorded(c.op, s) && Genuine(a.op, s) && Genuine(b.op, s)
    ensures Past(c, a, b).Done?
  {
    hide Recovers, Transform, Apply, DocumentAfter, Genuine;
    var cid := TieId(c, a);
    var t, k :| Recovers(c.op.deletion, s, t, k);
    RecordedPast(c.op, a.op, s, cid, t, k);
    TransformRequestDone(b, a, |s|);
    GenuineApplies(a.op, s);
    GenuinePastGenuine(b.op, a.op, s, TieId(b, a));
    RecordedPast(Transform(c.op, a.op, cid).value, Transform(b.op, a.op, TieId(b, a)).value, DocumentAfter(a.op, s),
                 TieId(TransformRequest(c, a).value, TransformRequest(b, a).value), t, k);
  }

  /** The id with which a request is transformed. */
  function TieId(r: Request, a: Request): ConcurrencyId {
    var cid := if NeedConcurrencyId(r.op, a.op) then GetConcurrencyId(r.origin, a.origin) else NoId;
    if cid != NoId then cid else if r.user > a.user then Other else Self
  }

  /** A request past two others, that are in the log and so reversible, has the same effect along
      both paths, and nothing fails: as long as a tie that a deletion made goes by the operations
      before the deletion. */
  lemma ThreeWayConvergence(s: seq<Cell>, c: Request, a: Request, b: Request)
    requires AllConcurrent([a, b], |s|) && AllTransformable([a, b], |s|)
    requires c.origin == c.op && c.user != a.user && c.user != b.user
    requires (Reversible(c.op) && Applicable(c.op, |s|))
      || (Recorded(c.op, s) && Genuine(a.op, s) && Genuine(b.op, s))
    ensures Past(c, a, b).Done? && Past(c, b, a).Done? && Integrate(s, [a, b]).Done?
    ensures SameEffect(Past(c, a, b).value.op, Past(c, b, a).value.op, |Integrate(s, [a, b]).value|)
  {
    hide Past, Recorded, Integrate, EffectOf, Genuine;
    var n, two, owt := |s|, [a, b], [b, a];
    assert two[0] == a && two[1] == b;
    if Reversible(c.op) && Applicable(c.op, n) {
      ReversiblePast(c, a, b, n);
      ReversiblePast(c, b, a, n);
    } else {
      RecordedApplies(c.op, s);
      assert AllConcurrent(owt, n);
      RecordedPastTwo(s, c, a, b);
      RecordedPastTwo(s, c, b, a);
    }
    ThreePathsMeet(s, c, a, b);
  }
}
