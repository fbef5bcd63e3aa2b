/** Concurrent operations converge: two of them in either order, a third one past two
    others along either path, and any number of them in any order. */
module Convergence {
  import opened Text
  import opened Masks
  import opened Operations
  import opened Effects

  // ----- effects -----

  /** What an operation does to one document. */
  datatype Effect = Inserts(position: nat, text: seq<Cell>) | Deletes(mask: seq<bool>)

  predicate On(e: Effect, n: nat) {
    match e
    case Inserts(p, _) => p <= n
    case Deletes(m) => |m| == n
  }

  function EffectOf(op: Operation, n: nat): (e: Effect)
    requires Applicable(op, n)
    ensures On(e, n)
  {
    match op
    case Insert(p, x) => Inserts(p, x)
    case Delete(d) => Deletes(Mask(d, n))
  }

  function LengthAfter(e: Effect, n: nat): nat
    requires On(e, n)
  {
    match e
    case Inserts(_, x) => n + |x|
    case Deletes(m) => Survivors(m)
  }

  function Enact(e: Effect, s: seq<Cell>): (r: seq<Cell>)
    requires On(e, |s|)
    ensures |r| == LengthAfter(e, |s|)
  {
    match e
    case Inserts(p, x) => Splice(s, p, x)
    case Deletes(m) => Erase(s, m)
  }

  /** The effect e past the effect f; stays says whether e keeps its place at a tie of two insertions. */
  function Carry(e: Effect, f: Effect, n: nat, stays: bool): (r: Effect)
    requires On(e, n) && On(f, n)
    ensures On(r, LengthAfter(f, n))
  {
    match (e, f)
    case (Inserts(p, x), Inserts(q, y)) =>
      Inserts(if p < q || (p == q && stays) then p else p + |y|, x)
    case (Inserts(p, x), Deletes(m)) => EraseAt(m, m, p); Inserts(Rank(m, p), x)
    case (Deletes(k), Inserts(q, y)) => Deletes(Splice(k, q, Clear(|y|)))
    case (Deletes(k), Deletes(m)) => Deletes(Erase(k, m))
  }

  /** Transforming an operation carries its effect. */
  lemma TransformCarries(op: Operation, against: Operation, cid: ConcurrencyId, n: nat)
    requires Applicable(op, n) && Applicable(against, n) && Transform(op, against, cid).Done?
    ensures var n' := LengthAfter(EffectOf(against, n), n); var op' := Transform(op, against, cid).value;
      && Applicable(op', n')
      && EffectOf(op', n') == Carry(EffectOf(op, n), EffectOf(against, n), n, cid == Other)
  {
    match (op, against)
    case (Insert(p, x), Insert(q, y)) =>
    case (Insert(p, x), Delete(e)) => PositionAgainstDeletionRank(p, e, n);
    case (Delete(d), Insert(q, y)) => DeletionAgainstInsertMask(d, q, |y|, n);
    case (Delete(d), Delete(e)) => DeletionAgainstDeletionMask(d, e, n);
  }

  lemma ApplyEnacts(op: Operation, s: seq<Cell>)
    requires Applicable(op, |s|) && Apply(op, s).Done?
    ensures Apply(op, s).value == Enact(EffectOf(op, |s|), s)
  {
  }

  // ----- two operations -----

  lemma InsertsCommute(s: seq<Cell>, p: nat, x: seq<Cell>, q: nat, y: seq<Cell>, stays: bool)
    requires p <= |s| && q <= |s|
    ensures var p' := if p < q || (p == q && stays) then p else p + |y|;
      var q' := if q < p || (q == p && !stays) then q else q + |x|;
      Splice(Splice(s, p, x), q', y) == Splice(Splice(s, q, y), p', x)
  {
    if p < q || (p == q && stays) { SpliceSplice(s, p, x, q, y); } else { SpliceSplice(s, q, y, p, x); }
  }

  lemma EnactCommutes(s: seq<Cell>, e: Effect, f: Effect, stays: bool)
    requires On(e, |s|) && On(f, |s|)
    ensures Enact(Carry(f, e, |s|, !stays), Enact(e, s)) == Enact(Carry(e, f, |s|, stays), Enact(f, s))
  {
    hide Splice, Erase, Rank, Or, Clear, Survivors;
    match (e, f)
    case (Inserts(p, x), Inserts(q, y)) => InsertsCommute(s, p, x, q, y, stays);
    case (Inserts(p, x), Deletes(m)) => EraseSplice(s, m, p, x);
    case (Deletes(k), Inserts(q, y)) => EraseSplice(s, k, q, y);
    case (Deletes(k), Deletes(m)) =>
      EraseTwice(s, k, m);
      EraseTwice(s, m, k);
      OrCommutes(k, m);
  }

  /** Whichever of two concurrent operations comes first, the other one transformed against it
      leads to the same document, authors included, as long as no assertion fails. */
  lemma PathsMeet(s: seq<Cell>, a: Operation, b: Operation, cid: ConcurrencyId)
    requires Applicable(a, |s|) && Applicable(b, |s|)
    requires NeedConcurrencyId(a, b) ==> cid != NoId
    requires Apply(a, s).Done? && Apply(b, s).Done?
    requires Transform(a, b, cid).Done? && Transform(b, a, Flip(cid)).Done?
    ensures var sa, sb := Apply(a, s).value, Apply(b, s).value;
      var a', b' := Transform(a, b, cid).value, Transform(b, a, Flip(cid)).value;
      && Applicable(b', |sa|) && Applicable(a', |sb|)
      && (Apply(b', sa).Done? && Apply(a', sb).Done? ==> Apply(b', sa) == Apply(a', sb))
  {
    var n, sa, sb := |s|, Apply(a, s).value, Apply(b, s).value;
    var a', b' := Transform(a, b, cid).value, Transform(b, a, Flip(cid)).value;
    ApplyEnacts(a, s);
    ApplyEnacts(b, s);
    TransformCarries(a, b, cid, n);
    TransformCarries(b, a, Flip(cid), n);
    EnactCommutes(s, EffectOf(a, n), EffectOf(b, n), cid == Other);
    if Apply(b', sa).Done? && Apply(a', sb).Done? {
      ApplyEnacts(b', sa);
      ApplyEnacts(a', sb);
    }
  }

  predicate Reversible(op: Operation) {
    op.Delete? ==> AllDefault(op.deletion)
  }

  /** Insertions and default deletions, split or not, never fail an assertion. */
  lemma ReversibleNeverFails(s: seq<Cell>, a: Operation, b: Operation, cid: ConcurrencyId)
    requires Reversible(a) && Reversible(b) && Applicable(a, |s|)
    requires NeedConcurrencyId(a, b) ==> cid != NoId
    ensures Apply(a, s).Done?
    ensures Transform(a, b, cid).Done? && Reversible(Transform(a, b, cid).value)
  {
  }

  /** For insertions and default deletions, split or not, nothing fails. */
  lemma ReversiblePathsMeet(s: seq<Cell>, a: Operation, b: Operation, cid: ConcurrencyId)
    requires Reversible(a) && Reversible(b) && Applicable(a, |s|) && Applicable(b, |s|)
    requires NeedConcurrencyId(a, b) ==> cid != NoId
    ensures Apply(a, s).Done? && Apply(b, s).Done? && Transform(a, b, cid).Done? && Transform(b, a, Flip(cid)).Done?
    ensures var sa, sb := Apply(a, s).value, Apply(b, s).value;
      var a', b' := Transform(a, b, cid).value, Transform(b, a, Flip(cid)).value;
      && Applicable(b', |sa|) && Applicable(a', |sb|)
      && Apply(b', sa).Done? && Apply(b', sa) == Apply(a', sb)
  {
    hide Apply, Transform, Applicable;
    ReversibleNeverFails(s, a, b, cid);
    ReversibleNeverFails(s, b, a, Flip(cid));
    PathsMeet(s, a, b, cid);
    ReversibleApplies(Apply(a, s).value, Transform(b, a, Flip(cid)).value);
    ReversibleApplies(Apply(b, s).value, Transform(a, b, cid).value);
  }

  lemma ReversibleApplies(s: seq<Cell>, a: Operation)
    requires Reversible(a) && Applicable(a, |s|)
    ensures Apply(a, s).Done?
  {
  }

  // ----- three operations -----

  /** An operation on its way: who asked for it, and as what, when the users had the same document. */
  datatype Request = Request(op: Operation, user: nat, origin: Operation)

  /** A tie of two insertions goes by where they stood originally, and if that is a
      tie as well, by user. */
  function TransformRequest(r: Request, against: Request): Outcome<Request> {
    var cid := if NeedConcurrencyId(r.op, against.op) then GetConcurrencyId(r.origin, against.origin) else NoId;
    var op :- Transform(r.op, against.op,
                        if cid != NoId then cid else if r.user > against.user then Other else Self);
    Done(r.(op := op))
  }

  /** An effect on its way; rank is where an insertion stood originally. */
  datatype Edit = Edit(effect: Effect, user: nat, rank: nat)

  /** An insertion's place among all insertions. */
  predicate Precedes(e: Edit, f: Edit) {
    e.rank < f.rank || (e.rank == f.rank && e.user > f.user)
  }

  function CarryEdit(e: Edit, f: Edit, n: nat): (r: Edit)
    requires On(e.effect, n) && On(f.effect, n)
    ensures On(r.effect, LengthAfter(f.effect, n))
  {
    e.(effect := Carry(e.effect, f.effect, n, Precedes(e, f)))
  }

  /** The insertions stand in the order of their places. */
  predicate Coherent(e: Edit, f: Edit) {
    && e.user != f.user
    && (e.effect.Inserts? && f.effect.Inserts? && e.effect.position < f.effect.position ==> Precedes(e, f))
    && (e.effect.Inserts? && f.effect.Inserts? && f.effect.position < e.effect.position ==> Precedes(f, e))
  }

  /** Carrying two edits past a third one keeps them in order. */
  lemma CarryKeepsCoherence(e: Edit, f: Edit, g: Edit, n: nat)
    requires On(e.effect, n) && On(f.effect, n) && On(g.effect, n)
    requires Coherent(e, f) && Coherent(e, g) && Coherent(f, g)
    ensures Coherent(CarryEdit(e, g, n), CarryEdit(f, g, n))
  {
    if e.effect.Inserts? && f.effect.Inserts? && g.effect.Deletes? {
      RankSplice(g.effect.mask, e.effect.position, 0, f.effect.position);
      RankSplice(g.effect.mask, f.effect.position, 0, e.effect.position);
    }
  }

  /** An edit past two others ends up the same along both paths. */
  lemma CarryPaths(c: Edit, a: Edit, b: Edit, n: nat)
    requires On(c.effect, n) && On(a.effect, n) && On(b.effect, n)
    requires Coherent(c, a) && Coherent(c, b) && Coherent(a, b)
    ensures var na, nb := LengthAfter(a.effect, n), LengthAfter(b.effect, n);
      CarryEdit(CarryEdit(c, a, n), CarryEdit(b, a, n), na) == CarryEdit(CarryEdit(c, b, n), CarryEdit(a, b, n), nb)
  {
    hide Splice, Erase, Rank, Or, Clear, Survivors;
    match (c.effect, a.effect, b.effect)
    case (Inserts(p, x), Inserts(q, y), Inserts(r, z)) =>
    case (Inserts(p, x), Deletes(m), Inserts(q, y)) => RankSplice(m, q, |y|, p);
    case (Inserts(p, x), Inserts(q, y), Deletes(m)) => RankSplice(m, q, |y|, p);
    case (Inserts(p, x), Deletes(k), Deletes(m)) =>
      RankTwice(k, m, p);
      RankTwice(m, k, p);
      OrCommutes(k, m);
    case (Deletes(k), _, _) => MaskPaths(k, a, b, n);
  }

  /** A mask is carried like a document whose new characters are all false. */
  lemma MaskPaths(k: seq<bool>, a: Edit, b: Edit, n: nat)
    requires |k| == n && On(a.effect, n) && On(b.effect, n) && Coherent(a, b)
    ensures var na, nb := LengthAfter(a.effect, n), LengthAfter(b.effect, n); var c := Deletes(k);
      Carry(Carry(c, a.effect, n, true), CarryEdit(b, a, n).effect, na, true)
      == Carry(Carry(c, b.effect, n, true), CarryEdit(a, b, n).effect, nb, true)
  {
    hide Splice, Erase, Rank, Or, Clear, Survivors;
    match (a.effect, b.effect)
    case (Inserts(p, x), Inserts(q, y)) =>
      if p < q || (p == q && Precedes(a, b)) {
        SpliceSplice(k, p, Clear(|x|), q, Clear(|y|));
      } else {
        SpliceSplice(k, q, Clear(|y|), p, Clear(|x|));
      }
    case (Inserts(p, x), Deletes(m)) => EraseSplice(k, m, p, Clear(|x|));
    case (Deletes(m), Inserts(q, y)) => EraseSplice(k, m, q, Clear(|y|));
    case (Deletes(l), Deletes(m)) =>
      EraseTwice(k, l, m);
      EraseTwice(k, m, l);
      OrCommutes(l, m);
  }

  predicate Placed(r: Request, n: nat) {
    Applicable(r.op, n) && (r.op.Insert? <==> r.origin.Insert?)
  }

  predicate Transformable(r: Request, n: nat) {
    Placed(r, n) && Reversible(r.op)
  }

  function EditOf(r: Request, n: nat): (e: Edit)
    requires Applicable(r.op, n)
    ensures On(e.effect, n)
  {
    Edit(EffectOf(r.op, n), r.user, if r.origin.Insert? then r.origin.position else 0)
  }

  /** Transforming a request carries its edit, whatever it deletes and knows of it. */
  lemma TransformRequestCarries(r: Request, a: Request, n: nat)
    requires Placed(r, n) && Placed(a, n) && TransformRequest(r, a).Done?
    ensures var r', n' := TransformRequest(r, a).value, LengthAfter(EffectOf(a.op, n), n);
      && Placed(r', n') && r'.user == r.user && r'.origin == r.origin
      && EditOf(r', n') == CarryEdit(EditOf(r, n), EditOf(a, n), n)
  {
    var cid := if NeedConcurrencyId(r.op, a.op) then GetConcurrencyId(r.origin, a.origin) else NoId;
    var cid' := if cid != NoId then cid else if r.user > a.user then Other else Self;
    TransformCarries(r.op, a.op, cid', n);
  }

  lemma TransformRequestDone(r: Request, a: Request, n: nat)
    requires Transformable(r, n) && Transformable(a, n)
    ensures TransformRequest(r, a).Done?
    ensures Transformable(TransformRequest(r, a).value, LengthAfter(EffectOf(a.op, n), n))
  {
    var cid := if NeedConcurrencyId(r.op, a.op) then GetConcurrencyId(r.origin, a.origin) else NoId;
    var cid' := if cid != NoId then cid else if r.user > a.user then Other else Self;
    assert Transform(r.op, a.op, cid').Done? && Reversible(Transform(r.op, a.op, cid').value);
    TransformRequestCarries(r, a, n);
  }

  lemma LengthsAgree(a: Edit, b: Edit, n: nat)
    requires On(a.effect, n) && On(b.effect, n) && Coherent(a, b)
    ensures LengthAfter(CarryEdit(b, a, n).effect, LengthAfter(a.effect, n))
         == LengthAfter(CarryEdit(a, b, n).effect, LengthAfter(b.effect, n))
  {
    MaskPaths(Clear(n), a, b, n);
  }

  /** Carrying two insertions past a deletion and past each other. */
  lemma TieMadeByMask(m: seq<bool>, p: nat, q: nat, len: nat, earlier: bool, stays: bool)
    requires p <= |m| && q <= |m| && p != q && 0 < len && earlier == (p < q)
    ensures var p2 := if earlier then p else p + len;
      var p1, q1 := Rank(m, p), Rank(m, q);
      p2 <= |m| + len
      && ((if p1 < q1 || (p1 == q1 && stays) then p1 else p1 + len) == Rank(Splice(m, q, Clear(len)), p2)
          <==> (p1 == q1 ==> stays == earlier))
  {
    RankSplice(m, q, len, p);
  }

  lemma PositionAfterInsert(d: Deletion, q: nat, len: nat, p: nat, n: nat)
    requires AllDefault(d) && Fits(d, n) && q <= n && p <= n + len
    ensures PositionAgainstDeletion(p, DeletionAgainstInsert(d, q, len).value).Done?
    ensures PositionAgainstDeletion(p, DeletionAgainstInsert(d, q, len).value).value
         == Rank(Splice(Mask(d, n), q, Clear(len)), p)
  {
    DeletionAgainstInsertMask(d, q, len, n);
    PositionAgainstDeletionRank(p, DeletionAgainstInsert(d, q, len).value, n + len);
  }

  /** An insertion at p and one of len characters at q, which the deletion d brings to
      pa and qa; past the second one p is at pb and d is db.  The two paths meet exactly
      when a tie that d made goes by the positions before d. */
  lemma TieMadeByDeletion(p: nat, q: nat, len: nat, d: Deletion, n: nat, cid: ConcurrencyId,
                          pa: nat, qa: nat, pb: nat, db: Deletion)
    requires p <= n && q <= n && p != q && 0 < len && cid != NoId && AllDefault(d) && Fits(d, n)
    requires PositionAgainstDeletion(p, d) == Done(pa) && PositionAgainstDeletion(q, d) == Done(qa)
    requires PositionAgainstInsert(p, q, len, cid) == Done(pb) && DeletionAgainstInsert(d, q, len) == Done(db)
    ensures PositionAgainstInsert(pa, qa, len, cid) == PositionAgainstDeletion(pb, db)
      <==> (pa == qa ==> cid == if p < q then Other else Self)
  {
    hide PositionAgainstDeletion, DeletionAgainstInsert, Mask, Rank, Splice, Clear;
    var m := Mask(d, n);
    assert pa == Rank(m, p) by { PositionAgainstDeletionRank(p, d, n); }
    assert qa == Rank(m, q) by { PositionAgainstDeletionRank(q, d, n); }
    assert pb == if p < q then p else p + len;
    assert PositionAgainstDeletion(pb, db) == Done(Rank(Splice(m, q, Clear(len)), pb)) by {
      PositionAfterInsert(d, q, len, pb, n);
    }
    TieMadeByMask(m, p, q, len, p < q, cid == Other);
  }

  // ----- any number of operations -----

  /** The requests left once the first one has been applied. */
  function TransformAll(rs: seq<Request>, against: Request): (r: Outcome<seq<Request>>)
    ensures r.Done? ==> |r.value| == |rs|
  {
    if rs == [] then Done([])
    else
      var first :- TransformRequest(rs[0], against);
      var rest :- TransformAll(rs[1..], against);
      Done([first] + rest)
  }

  predicate AllTransformable(rs: seq<Request>, n: nat) {
    forall i :: 0 <= i < |rs| ==> Transformable(rs[i], n)
  }

  lemma {:induction false} TransformAllDone(rs: seq<Request>, a: Request, n: nat)
    requires AllTransformable(rs, n) && Transformable(a, n)
    ensures TransformAll(rs, a).Done?
    ensures var rs', n' := TransformAll(rs, a).value, LengthAfter(EffectOf(a.op, n), n);
      && AllTransformable(rs', n') && EditsOf(rs', n') == CarryAll(EditsOf(rs, n), EditOf(a, n), n)
  {
    if rs != [] {
      TransformRequestDone(rs[0], a, n);
      TransformRequestCarries(rs[0], a, n);
      TransformAllDone(rs[1..], a, n);
      var rs', n' := TransformAll(rs, a).value, LengthAfter(EffectOf(a.op, n), n);
      assert rs'[1..] == TransformAll(rs[1..], a).value;
      forall i | 0 <= i < |rs|
        ensures Transformable(rs'[i], n') && EditOf(rs'[i], n') == CarryEdit(EditOf(rs[i], n), EditOf(a, n), n)
      {
        if i > 0 {
          assert rs'[i] == rs'[1..][i - 1] && rs[i] == rs[1..][i - 1];
          assert EditsOf(rs'[1..], n')[i - 1] == CarryAll(EditsOf(rs[1..], n), EditOf(a, n), n)[i - 1];
        }
      }
      assert EditsOf(rs', n') == CarryAll(EditsOf(rs, n), EditOf(a, n), n);
    }
  }

  /** What a site does that receives concurrent requests in this order: it applies
      each one after transforming it past all the ones before. */
  function Integrate(s: seq<Cell>, rs: seq<Request>): (r: Outcome<seq<Cell>>)
    requires AllTransformable(rs, |s|)
    decreases |rs|
  {
    if rs == [] then Done(s)
    else
      var t :- Apply(rs[0].op, s);
      var rest :- TransformAll(rs[1..], rs[0]);
      TransformAllDone(rs[1..], rs[0], |s|);
      ApplyEnacts(rs[0].op, s);
      Integrate(t, rest)
  }

  function EditsOf(rs: seq<Request>, n: nat): (es: seq<Edit>)
    requires AllTransformable(rs, n)
    ensures |es| == |rs| && AllOn(es, n)
  {
    seq(|rs|, i requires 0 <= i < |rs| => EditOf(rs[i], n))
  }

  predicate AllOn(es: seq<Edit>, n: nat) {
    forall i :: 0 <= i < |es| ==> On(es[i].effect, n)
  }

  predicate AllCoherent(es: seq<Edit>) {
    forall i, j :: 0 <= i < |es| && 0 <= j < |es| && i != j ==> Coherent(es[i], es[j])
  }

  function CarryAll(es: seq<Edit>, f: Edit, n: nat): (r: seq<Edit>)
    requires AllOn(es, n) && On(f.effect, n)
    ensures |r| == |es| && AllOn(r, LengthAfter(f.effect, n))
    ensures forall i :: 0 <= i < |es| ==> r[i] == CarryEdit(es[i], f, n)
  {
    seq(|es|, i requires 0 <= i < |es| => CarryEdit(es[i], f, n))
  }

  function EnactAll(s: seq<Cell>, es: seq<Edit>): seq<Cell>
    requires AllOn(es, |s|)
    decreases |es|
  {
    if es == [] then s else EnactAll(Enact(es[0].effect, s), CarryAll(es[1..], es[0], |s|))
  }

  lemma {:induction false} IntegrateEnacts(s: seq<Cell>, rs: seq<Request>)
    requires AllTransformable(rs, |s|)
    ensures Integrate(s, rs) == Done(EnactAll(s, EditsOf(rs, |s|)))
    decreases |rs|
  {
    if rs != [] {
      TransformAllDone(rs[1..], rs[0], |s|);
      ApplyEnacts(rs[0].op, s);
      IntegrateEnacts(Apply(rs[0].op, s).value, TransformAll(rs[1..], rs[0]).value);
      assert EditsOf(rs, |s|)[1..] == EditsOf(rs[1..], |s|);
    }
  }

  lemma CarryAllKeepsCoherence(es: seq<Edit>, f: Edit, n: nat)
    requires AllOn(es, n) && On(f.effect, n) && AllCoherent([f] + es)
    ensures AllCoherent(CarryAll(es, f, n))
  {
    var fs := [f] + es;
    forall i, j | 0 <= i < |es| && 0 <= j < |es| && i != j
      ensures Coherent(CarryAll(es, f, n)[i], CarryAll(es, f, n)[j])
    {
      assert es[i] == fs[i + 1] && es[j] == fs[j + 1] && f == fs[0];
      CarryKeepsCoherence(es[i], es[j], f, n);
    }
  }

  lemma TwoInFront(a: Edit, b: Edit, es: seq<Edit>, n: nat)
    requires AllOn([a, b] + es, n) && AllCoherent([a, b] + es)
    ensures On(a.effect, n) && On(b.effect, n) && Coherent(a, b) && Coherent(b, a)
    ensures forall i :: 0 <= i < |es| ==> On(es[i].effect, n) && Coherent(es[i], a) && Coherent(es[i], b)
  {
    hide On, Coherent;
    var all := [a, b] + es;
    assert On(all[0].effect, n) && On(all[1].effect, n) && Coherent(all[0], all[1]) && Coherent(all[1], all[0]);
    forall i | 0 <= i < |es|
      ensures On(es[i].effect, n) && Coherent(es[i], a) && Coherent(es[i], b)
    {
      assert es[i] == all[i + 2] && On(all[i + 2].effect, n);
      assert Coherent(all[i + 2], all[0]) && Coherent(all[i + 2], all[1]);
    }
  }

  /** The first two edits may change places. */
  lemma SwapFirstTwo(s: seq<Cell>, a: Edit, b: Edit, es: seq<Edit>)
    requires AllOn([a, b] + es, |s|) && AllCoherent([a, b] + es)
    ensures AllOn([b, a] + es, |s|)
    ensures EnactAll(s, [a, b] + es) == EnactAll(s, [b, a] + es)
  {
    hide EnactAll, Enact, Carry, CarryAll, On;
    TwoInFront(a, b, es, |s|);
    TwoSteps(s, a, b, es);
    TwoSteps(s, b, a, es);
    assert Precedes(a, b) == !Precedes(b, a);
    EnactCommutes(s, a.effect, b.effect, Precedes(a, b));
    CarryAllPaths(es, a, b, |s|);
  }

  lemma CarryAllPaths(es: seq<Edit>, a: Edit, b: Edit, n: nat)
    requires AllOn(es, n) && On(a.effect, n) && On(b.effect, n) && Coherent(a, b)
    requires forall i :: 0 <= i < |es| ==> Coherent(es[i], a) && Coherent(es[i], b)
    ensures var na, nb := LengthAfter(a.effect, n), LengthAfter(b.effect, n);
      CarryAll(CarryAll(es, a, n), CarryEdit(b, a, n), na) == CarryAll(CarryAll(es, b, n), CarryEdit(a, b, n), nb)
  {
    var na, nb := LengthAfter(a.effect, n), LengthAfter(b.effect, n);
    var l := CarryAll(CarryAll(es, a, n), CarryEdit(b, a, n), na);
    var r := CarryAll(CarryAll(es, b, n), CarryEdit(a, b, n), nb);
    forall i | 0 <= i < |es|
      ensures l[i] == r[i]
    {
      CarryPaths(es[i], a, b, n);
    }
  }

  lemma OneStep(s: seq<Cell>, a: Edit, es: seq<Edit>)
    requires On(a.effect, |s|) && AllOn(es, |s|)
    ensures AllOn([a] + es, |s|)
    ensures EnactAll(s, [a] + es) == EnactAll(Enact(a.effect, s), CarryAll(es, a, |s|))
  {
    assert ([a] + es)[1..] == es;
  }

  lemma TwoSteps(s: seq<Cell>, a: Edit, b: Edit, es: seq<Edit>)
    requires On(a.effect, |s|) && On(b.effect, |s|) && AllOn(es, |s|)
    ensures var na := LengthAfter(a.effect, |s|); var b' := CarryEdit(b, a, |s|);
      && AllOn([a, b] + es, |s|)
      && EnactAll(s, [a, b] + es)
         == EnactAll(Enact(b'.effect, Enact(a.effect, s)), CarryAll(CarryAll(es, a, |s|), b', na))
  {
    hide *;
    var b', rest := CarryEdit(b, a, |s|), CarryAll(es, a, |s|);
    CarryFirst(b, es, a, |s|);
    OneStep(s, a, [b] + es);
    Regrouped(a, b, es);
    OneStep(Enact(a.effect, s), b', rest);
  }

  lemma Regrouped<T>(a: T, b: T, es: seq<T>)
    ensures [a, b] + es == [a] + ([b] + es)
  {
  }

  lemma CarryFirst(b: Edit, es: seq<Edit>, a: Edit, n: nat)
    requires On(a.effect, n) && On(b.effect, n) && AllOn(es, n)
    ensures AllOn([b] + es, n) && CarryAll([b] + es, a, n) == [CarryEdit(b, a, n)] + CarryAll(es, a, n)
  {
    hide Carry, On;
  }

  function Without<T>(ts: seq<T>, i: nat): (r: seq<T>)
    requires i < |ts|
    ensures |r| == |ts| - 1
  {
    ts[..i] + ts[i + 1..]
  }

  /** Any edit may come first. */
  lemma {:induction false} MoveToFront(s: seq<Cell>, es: seq<Edit>, i: nat)
    requires AllOn(es, |s|) && AllCoherent(es) && i < |es|
    ensures AllOn([es[i]] + Without(es, i), |s|)
    ensures EnactAll(s, es) == EnactAll(s, [es[i]] + Without(es, i))
    decreases |es|
  {
    var a, tail := es[0], es[1..];
    assert es == [a] + tail;
    if i > 0 {
      CarryAllKeepsCoherence(tail, a, |s|);
      MoveToFront(Enact(a.effect, s), CarryAll(tail, a, |s|), i - 1);
      MoveCarried(s, a, tail, i - 1);
      OneStep(s, a, tail);
      SwapToFront(s, es, i);
    } else {
      assert [es[0]] + Without(es, 0) == es;
    }
  }

  /** Moving an edit after the first one has been carried past, or before. */
  lemma MoveCarried(s: seq<Cell>, a: Edit, tail: seq<Edit>, i: nat)
    requires On(a.effect, |s|) && AllOn(tail, |s|) && i < |tail|
    ensures var carried := CarryAll(tail, a, |s|);
      && AllOn([carried[i]] + Without(carried, i), LengthAfter(a.effect, |s|))
      && AllOn([a, tail[i]] + Without(tail, i), |s|)
      && EnactAll(Enact(a.effect, s), [carried[i]] + Without(carried, i))
         == EnactAll(s, [a, tail[i]] + Without(tail, i))
  {
    CarryMoved(tail, a, i, |s|);
    OneStep(s, a, [tail[i]] + Without(tail, i));
    assert [a] + ([tail[i]] + Without(tail, i)) == [a, tail[i]] + Without(tail, i);
  }

  /** From the second place to the first. */
  lemma SwapToFront(s: seq<Cell>, es: seq<Edit>, i: nat)
    requires AllOn(es, |s|) && AllCoherent(es) && 0 < i < |es|
    ensures var rest := Without(es[1..], i - 1);
      && AllOn([es[0], es[i]] + rest, |s|) && AllOn([es[i]] + Without(es, i), |s|)
      && EnactAll(s, [es[0], es[i]] + rest) == EnactAll(s, [es[i]] + Without(es, i))
  {
    Moved(es, i, |s|);
    SwapFirstTwo(s, es[0], es[i], Without(es[1..], i - 1));
  }

  lemma CarryMoved(es: seq<Edit>, a: Edit, i: nat, n: nat)
    requires On(a.effect, n) && AllOn(es, n) && i < |es|
    ensures AllOn([es[i]] + Without(es, i), n)
    ensures var carried := CarryAll(es, a, n);
      [carried[i]] + Without(carried, i) == CarryAll([es[i]] + Without(es, i), a, n)
  {
  }

  /** Moving one edit to the second place keeps the edits coherent. */
  lemma Moved(es: seq<Edit>, i: nat, n: nat)
    requires AllOn(es, n) && AllCoherent(es) && 0 < i < |es|
    ensures var rest := Without(es[1..], i - 1);
      && AllOn([es[0], es[i]] + rest, n) && AllCoherent([es[0], es[i]] + rest)
      && [es[i], es[0]] + rest == [es[i]] + Without(es, i)
  {
    var fs := [es[0], es[i]] + Without(es[1..], i - 1);
    forall j | 0 <= j < |fs|
      ensures fs[j] == es[if j == 0 then 0 else if j == 1 then i else if j <= i then j - 1 else j]
    {
    }
  }

  /** The same edits in two orders. */
  ghost predicate SameEdits(es: seq<Edit>, fs: seq<Edit>) {
    |es| == |fs| && (forall e :: e in es <==> e in fs)
  }

  lemma WithoutKeepsCoherence(es: seq<Edit>, i: nat)
    requires AllCoherent(es) && i < |es|
    ensures AllCoherent(Without(es, i))
    ensures forall e :: e in Without(es, i) <==> e in es && e != es[i]
  {
    var fs := Without(es, i);
    forall j | 0 <= j < |fs|
      ensures fs[j] == es[if j < i then j else j + 1]
    {
    }
    forall e | e in es && e != es[i]
      ensures e in fs
    {
      var j :| 0 <= j < |es| && es[j] == e;
      assert fs[if j < i then j else j - 1] == e;
    }
    forall j | 0 <= j < |es| && j != i
      ensures es[j] != es[i]
    {
      assert Coherent(es[i], es[j]);
    }
  }

  lemma CarryAllSameEdits(es: seq<Edit>, fs: seq<Edit>, a: Edit, n: nat)
    requires AllOn(es, n) && AllOn(fs, n) && On(a.effect, n) && SameEdits(es, fs)
    ensures SameEdits(CarryAll(es, a, n), CarryAll(fs, a, n))
  {
    var l, r := CarryAll(es, a, n), CarryAll(fs, a, n);
    forall e | e in l
      ensures e in r
    {
      var i :| 0 <= i < |l| && l[i] == e;
      assert es[i] in fs;
      var j :| 0 <= j < |fs| && fs[j] == es[i];
      assert r[j] == e;
    }
    forall e | e in r
      ensures e in l
    {
      var i :| 0 <= i < |r| && r[i] == e;
      assert fs[i] in es;
      var j :| 0 <= j < |es| && es[j] == fs[i];
      assert l[j] == e;
    }
  }

  lemma {:induction false} EnactAnyOrder(s: seq<Cell>, es: seq<Edit>, fs: seq<Edit>)
    requires AllOn(es, |s|) && AllOn(fs, |s|) && AllCoherent(es) && AllCoherent(fs) && SameEdits(es, fs)
    ensures EnactAll(s, es) == EnactAll(s, fs)
    decreases |es|
  {
    hide EnactAll, Enact, CarryAll, Without, Coherent, On, AllCoherent;
    if fs != [] {
      var n, f, gs := |s|, fs[0], fs[1..];
      var i := FirstSomewhere(es, fs, n);
      var rest := Without(es, i);
      MoveToFront(s, es, i);
      FrontCoherent(es, i);
      assert fs == [f] + gs;
      CarryAllKeepsCoherence(rest, f, n);
      CarryAllKeepsCoherence(gs, f, n);
      CarryAllSameEdits(rest, gs, f, n);
      EnactAnyOrder(Enact(f.effect, s), CarryAll(rest, f, n), CarryAll(gs, f, n));
      OneStep(s, f, rest);
      OneStep(s, f, gs);
    } else {
      assert es == [];
    }
  }

  /** The first of fs is somewhere in es, and the others are the same. */
  lemma FirstSomewhere(es: seq<Edit>, fs: seq<Edit>, n: nat) returns (i: nat)
    requires AllOn(es, n) && AllCoherent(es) && AllCoherent(fs) && SameEdits(es, fs) && fs != []
    ensures i < |es| && es[i] == fs[0] && SameEdits(Without(es, i), fs[1..]) && AllOn(Without(es, i), n)
  {
    hide Coherent;
    assert fs[0] in es;
    i :| 0 <= i < |es| && es[i] == fs[0];
    WithoutKeepsCoherence(es, i);
    WithoutKeepsCoherence(fs, 0);
    assert Without(fs, 0) == fs[1..];
  }

  lemma FrontCoherent(es: seq<Edit>, i: nat)
    requires AllCoherent(es) && i < |es|
    ensures AllCoherent([es[i]] + Without(es, i))
  {
    var fs := [es[i]] + Without(es, i);
    forall j | 0 <= j < |fs|
      ensures fs[j] == es[if j == 0 then i else if j <= i then j - 1 else j]
    {
    }
  }

  /** Requests that users made concurrently on a document of n characters. */
  predicate AllConcurrent(rs: seq<Request>, n: nat) {
    && AllTransformable(rs, n)
    && (forall i :: 0 <= i < |rs| ==> rs[i].origin == rs[i].op)
    && (forall i, j :: 0 <= i < j < |rs| ==> rs[i].user != rs[j].user)
  }

  /** A request that is in a list of requests by different users is there once. */
  lemma ThereOnce(rs: seq<Request>, i: nat)
    requires (forall i, j :: 0 <= i < j < |rs| ==> rs[i].user != rs[j].user) && i < |rs|
    ensures multiset(rs)[rs[i]] == 1
  {
    var a, b := rs[..i], rs[i + 1..];
    assert rs == a + [rs[i]] + b;
    assert rs[i] !in a && rs[i] !in b;
  }

  lemma ThereTwice(qs: seq<Request>, i: nat, j: nat)
    requires i < j < |qs| && qs[i] == qs[j]
    ensures multiset(qs)[qs[i]] >= 2
  {
    var a, b := qs[..j], qs[j + 1..];
    assert qs == a + [qs[j]] + b;
    assert a[i] == qs[j];
    assert qs[j] in multiset(a);
  }

  /** The order does not matter for whether requests are concurrent. */
  lemma StillConcurrent(rs: seq<Request>, qs: seq<Request>, n: nat)
    requires AllConcurrent(rs, n) && multiset(rs) == multiset(qs)
    ensures AllConcurrent(qs, n)
  {
    hide Transformable;
    forall i | 0 <= i < |qs|
      ensures Transformable(qs[i], n) && qs[i].origin == qs[i].op
    {
      var k := Somewhere(rs, qs, i);
    }
    forall i, j | 0 <= i < j < |qs|
      ensures qs[i].user != qs[j].user
    {
      var k := Somewhere(rs, qs, i);
      var l := Somewhere(rs, qs, j);
      if k == l {
        ThereTwice(qs, i, j);
        ThereOnce(rs, k);
      }
    }
  }

  lemma Somewhere(rs: seq<Request>, qs: seq<Request>, i: nat) returns (k: nat)
    requires multiset(rs) == multiset(qs) && i < |qs|
    ensures k < |rs| && rs[k] == qs[i]
  {
    assert qs[i] in multiset(qs);
    assert qs[i] in rs;
    k :| 0 <= k < |rs| && rs[k] == qs[i];
  }

  /** Concurrent requests lead to one document, whatever the order in which they are taken in. */
  lemma AnyOrder(s: seq<Cell>, rs: seq<Request>, qs: seq<Request>)
    requires AllConcurrent(rs, |s|) && multiset(rs) == multiset(qs)
    ensures AllConcurrent(qs, |s|)
    ensures Integrate(s, rs).Done? && Integrate(s, rs) == Integrate(s, qs)
  {
    var n := |s|;
    StillConcurrent(rs, qs, n);
    IntegrateEnacts(s, rs);
    IntegrateEnacts(s, qs);
    assert |rs| == |multiset(rs)| == |multiset(qs)| == |qs|;
    SameRequestsSameEdits(rs, qs, n);
    SameRequestsSameEdits(qs, rs, n);
    EnactAnyOrder(s, EditsOf(rs, n), EditsOf(qs, n));
  }

  lemma SameRequestsSameEdits(rs: seq<Request>, qs: seq<Request>, n: nat)
    requires AllConcurrent(rs, n) && AllConcurrent(qs, n) && multiset(rs) == multiset(qs)
    ensures forall e :: e in EditsOf(rs, n) ==> e in EditsOf(qs, n)
    ensures AllCoherent(EditsOf(rs, n))
  {
    var es, fs := EditsOf(rs, n), EditsOf(qs, n);
    forall e | e in es
      ensures e in fs
    {
      var i :| 0 <= i < |es| && es[i] == e;
      assert rs[i] in multiset(rs);
      assert rs[i] in qs;
      var j :| 0 <= j < |qs| && qs[j] == rs[i];
      assert fs[j] == e;
    }
    forall i, j | 0 <= i < |es| && 0 <= j < |es| && i != j
      ensures Coherent(es[i], es[j])
    {
      assert rs[if i < j then i else j].user != rs[if i < j then j else i].user;
    }
  }

  /** The operation of r past a and then past b. */
  function Past(r: Request, a: Request, b: Request): Outcome<Request> {
    var r' :- TransformRequest(r, a);
    var b' :- TransformRequest(b, a);
    TransformRequest(r', b')
  }

  predicate SameEffect(a: Operation, b: Operation, n: nat) {
    Applicable(a, n) && Applicable(b, n) && EffectOf(a, n) == EffectOf(b, n)
  }

  /** A request transformed past two others has the same effect along both paths, when a tie
      that a deletion made goes by the operations before the deletion, as long as no assertion
      fails. */
  lemma ThreePathsMeet(s: seq<Cell>, c: Request, a: Request, b: Request)
    requires AllConcurrent([a, b], |s|) && Placed(c, |s|) && c.origin == c.op && c.user != a.user && c.user != b.user
    requires AllTransformable([a, b], |s|) && Past(c, a, b).Done? && Past(c, b, a).Done?
    ensures Integrate(s, [a, b]).Done?
    ensures SameEffect(Past(c, a, b).value.op, Past(c, b, a).value.op, |Integrate(s, [a, b]).value|)
  {
    var n, two := |s|, [a, b];
    assert two[0] == a && two[1] == b;
    var ea, eb, ec := EditOf(a, n), EditOf(b, n), EditOf(c, n);
    PastCarries(c, a, b, n);
    PastCarries(c, b, a, n);
    CarryPaths(ec, ea, eb, n);
    LengthsAgree(ea, eb, n);
    IntegrateTwo(s, a, b);
  }

  lemma ReversiblePast(c: Request, a: Request, b: Request, n: nat)
    requires Transformable(c, n) && Transformable(a, n) && Transformable(b, n)
    ensures Past(c, a, b).Done?
  {
    var na := LengthAfter(EffectOf(a.op, n), n);
    TransformRequestDone(c, a, n);
    TransformRequestDone(b, a, n);
    TransformRequestDone(TransformRequest(c, a).value, TransformRequest(b, a).value, na);
  }

  lemma IntegrateTwo(s: seq<Cell>, a: Request, b: Request)
    requires AllTransformable([a, b], |s|)
    ensures Integrate(s, [a, b]).Done?
    ensures var n := |s|; var ea, eb := (assert [a, b][0] == a && [a, b][1] == b; EditOf(a, n)), EditOf(b, n);
      |Integrate(s, [a, b]).value| == LengthAfter(CarryEdit(eb, ea, n).effect, LengthAfter(ea.effect, n))
  {
    hide Carry, Splice, Erase;
    assert [a, b][0] == a && [a, b][1] == b;
    IntegrateEnacts(s, [a, b]);
    assert EditsOf([a, b], |s|) == [EditOf(a, |s|), EditOf(b, |s|)] + [];
    TwoSteps(s, EditOf(a, |s|), EditOf(b, |s|), []);
  }

  lemma PastCarries(c: Request, a: Request, b: Request, n: nat)
    requires Placed(c, n) && Placed(a, n) && Placed(b, n) && Past(c, a, b).Done?
    ensures var ec, ea, eb := EditOf(c, n), EditOf(a, n), EditOf(b, n); var na := LengthAfter(ea.effect, n);
      var m := LengthAfter(CarryEdit(eb, ea, n).effect, na);
      && Applicable(Past(c, a, b).value.op, m)
      && EditOf(Past(c, a, b).value, m) == CarryEdit(CarryEdit(ec, ea, n), CarryEdit(eb, ea, n), na)
  {
    TransformRequestCarries(c, a, n);
    TransformRequestCarries(b, a, n);
    var na := LengthAfter(EffectOf(a.op, n), n);
    TransformRequestCarries(TransformRequest(c, a).value, TransformRequest(b, a).value, na);
  }
}
