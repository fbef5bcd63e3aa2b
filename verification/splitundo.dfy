/** Undoing a split deletion: reverting it makes a split of insertions, which are transformed
    and applied like any split. */
module SplitUndo {
  import opened Text
  import opened Masks
  import opened Operations
  import opened Effects
  import opened Truth
  import opened Reconstruction
  import opened Reversal
  import opened Siblings

  /** Insertions that stand in one document. */
  datatype Insertions = OneInsert(position: nat, chunk: seq<Cell>) | SplitInsert(first: Insertions, second: Insertions)

  function Leaves(i: Insertions): (n: nat)
    ensures 0 < n
  {
    if i.SplitInsert? then Leaves(i.first) + Leaves(i.second) else 1
  }

  // ----- what the operations do -----

  /** Reverting a split reverts the first part, and the second part past the first. */
  function RevertDeletion(d: Deletion): Outcome<Insertions>
    decreases Size(d)
  {
    match d
    case DefaultDelete(position, chunk) => Done(OneInsert(position, chunk))
    case RemoteDelete(_, _, _, _) => AssertionFailed
    case SplitDelete(a, b) =>
      var b' :- DeletionAgainstDeletion(b, a);
      var first :- RevertDeletion(a);
      var second :- RevertDeletion(b');
      Done(SplitInsert(first, second))
  }

  function InsertionsAgainstInsertions(i: Insertions, against: Insertions, cid: ConcurrencyId): (r: Outcome<Insertions>)
    ensures r.Done? ==> Leaves(r.value) == Leaves(i)
    decreases Leaves(against), Leaves(i)
  {
    if against.SplitInsert? then
      var tmp :- InsertionsAgainstInsertions(i, against.first, cid);
      var second :- InsertionsAgainstInsertions(against.second, against.first, NoId);
      InsertionsAgainstInsertions(tmp, second, cid)
    else if i.SplitInsert? then
      var first :- InsertionsAgainstInsertions(i.first, against, cid);
      var second :- InsertionsAgainstInsertions(i.second, against, cid);
      Done(SplitInsert(first, second))
    else
      var p :- PositionAgainstInsert(i.position, against.position, |against.chunk|, cid);
      Done(OneInsert(p, i.chunk))
  }

  function ApplyInsertions(i: Insertions, s: seq<Cell>): Outcome<seq<Cell>>
    decreases Leaves(i)
  {
    match i
    case OneInsert(position, chunk) => if position <= |s| then Done(Splice(s, position, chunk)) else AssertionFailed
    case SplitInsert(first, second) =>
      var second' :- InsertionsAgainstInsertions(second, first, NoId);
      var t :- ApplyInsertions(first, s);
      ApplyInsertions(second', t)
  }

  /** What undoing d makes of the document t that d has left. */
  function Undo(d: Deletion, t: seq<Cell>): Outcome<seq<Cell>> {
    var i :- RevertDeletion(d);
    ApplyInsertions(i, t)
  }

  // ----- leaves that meet -----

  /** A leaf ends where a later one begins. */
  predicate Meet(d: Deletion) {
    MeetIn(Unsplit(d))
  }

  predicate MeetIn(leaves: seq<Deletion>) {
    exists i, j :: 0 <= i < j < |leaves| && End(leaves[i]) == Begin(leaves[j])
  }

  /** Where the first leaf begins. */
  function Begin(d: Deletion): nat {
    if d.SplitDelete? then Begin(d.first) else d.position
  }

  /** Where the last leaf ends. */
  function End(d: Deletion): nat {
    if d.SplitDelete? then End(d.second) else d.position + Length(d)
  }

  /** How many characters go. */
  function Total(d: Deletion): nat {
    if d.SplitDelete? then Total(d.first) + Total(d.second) else Length(d)
  }

  /** Between any two parts something stays. */
  predicate Gapped(d: Deletion) {
    d.SplitDelete? ==> Gapped(d.first) && Gapped(d.second) && End(d.first) < Begin(d.second)
  }

  lemma {:induction false} BeginToEnd(d: Deletion)
    requires Ordered(d)
    ensures Begin(d) + Total(d) <= End(d)
  {
    if d.SplitDelete? {
      BeginToEnd(d.first);
      BeginToEnd(d.second);
      BeforeMeansEnds(d.first, d.second);
    }
  }

  lemma {:induction false} BeforeMeansEnds(a: Deletion, b: Deletion)
    requires Before(a, b)
    ensures End(a) <= Begin(b)
    decreases Size(a) + Size(b)
  {
    if a.SplitDelete? {
      BeforeMeansEnds(a.second, b);
    } else if b.SplitDelete? {
      BeforeMeansEnds(a, b.first);
    }
  }

  // ----- insertions in order -----

  function FirstPosition(i: Insertions): nat {
    if i.SplitInsert? then FirstPosition(i.first) else i.position
  }

  function LastPosition(i: Insertions): nat {
    if i.SplitInsert? then LastPosition(i.second) else i.position
  }

  function Inserted(i: Insertions): nat {
    if i.SplitInsert? then Inserted(i.first) + Inserted(i.second) else |i.chunk|
  }

  /** No insertion stands before an earlier one. */
  predicate InOrder(i: Insertions) {
    i.SplitInsert? ==> InOrder(i.first) && InOrder(i.second) && LastPosition(i.first) <= FirstPosition(i.second)
  }

  /** No two insertions tie. */
  predicate Untied(i: Insertions) {
    i.SplitInsert? ==> Untied(i.first) && Untied(i.second) && LastPosition(i.first) < FirstPosition(i.second)
  }

  function Moved(i: Insertions, n: nat): (r: Insertions)
    ensures Leaves(r) == Leaves(i) && Inserted(r) == Inserted(i)
    ensures FirstPosition(r) == FirstPosition(i) + n && LastPosition(r) == LastPosition(i) + n
    ensures (InOrder(r) <==> InOrder(i)) && (Untied(r) <==> Untied(i))
  {
    if i.SplitInsert? then SplitInsert(Moved(i.first, n), Moved(i.second, n)) else OneInsert(i.position + n, i.chunk)
  }

  lemma {:induction false} MovedTwice(i: Insertions, m: nat, n: nat)
    ensures Moved(Moved(i, m), n) == Moved(i, m + n)
  {
    if i.SplitInsert? {
      MovedTwice(i.first, m, n);
      MovedTwice(i.second, m, n);
    }
  }

  lemma {:induction false} FirstToLast(i: Insertions)
    requires InOrder(i)
    ensures FirstPosition(i) <= LastPosition(i)
  {
    if i.SplitInsert? {
      FirstToLast(i.first);
      FirstToLast(i.second);
    }
  }

  lemma {:induction false} PastOne(x: Insertions, p: nat, chunk: seq<Cell>)
    requires InOrder(x) && p <= FirstPosition(x)
    ensures InsertionsAgainstInsertions(x, OneInsert(p, chunk), NoId)
      == if p < FirstPosition(x) then Done(Moved(x, |chunk|)) else AssertionFailed
  {
    if x.SplitInsert? {
      FirstToLast(x.first);
      PastOne(x.first, p, chunk);
      PastOne(x.second, p, chunk);
    }
  }

  /** Insertions behind others move, unless any two of them tie: then an assertion fails. */
  lemma {:induction false} PastEarlier(x: Insertions, i: Insertions)
    requires InOrder(x) && InOrder(i) && LastPosition(i) <= FirstPosition(x)
    ensures InsertionsAgainstInsertions(x, i, NoId)
      == if Untied(i) && LastPosition(i) < FirstPosition(x) then Done(Moved(x, Inserted(i))) else AssertionFailed
    decreases Leaves(i)
  {
    if i.SplitInsert? {
      var f, g := i.first, i.second;
      FirstToLast(g);
      PastEarlier(x, f);
      PastEarlier(g, f);
      if Untied(f) && LastPosition(f) < FirstPosition(g) {
        PastEarlier(Moved(x, Inserted(f)), Moved(g, Inserted(f)));
        MovedTwice(x, Inserted(f), Inserted(g));
      }
    } else {
      PastOne(x, i.position, i.chunk);
    }
  }

  // ----- deletions in order -----

  function Shifted(d: Deletion, n: nat): (r: Deletion)
    ensures Size(r) == Size(d) && Begin(r) == Begin(d) + n && End(r) == End(d) + n && Total(r) == Total(d)
    ensures (Gapped(r) <==> Gapped(d)) && (AllDefault(r) <==> AllDefault(d))
  {
    if d.SplitDelete? then SplitDelete(Shifted(d.first, n), Shifted(d.second, n)) else d.(position := d.position + n)
  }

  lemma {:induction false} BeforeShifted(a: Deletion, b: Deletion, n: nat)
    ensures Before(Shifted(a, n), Shifted(b, n)) <==> Before(a, b)
    decreases Size(a) + Size(b)
  {
    if a.SplitDelete? {
      BeforeShifted(a.first, b, n);
      BeforeShifted(a.second, b, n);
    } else if b.SplitDelete? {
      BeforeShifted(a, b.first, n);
      BeforeShifted(a, b.second, n);
    }
  }

  lemma {:induction false} OrderedShifted(d: Deletion, n: nat)
    ensures Ordered(Shifted(d, n)) <==> Ordered(d)
  {
    if d.SplitDelete? {
      OrderedShifted(d.first, n);
      OrderedShifted(d.second, n);
      BeforeShifted(d.first, d.second, n);
    }
  }

  lemma {:induction false} ShiftedTwice(d: Deletion, m: nat, n: nat)
    ensures Shifted(Shifted(d, m), n) == Shifted(d, m + n)
  {
    if d.SplitDelete? {
      ShiftedTwice(d.first, m, n);
      ShiftedTwice(d.second, m, n);
    }
  }

  lemma {:induction false} ShiftedApart(d: Deletion, e: Deletion, n: nat)
    requires Shifted(d, n) == Shifted(e, n)
    ensures d == e
  {
    if d.SplitDelete? {
      ShiftedApart(d.first, e.first, n);
      ShiftedApart(d.second, e.second, n);
    }
  }

  /** A later deletion past an earlier one moves towards the beginning. */
  lemma {:induction false} LaterMoves(b: Deletion, a: Deletion)
    requires AllDefault(a) && AllDefault(b) && Ordered(a) && Before(a, b)
    ensures DeletionAgainstDeletion(b, a).Done? && AllDefault(DeletionAgainstDeletion(b, a).value)
    ensures Shifted(DeletionAgainstDeletion(b, a).value, Total(a)) == b
    decreases Size(a), Size(b)
  {
    hide Before, Ordered, Shifted, Total, DeletionAgainstDeletion;
    if a.SplitDelete? {
      var f, g := a.first, a.second;
      PartsInOrder(f, g, b);
      LaterMoves(b, f);
      LaterMoves(g, f);
      var b', g' := DeletionAgainstDeletion(b, f).value, DeletionAgainstDeletion(g, f).value;
      BeforePastDeletion(g, b, f);
      OrderedPastDeletion(g, f);
      LaterMoves(b', g');
      PastSplit(b, f, g);
      ShiftedTwice(DeletionAgainstDeletion(b', g').value, Total(g), Total(f));
    } else if b.SplitDelete? {
      LaterParts(b.first, b.second, a);
      LaterMoves(b.first, a);
      LaterMoves(b.second, a);
    } else {
      LaterLeaf(b, a);
    }
  }

  lemma PartsInOrder(f: Deletion, g: Deletion, b: Deletion)
    requires Ordered(SplitDelete(f, g)) && Before(SplitDelete(f, g), b)
    ensures Ordered(f) && Ordered(g) && Before(f, g) && Before(f, b) && Before(g, b)
    ensures Total(SplitDelete(f, g)) == Total(f) + Total(g)
  {
  }

  lemma PastSplit(b: Deletion, f: Deletion, g: Deletion)
    requires DeletionAgainstDeletion(b, f).Done? && DeletionAgainstDeletion(g, f).Done?
    ensures DeletionAgainstDeletion(b, SplitDelete(f, g))
         == DeletionAgainstDeletion(DeletionAgainstDeletion(b, f).value, DeletionAgainstDeletion(g, f).value)
  {
  }

  lemma LaterParts(f: Deletion, g: Deletion, a: Deletion)
    requires !a.SplitDelete? && Before(a, SplitDelete(f, g))
    ensures Before(a, f) && Before(a, g)
    ensures DeletionAgainstDeletion(f, a).Done? && DeletionAgainstDeletion(g, a).Done? ==>
      var f', g' := DeletionAgainstDeletion(f, a).value, DeletionAgainstDeletion(g, a).value;
      && DeletionAgainstDeletion(SplitDelete(f, g), a) == Done(SplitDelete(f', g'))
      && Shifted(SplitDelete(f', g'), Total(a)) == SplitDelete(Shifted(f', Total(a)), Shifted(g', Total(a)))
  {
  }

  lemma LaterLeaf(b: Deletion, a: Deletion)
    requires a.DefaultDelete? && b.DefaultDelete? && Before(a, b)
    ensures var b' := DefaultDelete(b.position - |a.chunk|, b.chunk);
      DeletionAgainstDeletion(b, a) == Done(b') && Shifted(b', Total(a)) == b
  {
    hide TransformOverlap;
  }

  /** An earlier deletion past a later one stays. */
  lemma {:induction false} EarlierStays(a: Deletion, b: Deletion)
    requires AllDefault(a) && AllDefault(b) && Ordered(b) && Before(a, b)
    ensures DeletionAgainstDeletion(a, b) == Done(a)
    decreases Size(b), Size(a)
  {
    if b.SplitDelete? {
      BeforeParts(a, b);
      EarlierStays(a, b.first);
      LaterPastEarlier(b.second, b.first);
      BeforePastDeletion(a, b.second, b.first);
      OrderedPastDeletion(b.second, b.first);
      EarlierStays(a, DeletionAgainstDeletion(b.second, b.first).value);
    } else if a.SplitDelete? {
      EarlierStays(a.first, b);
      EarlierStays(a.second, b);
    }
  }

  lemma RevertParts(a: Deletion, b: Deletion, c: Deletion, n: nat)
    requires DeletionAgainstDeletion(b, a) == Done(c) && RevertDeletion(a).Done? && RevertDeletion(c).Done?
    ensures RevertDeletion(SplitDelete(a, b)) == Done(SplitInsert(RevertDeletion(a).value, RevertDeletion(c).value))
    ensures Moved(RevertDeletion(SplitDelete(a, b)).value, n)
         == SplitInsert(Moved(RevertDeletion(a).value, n), Moved(RevertDeletion(c).value, n))
  {
  }

  /** Where two deletions stand does not matter for what one makes of the other. */
  lemma ShiftedPast(b: Deletion, a: Deletion, n: nat)
    requires AllDefault(a) && AllDefault(b) && Ordered(a) && Before(a, b)
    ensures DeletionAgainstDeletion(b, a).Done?
    ensures DeletionAgainstDeletion(Shifted(b, n), Shifted(a, n))
         == Done(Shifted(DeletionAgainstDeletion(b, a).value, n))
  {
    hide *;
    OrderedShifted(a, n);
    BeforeShifted(a, b, n);
    LaterMoves(b, a);
    LaterMoves(Shifted(b, n), Shifted(a, n));
    var c, c' := DeletionAgainstDeletion(b, a).value, DeletionAgainstDeletion(Shifted(b, n), Shifted(a, n)).value;
    ShiftedTwice(c, Total(a), n);
    ShiftedTwice(c, n, Total(a));
    assert Total(a) + n == n + Total(a);
    ShiftedApart(c', Shifted(c, n), Total(a));
  }

  lemma ShiftedParts(a: Deletion, b: Deletion, n: nat)
    ensures Shifted(SplitDelete(a, b), n) == SplitDelete(Shifted(a, n), Shifted(b, n))
    ensures Ordered(SplitDelete(a, b)) ==> Ordered(a) && Ordered(b) && Before(a, b)
  {
  }

  /** Reverting a deletion that stands elsewhere. */
  lemma {:induction false} RevertShifted(d: Deletion, n: nat)
    requires AllDefault(d) && Ordered(d)
    ensures RevertDeletion(d).Done? && RevertDeletion(Shifted(d, n)) == Done(Moved(RevertDeletion(d).value, n))
    decreases Size(d)
  {
    hide DeletionAgainstDeletion, Before, Ordered;
    if d.SplitDelete? {
      hide RevertDeletion, Moved, Shifted;
      var a, b := d.first, d.second;
      ShiftedParts(a, b, n);
      ShiftedPast(b, a, n);
      LaterMoves(b, a);
      var c := DeletionAgainstDeletion(b, a).value;
      OrderedPastDeletion(b, a);
      RevertShifted(a, n);
      RevertShifted(c, n);
      RevertParts(a, b, c, n);
      RevertParts(Shifted(a, n), Shifted(b, n), Shifted(c, n), n);
    }
  }

  /** The insertions that revert a deletion: where they stand, and when two of them tie. */
  lemma {:induction false} RevertIs(d: Deletion)
    requires AllDefault(d) && Ordered(d)
    ensures RevertDeletion(d).Done?
    ensures var i := RevertDeletion(d).value;
      && InOrder(i) && (Untied(i) <==> Gapped(d)) && Inserted(i) == Total(d)
      && FirstPosition(i) == Begin(d) && LastPosition(i) + Total(d) == End(d)
    decreases Size(d)
  {
    if d.SplitDelete? {
      var a, b := d.first, d.second;
      LaterMoves(b, a);
      OrderedPastDeletion(b, a);
      BeforeMeansEnds(a, b);
      RevertIs(a);
      RevertIs(DeletionAgainstDeletion(b, a).value);
    }
  }

  // ----- undoing -----

  /** The first part goes back last: what it has left is what it leaves of the document that the
      second part has left. */
  lemma FirstPartLast(a: Deletion, b: Deletion, s: seq<Cell>)
    requires AllDefault(a) && AllDefault(b) && Ordered(a) && Ordered(b) && Before(a, b)
    requires Truthful(a, s) && Truthful(b, s)
    ensures Fits(b, |s|) && ApplyDeletion(b, s).Done?
    ensures var u := ApplyDeletion(b, s).value;
      && Truthful(a, u) && Fits(a, |u|) && Fits(SplitDelete(a, b), |s|)
      && ApplyDeletion(a, u).Done? && ApplyDeletion(SplitDelete(a, b), s) == ApplyDeletion(a, u)
  {
    hide Erase, Survivors, Or, DeletionAgainstDeletion, Truthful;
    var d, n := SplitDelete(a, b), |s|;
    assert Truthful(d, s) by { TruthfulSplit(a, b, s); }
    TruthfulFits(d, s);
    EarlierStays(a, b);
    TruthfulPastDeletion(a, b, s);
    var u := ApplyDeletion(b, s).value;
    TruthfulFits(a, u);
    DeletionAgainstDeletionMask(a, b, n);
    EraseTwice(s, Mask(b, n), Mask(a, n));
    OrCommutes(Mask(a, n), Mask(b, n));
  }

  lemma TruthfulSplit(a: Deletion, b: Deletion, s: seq<Cell>)
    requires Truthful(a, s) && Truthful(b, s)
    ensures Truthful(SplitDelete(a, b), s)
  {
  }

  lemma {:induction false} UndoIs(d: Deletion, s: seq<Cell>)
    requires AllDefault(d) && Ordered(d) && Truthful(d, s)
    ensures Fits(d, |s|) && ApplyDeletion(d, s).Done?
    ensures Undo(d, ApplyDeletion(d, s).value) == if Gapped(d) then Done(s) else AssertionFailed
    decreases Size(d)
  {
    TruthfulFits(d, s);
    if d.SplitDelete? {
      UndoSplit(d.first, d.second, s);
    } else {
      UndoLeaf(d, s);
    }
  }

  lemma UndoLeaf(d: Deletion, s: seq<Cell>)
    requires d.DefaultDelete? && Truthful(d, s)
    ensures Fits(d, |s|) && ApplyDeletion(d, s).Done? && Undo(d, ApplyDeletion(d, s).value) == Done(s)
  {
    hide Cut, Splice, Stands;
    Inside(d.chunk, s, d.position);
    PutBack(s, d.position, d.chunk);
  }

  lemma PutBack(s: seq<Cell>, p: nat, x: seq<Cell>)
    requires p + |x| <= |s| && s[p..p + |x|] == x
    ensures Splice(Cut(s, p, |x|), p, x) == s
  {
    var t := Cut(s, p, |x|);
    assert t[..p] == s[..p] && t[p..] == s[p + |x|..];
    assert s == s[..p] + s[p..p + |x|] + s[p + |x|..];
  }

  lemma {:induction false} UndoSplit(a: Deletion, b: Deletion, s: seq<Cell>)
    requires var d := SplitDelete(a, b); AllDefault(d) && Ordered(d) && Truthful(d, s)
    ensures var d := SplitDelete(a, b);
      && Fits(d, |s|) && ApplyDeletion(d, s).Done?
      && Undo(d, ApplyDeletion(d, s).value) == if Gapped(d) then Done(s) else AssertionFailed
    decreases Size(a) + Size(b), 0
  {
    hide Truthful, ApplyDeletion, DeletionAgainstDeletion, InsertionsAgainstInsertions, Before;
    var d := SplitDelete(a, b);
    TruthfulParts(d, s);
    FirstPartLast(a, b, s);
    var u, c := ApplyDeletion(b, s).value, DeletionAgainstDeletion(b, a).value;
    LaterMoves(b, a);
    OrderedPastDeletion(b, a);
    RevertIs(a);
    RevertIs(c);
    RevertShifted(c, Total(a));
    BeforeMeansEnds(a, b);
    PastEarlier(RevertDeletion(c).value, RevertDeletion(a).value);
    UndoIs(a, u);
    UndoIs(b, s);
  }

  // ----- exactly when undoing works -----

  /** The leaves of a deletion lie between its begin and its end, and reach them. */
  lemma {:induction false} LeafBounds(d: Deletion)
    requires Ordered(d)
    ensures var leaves := Unsplit(d);
      && leaves != [] && Begin(leaves[0]) == Begin(d) && End(leaves[|leaves| - 1]) == End(d)
      && forall i :: 0 <= i < |leaves| ==> Begin(d) <= Begin(leaves[i]) <= End(leaves[i]) <= End(d)
  {
    if d.SplitDelete? {
      var l, r := Unsplit(d.first), Unsplit(d.second);
      LeafBounds(d.first);
      LeafBounds(d.second);
      BeforeMeansEnds(d.first, d.second);
      assert forall i :: 0 <= i < |l + r| ==> (l + r)[i] == if i < |l| then l[i] else r[i - |l|];
    }
  }

  /** Something stays between any two parts exactly if no two leaves meet. */
  lemma {:induction false} GappedMeansNoneMeet(d: Deletion)
    requires Ordered(d)
    ensures Gapped(d) <==> !Meet(d)
  {
    if d.SplitDelete? {
      var a, b := d.first, d.second;
      GappedMeansNoneMeet(a);
      GappedMeansNoneMeet(b);
      LeafBounds(a);
      LeafBounds(b);
      BeforeMeansEnds(a, b);
      MeetInParts(a, b);
      var l, r := Unsplit(a), Unsplit(b);
      if End(a) == Begin(b) {
        assert End(l[|l| - 1]) == Begin(r[0]);
      }
    } else {
      assert |Unsplit(d)| == 1;
    }
  }

  predicate MeetAcross(l: seq<Deletion>, r: seq<Deletion>) {
    exists i, j :: 0 <= i < |l| && 0 <= j < |r| && End(l[i]) == Begin(r[j])
  }

  lemma MeetInParts(a: Deletion, b: Deletion)
    ensures var l, r := Unsplit(a), Unsplit(b);
      Meet(SplitDelete(a, b)) <==>
        Meet(a) || Meet(b) || MeetAcross(l, r)
  {
    hide MeetIn, MeetAcross;
    MeetInLists(Unsplit(a), Unsplit(b));
  }

  lemma MeetInLists(l: seq<Deletion>, r: seq<Deletion>)
    ensures MeetIn(l + r) <==>
      MeetIn(l) || MeetIn(r) || MeetAcross(l, r)
  {
    hide Begin, End;
    var s := l + r;
    if MeetIn(l) {
      var i, j :| 0 <= i < j < |l| && End(l[i]) == Begin(l[j]);
      assert End(s[i]) == Begin(s[j]);
    }
    if MeetIn(r) {
      var i, j :| 0 <= i < j < |r| && End(r[i]) == Begin(r[j]);
      assert End(s[|l| + i]) == Begin(s[|l| + j]);
    }
    if MeetAcross(l, r) {
      var i, j :| 0 <= i < |l| && 0 <= j < |r| && End(l[i]) == Begin(r[j]);
      assert End(s[i]) == Begin(s[|l| + j]);
    }
    if MeetIn(s) {
      var i, j :| 0 <= i < j < |s| && End(s[i]) == Begin(s[j]);
      assert i >= |l| ==> End(r[i - |l|]) == Begin(r[j - |l|]);
      assert i < |l| <= j ==> End(l[i]) == Begin(r[j - |l|]);
      assert j < |l| ==> End(l[i]) == Begin(l[j]);
    }
  }

  /** Undoing a deletion that has been split, however often, brings the document back exactly if
      no two of its leaves meet.  If two do, an assertion fails, because two insertions tie and
      no concurrency id is given. */
  lemma SplitReverts(d: Deletion, s: seq<Cell>)
    requires AllDefault(d) && Ordered(d) && Truthful(d, s)
    ensures Fits(d, |s|) && ApplyDeletion(d, s).Done?
    ensures Undo(d, ApplyDeletion(d, s).value) == if Meet(d) then AssertionFailed else Done(s)
  {
    hide Meet, Undo;
    UndoIs(d, s);
    GappedMeansNoneMeet(d);
  }

  /** A run in which leaves come to meet: a text comes in between two characters that are to go,
      and goes again. */
  lemma LeavesCanMeet(x: Cell, y: Cell, z: Cell) returns (ops: seq<Operation>, d: Deletion)
    ensures Runs(ops, [x, y]) && DocumentAfterAll(ops, [x, y]) == [x, y]
    ensures TransformAlong(DefaultDelete(0, [x, y]), ops) == Done(d)
    ensures Meet(d) && Fits(d, 2) && ApplyDeletion(d, [x, y]).Done?
    ensures Undo(d, ApplyDeletion(d, [x, y]).value) == AssertionFailed
  {
    hide Undo, Meet, ApplyDeletion, Mask, DocumentAfter, Transform;
    var come, go := Insert(1, [z]), Delete(DefaultDelete(1, [z]));
    ops, d := [come, go], SplitDelete(DefaultDelete(0, [x]), DefaultDelete(1, [y]));
    Comes(x, y, z);
    Goes(x, y, z);
    RunOfTwo(come, go, [x, y], [x, z, y], [x, y]);
    AlongTwo(come, go, DefaultDelete(0, [x, y]), SplitDelete(DefaultDelete(0, [x]), DefaultDelete(2, [y])), d);
    TheyMeet(x, y);
    SplitReverts(d, [x, y]);
  }

  lemma RunOfTwo(a: Operation, b: Operation, s: seq<Cell>, t: seq<Cell>, u: seq<Cell>)
    requires Genuine(a, s) && DocumentAfter(a, s) == t
    requires Genuine(b, t) && DocumentAfter(b, t) == u
    ensures Runs([a, b], s) && DocumentAfterAll([a, b], s) == u
  {
    hide Genuine, DocumentAfter;
    assert [a, b][1..] == [b] && [b][1..] == [];
    assert Runs([], u) && DocumentAfterAll([], u) == u;
    assert Runs([b], t) && DocumentAfterAll([b], t) == u;
  }

  lemma AlongTwo(a: Operation, b: Operation, d: Deletion, e: Deletion, f: Deletion)
    requires Transform(Delete(d), a, NoId) == Done(Delete(e))
    requires Transform(Delete(e), b, NoId) == Done(Delete(f))
    ensures TransformAlong(d, [a, b]) == Done(f)
  {
    hide Transform;
    assert [a, b][1..] == [b] && [b][1..] == [];
    assert TransformAlong(f, []) == Done(f);
    assert TransformAlong(e, [b]) == Done(f);
  }

  lemma Comes(x: Cell, y: Cell, z: Cell)
    ensures var come := Insert(1, [z]);
      && Genuine(come, [x, y]) && DocumentAfter(come, [x, y]) == [x, z, y]
      && Transform(Delete(DefaultDelete(0, [x, y])), come, NoId)
         == Done(Delete(SplitDelete(DefaultDelete(0, [x]), DefaultDelete(2, [y]))))
  {
    assert [x, y][..1] == [x] && [x, y][1..] == [y];
  }

  lemma Goes(x: Cell, y: Cell, z: Cell)
    ensures var go := Delete(DefaultDelete(1, [z]));
      && Genuine(go, [x, z, y]) && DocumentAfter(go, [x, z, y]) == [x, y]
      && Transform(Delete(SplitDelete(DefaultDelete(0, [x]), DefaultDelete(2, [y]))), go, NoId)
         == Done(Delete(SplitDelete(DefaultDelete(0, [x]), DefaultDelete(1, [y]))))
  {
    hide Mask, Erase, TransformOverlap;
    var e := DefaultDelete(1, [z]);
    assert DeletionAgainstDeletion(DefaultDelete(0, [x]), e) == Done(DefaultDelete(0, [x]));
    assert DeletionAgainstDeletion(DefaultDelete(2, [y]), e) == Done(DefaultDelete(1, [y]));
    assert Cut([x, z, y], 1, 1) == [x, y];
  }

  lemma TheyMeet(x: Cell, y: Cell)
    ensures var d := SplitDelete(DefaultDelete(0, [x]), DefaultDelete(1, [y]));
      Meet(d) && AllDefault(d) && Ordered(d) && Truthful(d, [x, y])
  {
    var d := SplitDelete(DefaultDelete(0, [x]), DefaultDelete(1, [y]));
    assert Unsplit(d) == [d.first, d.second];
    assert End(Unsplit(d)[0]) == Begin(Unsplit(d)[1]);
  }
}
