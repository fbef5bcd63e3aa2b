/** What the in-place operations of a chunk do to its segments.

    Each of them first rearranges the segments around a place and then moves the offsets of
    those behind it.  The predicates Placed, CutReady and FillReady say of the segments in
    between that moving the offsets completes the operation. */
module Edits {
  import opened Masks
  import opened Text
  import opened Utf8
  import opened Segments
  import opened Joints

  /** Removing the segments from first up to last and moving those from beyond on gives gs
      without the range. */
  ghost predicate CutReady(gs: seq<Segment>, s: seq<Segment>, first: nat, last: nat, beyond: nat,
                           begin: int, number: int) {
    var keep := if first < last then last else first;
    && keep <= beyond <= |s| && 0 <= begin && 0 <= number && begin + number <= |Cells(gs)|
    && (var r := s[..first] + s[keep..beyond] + ShiftOffsets(s[beyond..], -number);
        Good(r, 0) && Cells(r) == Cut(Cells(gs), begin, number))
  }

  /** The three parts of such a list s, and of the list without the range. */
  lemma ReadyBy(gs: seq<Segment>, s: seq<Segment>, first: nat, last: nat, beyond: nat,
                x: seq<Segment>, y: seq<Segment>, z: seq<Segment>, i: nat, k: nat, j: nat, l: nat)
    requires Good(gs, 0) && i < |gs| && k <= |SegmentCells(gs[i])| && j < |gs| && l <= |SegmentCells(gs[j])|
    requires gs[i].offset + k <= gs[j].offset + l
    requires var keep := if first < last then last else first;
      keep <= beyond <= |s| && s[..first] == x && s[keep..beyond] == y && s[beyond..] == z
    requires Erased(gs, i, k, j, l) == x + y + ShiftOffsets(z, gs[i].offset + k - (gs[j].offset + l))
    ensures CutReady(gs, s, first, last, beyond, gs[i].offset + k, gs[j].offset + l - (gs[i].offset + k))
  {
    hide Good, Cells, SegmentCells, ShiftOffsets, Erased;
    ErasedCells(gs, i, k, j, l);
  }

  lemma Removed<T>(s: seq<T>, first: nat, last: nat, beyond: nat)
    requires first <= last <= beyond <= |s|
    ensures var r, b := s[..first] + s[last..], beyond - (last - first);
      r[..b] == s[..first] + s[last..beyond] && r[b..] == s[beyond..]
  {
  }

  lemma ReadyByTwo(gs: seq<Segment>, s: seq<Segment>, first: nat, last: nat, beyond: nat,
                   x: seq<Segment>, z: seq<Segment>, i: nat, k: nat, j: nat, l: nat)
    requires Good(gs, 0) && i < |gs| && k <= |SegmentCells(gs[i])| && j < |gs| && l <= |SegmentCells(gs[j])|
    requires gs[i].offset + k <= gs[j].offset + l
    requires first <= beyond <= |s| && beyond == (if first < last then last else first)
    requires s[..first] == x && s[beyond..] == z
    requires Erased(gs, i, k, j, l) == x + ShiftOffsets(z, gs[i].offset + k - (gs[j].offset + l))
    ensures CutReady(gs, s, first, last, beyond, gs[i].offset + k, gs[j].offset + l - (gs[i].offset + k))
  {
    hide *;
    assert s[beyond..beyond] == [];
    AppendNothing(x, ShiftOffsets(z, gs[i].offset + k - (gs[j].offset + l)));
    ReadyBy(gs, s, first, last, beyond, x, [], z, i, k, j, l);
  }

  lemma Replaced<T>(s: seq<T>, i: nat, x: T, j: nat)
    requires i <= j < |s|
    ensures s[i := x][..i + 1] == s[..i] + [x] && s[i := x][j + 1..] == s[j + 1..]
  {
  }

  lemma ReplacedTwice<T>(s: seq<T>, i: nat, x: T, j: nat, y: T)
    requires i < j < |s|
    ensures var t := s[i := x][j := y];
      t[..i + 1] == s[..i] + [x] && t[j..j + 1] == [y] && t[j + 1..] == s[j + 1..]
  {
  }

  lemma ReplacedLast<T>(s: seq<T>, j: nat, y: T)
    requires j < |s|
    ensures var t := s[j := y]; t[..0] == [] && t[j..j + 1] == [y] && t[j + 1..] == s[j + 1..]
  {
  }

  lemma CutMerged(gs: seq<Segment>, i: nat, k: nat, j: nat, l: nat)
    requires Good(gs, 0) && i <= j < |gs| && 0 < k <= |SegmentCells(gs[i])| && l < |SegmentCells(gs[j])|
    requires gs[i].offset + k <= gs[j].offset + l && gs[i].author == gs[j].author
    ensures var p := gs[i].offset + k;
      CutReady(gs, gs[i := Glued(Front(gs[i], k), Rear(gs[j], l))], i + 1, if i == j then j else j + 1, j + 1,
               p, gs[j].offset + l - p)
  {
    hide *;
    var g := Glued(Front(gs[i], k), Rear(gs[j], l));
    Replaced(gs, i, g, j);
    ErasedInside(gs, i, k, j, l);
    ReadyByTwo(gs, gs[i := g], i + 1, if i == j then j else j + 1, j + 1, gs[..i] + [g], gs[j + 1..], i, k, j, l);
  }

  lemma CutApart(gs: seq<Segment>, i: nat, k: nat, j: nat, l: nat)
    requires Good(gs, 0) && i < j < |gs| && 0 < k <= |SegmentCells(gs[i])| && l < |SegmentCells(gs[j])|
    requires gs[i].offset + k <= gs[j].offset + l && gs[i].author != gs[j].author
    ensures var p := gs[i].offset + k;
      CutReady(gs, gs[i := Front(gs[i], k)][j := Rear(gs[j], l).(offset := p)], i + 1, j, j + 1,
               p, gs[j].offset + l - p)
  {
    hide *;
    var g, h: Segment := Front(gs[i], k), Rear(gs[j], l).(offset := gs[i].offset + k);
    ReplacedTwice(gs, i, g, j, h);
    ErasedInside(gs, i, k, j, l);
    ReadyBy(gs, gs[i := g][j := h], i + 1, j, j + 1, gs[..i] + [g], [h], gs[j + 1..], i, k, j, l);
  }

  lemma CutFromFront(gs: seq<Segment>, j: nat, l: nat)
    requires Good(gs, 0) && j < |gs| && 0 < l < |SegmentCells(gs[j])| && 0 <= gs[j].offset
    ensures CutReady(gs, gs[j := Rear(gs[j], l).(offset := 0)], 0, j, j + 1, 0, gs[j].offset + l)
  {
    hide *;
    ErasedFromFront(gs, j, l);
    var h: Segment := Rear(gs[j], l).(offset := 0);
    ReplacedLast(gs, j, h);
    FrontRearFields(gs[j], l);
    ShiftCons(Rear(gs[j], l), gs[j + 1..], -(gs[j].offset + l));
    ReadyFromFront(gs, gs[j := h], j, j + 1, [h], gs[j + 1..], j, l);
  }

  /** The same at a boundary: the first segments go completely. */
  lemma CutWholeFront(gs: seq<Segment>, j: nat)
    requires Good(gs, 0) && j < |gs| && 0 < |SegmentCells(gs[j])| && 0 <= gs[j].offset
    ensures CutReady(gs, gs, 0, j, j, 0, gs[j].offset)
  {
    hide *;
    ErasedWholeFront(gs, j);
    EmptySlice(gs, j);
    NothingInFront(ShiftOffsets(gs[j..], -gs[j].offset));
    ReadyFromFront(gs, gs, j, j, [], gs[j..], j, 0);
  }

  lemma ErasedWholeFront(gs: seq<Segment>, j: nat)
    requires Good(gs, 0) && j < |gs| && 0 < |SegmentCells(gs[j])|
    ensures gs[0].offset == 0 && Erased(gs, 0, 0, j, 0) == ShiftOffsets(gs[j..], -gs[j].offset)
  {
    hide *;
    ErasedFromFront(gs, j, 0);
    RearAll(gs[j]);
    ShiftDrop(gs, j, -gs[j].offset);
  }

  lemma EmptySlice<T>(s: seq<T>, j: nat)
    requires j <= |s|
    ensures s[j..j] == []
  {
  }

  lemma ReadyFromFront(gs: seq<Segment>, s: seq<Segment>, last: nat, beyond: nat,
                       y: seq<Segment>, z: seq<Segment>, j: nat, l: nat)
    requires Good(gs, 0) && j < |gs| && l <= |SegmentCells(gs[j])| && gs[0].offset == 0 <= gs[j].offset
    requires last <= beyond <= |s| && s[last..beyond] == y && s[beyond..] == z
    requires Erased(gs, 0, 0, j, l) == y + ShiftOffsets(z, -(gs[j].offset + l))
    ensures CutReady(gs, s, 0, last, beyond, 0, gs[j].offset + l)
  {
    hide *;
    assert s[..0] == [];
    NothingInFront(y);
    ReadyBy(gs, s, 0, last, beyond, [], y, z, 0, 0, j, l);
  }

  lemma ShiftDrop(gs: seq<Segment>, j: nat, d: int)
    requires j < |gs|
    ensures ShiftOffsets([gs[j]] + gs[j + 1..], d) == ShiftOffsets(gs[j..], d)
  {
    assert [gs[j]] + gs[j + 1..] == gs[j..];
  }

  lemma ErasedFromFront(gs: seq<Segment>, j: nat, l: nat)
    requires Good(gs, 0) && j < |gs| && l < |SegmentCells(gs[j])|
    ensures gs[0].offset == 0
    ensures Erased(gs, 0, 0, j, l) == ShiftOffsets([Rear(gs[j], l)] + gs[j + 1..], -(gs[j].offset + l))
  {
    hide Good, Cells, SegmentCells, Front, Rear, Join, ShiftOffsets, Index, WellFormed;
    FirstOffset(gs, |Cells(gs)|);
    assert Upto(gs, 0, 0) == [];
    JoinNothing(ShiftOffsets(From(gs, j, l), gs[0].offset + 0 - (gs[j].offset + l)));
  }

  lemma RearAll(g: Segment)
    ensures Rear(g, 0) == g
  {
  }

  lemma CutToEnd(gs: seq<Segment>, length: nat, i: nat, k: nat)
    requires Canonical(gs, length) && i < |gs| && k < |SegmentCells(gs[i])|
    ensures var p := gs[i].offset + k;
      && (k > 0 ==> CutReady(gs, gs[i := Front(gs[i], k)], i + 1, |gs|, |gs|, p, length - p))
      && (k == 0 ==> CutReady(gs, gs, i, |gs|, |gs|, p, length - p))
  {
    hide Good, Cells, SegmentCells, Front, CutReady, ShiftOffsets, Erased;
    var j := |gs| - 1;
    var l := |SegmentCells(gs[j])|;
    NextOffsetIs(gs, length, i);
    NextOffsetIs(gs, length, j);
    ErasedToEnd(gs, i, k);
    Replaced(gs, i, Front(gs[i], k), j);
    if k > 0 {
      ReadyByTwo(gs, gs[i := Front(gs[i], k)], i + 1, |gs|, |gs|, gs[..i] + [Front(gs[i], k)], [], i, k, j, l);
    } else {
      ReadyByTwo(gs, gs, i, |gs|, |gs|, gs[..i], [], i, 0, j, l);
    }
  }

  lemma ErasedToEnd(gs: seq<Segment>, i: nat, k: nat)
    requires i < |gs| && k < |SegmentCells(gs[i])|
    ensures var j := |gs| - 1;
      var l := |SegmentCells(gs[j])|;
      var d := gs[i].offset + k - (gs[j].offset + l);
      && (k > 0 ==> Erased(gs, i, k, j, l) == gs[..i] + [Front(gs[i], k)] + ShiftOffsets([], d))
      && (k == 0 ==> Erased(gs, i, k, j, l) == gs[..i] + ShiftOffsets([], d))
  {
    hide SegmentCells, Front, Join, WellFormed, Index;
    var j := |gs| - 1;
    var l := |SegmentCells(gs[j])|;
    assert From(gs, j, l) == [];
    JoinNothing(Upto(gs, i, k));
  }

  /** Inserting the segments of ts from first up to last before iter and moving those from
      beyond on gives gs with ts put into it. */
  ghost predicate FillReady(gs: seq<Segment>, ts: seq<Segment>, s: seq<Segment>, iter: nat, first: nat, last: nat,
                            beyond: nat, offset: int) {
    && first <= last <= |ts| && iter <= beyond <= |s| && 0 <= offset <= |Cells(gs)|
    && (var r := s[..iter] + ShiftOffsets(ts[first..last], offset)
                 + (s[iter..beyond] + ShiftOffsets(s[beyond..], |Cells(ts)|));
        Good(r, 0) && Cells(r) == Splice(Cells(gs), offset, Cells(ts)))
  }

  lemma FillReadyBy(gs: seq<Segment>, ts: seq<Segment>, s: seq<Segment>, iter: nat, first: nat, last: nat,
                    beyond: nat, offset: nat, a: seq<Segment>, b: seq<Segment>)
    requires Good(ts, 0) && |ts| >= 2 && Good(a, 0) && Good(b, offset)
    requires Cells(gs) == Cells(a) + Cells(b) && |Cells(a)| == offset
    requires first == (if Joint(a, ts) then 0 else 1) && last == (if Joint(ts, b) then |ts| else |ts| - 1)
    requires iter <= beyond <= |s| && s[..iter] == InFront(a, ShiftOffsets(ts, offset))
    requires s[iter..beyond] + ShiftOffsets(s[beyond..], |Cells(ts)|)
          == InBack(ShiftOffsets(ts, offset), ShiftOffsets(b, |Cells(ts)|))
    ensures FillReady(gs, ts, s, iter, first, last, beyond, offset)
  {
    hide *;
    var t, d := ShiftOffsets(ts, offset), ShiftOffsets(b, |Cells(ts)|);
    JoinedCells(a, ts, b, offset);
    ShiftJoints(a, ts, offset, b, |Cells(ts)|);
    JoinThree(a, t, d);
    ShiftSlice(ts, first, last, offset);
    SpliceBetween(Cells(a), Cells(ts), Cells(b));
    FillReadyIs(gs, ts, s, iter, first, last, beyond, offset, Join(Join(a, t), d));
  }

  lemma JoinedCells(a: seq<Segment>, ts: seq<Segment>, b: seq<Segment>, offset: nat)
    requires Good(ts, 0) && Good(a, 0) && Good(b, offset) && |Cells(a)| == offset
    ensures var r := Join(Join(a, ShiftOffsets(ts, offset)), ShiftOffsets(b, |Cells(ts)|));
      Good(r, 0) && Cells(r) == Cells(a) + Cells(ts) + Cells(b)
  {
    hide *;
    ShiftKeeps(ts, 0, offset);
    ShiftKeeps(b, offset, |Cells(ts)|);
    JoinGood(a, ShiftOffsets(ts, offset), 0);
    JoinGood(Join(a, ShiftOffsets(ts, offset)), ShiftOffsets(b, |Cells(ts)|), 0);
  }

  lemma FillReadyIs(gs: seq<Segment>, ts: seq<Segment>, s: seq<Segment>, iter: nat, first: nat, last: nat,
                    beyond: nat, offset: nat, r: seq<Segment>)
    requires first <= last <= |ts| && iter <= beyond <= |s| && offset <= |Cells(gs)|
    requires r == s[..iter] + ShiftOffsets(ts[first..last], offset)
                  + (s[iter..beyond] + ShiftOffsets(s[beyond..], |Cells(ts)|))
    requires Good(r, 0) && Cells(r) == Splice(Cells(gs), offset, Cells(ts))
    ensures FillReady(gs, ts, s, iter, first, last, beyond, offset)
  {
    hide Good, Cells, Splice, ShiftOffsets;
  }

  lemma ShiftJoints(a: seq<Segment>, ts: seq<Segment>, d: int, b: seq<Segment>, e: int)
    ensures |ShiftOffsets(ts, d)| == |ts|
    ensures Joint(a, ShiftOffsets(ts, d)) <==> Joint(a, ts)
    ensures Joint(ShiftOffsets(ts, d), ShiftOffsets(b, e)) <==> Joint(ts, b)
  {
  }

  lemma ShiftSlice(ts: seq<Segment>, first: nat, last: nat, d: int)
    requires first <= last <= |ts|
    ensures |ShiftOffsets(ts, d)| == |ts| && ShiftOffsets(ts, d)[first..last] == ShiftOffsets(ts[first..last], d)
  {
  }

  lemma ShiftSnoc(ts: seq<Segment>, first: nat, last: nat, d: int)
    requires first <= last < |ts|
    ensures ShiftOffsets(ts[first..last + 1], d)
         == ShiftOffsets(ts[first..last], d) + [ts[last].(offset := d + ts[last].offset)]
  {
  }

  lemma InsertedAtEnd<T>(a: seq<T>, m: seq<T>, b: seq<T>, x: T)
    ensures (a + m + b)[..|a| + |m|] + [x] + (a + m + b)[|a| + |m|..] == a + (m + [x]) + b
  {
  }

  /** gs with the first segment of ts merged into the one before a boundary, if it can be. */
  function MergedBefore(gs: seq<Segment>, bound: nat, ts: seq<Segment>): seq<Segment>
    requires bound <= |gs| && ts != []
  {
    if bound > 0 && gs[bound - 1].author == ts[0].author then gs[bound - 1 := Glued(gs[bound - 1], ts[0])] else gs
  }

  /** gs with the last segment of ts merged into the one behind a boundary, if it can be. */
  function MergedBehind(gs: seq<Segment>, bound: nat, ts: seq<Segment>, d: int): seq<Segment>
    requires bound <= |gs| && ts != []
  {
    var tail := ts[|ts| - 1];
    if bound < |gs| && gs[bound].author == tail.author
    then gs[bound := Glued(tail.(offset := d + tail.offset), gs[bound])] else gs
  }

  lemma FillAtBoundary(gs: seq<Segment>, bound: nat, ts: seq<Segment>)
    requires Good(gs, 0) && bound <= |gs| && Good(ts, 0) && |ts| >= 2
    ensures var offset := |Cells(gs[..bound])|;
      var s := MergedBehind(MergedBefore(gs, bound, ts), bound, ts, offset);
      var front := bound > 0 && gs[bound - 1].author == ts[0].author;
      var back := bound < |gs| && gs[bound].author == ts[|ts| - 1].author;
      FillReady(gs, ts, s, bound, if front then 1 else 0, if back then |ts| - 1 else |ts|,
                if back then bound + 1 else bound, offset)
  {
    hide *;
    var offset := |Cells(gs[..bound])|;
    var front := bound > 0 && gs[bound - 1].author == ts[0].author;
    var back := bound < |gs| && gs[bound].author == ts[|ts| - 1].author;
    Before(gs, bound);
    BoundaryFront(gs, bound, ts, offset);
    BoundaryBack(gs, bound, ts, offset, |Cells(ts)|);
    FillReadyBy(gs, ts, MergedBehind(MergedBefore(gs, bound, ts), bound, ts, offset), bound, if front then 1 else 0,
                if back then |ts| - 1 else |ts|, if back then bound + 1 else bound, offset, gs[..bound], gs[bound..]);
  }

  lemma BoundaryFront(gs: seq<Segment>, bound: nat, ts: seq<Segment>, d: int)
    requires bound <= |gs| && ts != []
    ensures Joint(gs[..bound], ts) <==> !(bound > 0 && gs[bound - 1].author == ts[0].author)
    ensures |MergedBefore(gs, bound, ts)| == |gs|
    ensures |MergedBehind(MergedBefore(gs, bound, ts), bound, ts, d)| == |gs|
    ensures MergedBehind(MergedBefore(gs, bound, ts), bound, ts, d)[..bound]
         == InFront(gs[..bound], ShiftOffsets(ts, d))
  {
    hide Glued, InFront;
    InFrontIs(gs[..bound], ts, d);
    var s := MergedBefore(gs, bound, ts);
    assert MergedBehind(s, bound, ts, d)[..bound] == s[..bound];
  }

  lemma BoundaryBack(gs: seq<Segment>, bound: nat, ts: seq<Segment>, d: int, n: int)
    requires bound <= |gs| && ts != []
    ensures Joint(ts, gs[bound..]) <==> !(bound < |gs| && gs[bound].author == ts[|ts| - 1].author)
    ensures |MergedBefore(gs, bound, ts)| == |gs|
    ensures var s := MergedBehind(MergedBefore(gs, bound, ts), bound, ts, d);
      var beyond := if bound < |gs| && gs[bound].author == ts[|ts| - 1].author then bound + 1 else bound;
      && |s| == |gs|
      && s[bound..beyond] + ShiftOffsets(s[beyond..], n) == InBack(ShiftOffsets(ts, d), ShiftOffsets(gs[bound..], n))
  {
    hide Glued, InBack, ShiftOffsets;
    InBackIs(ts, gs[bound..], d, n);
    var s1 := MergedBefore(gs, bound, ts);
    var s := MergedBehind(s1, bound, ts, d);
    assert s1[bound..] == gs[bound..];
    if bound < |gs| && gs[bound].author == ts[|ts| - 1].author {
      assert gs[bound..][1..] == gs[bound + 1..] == s[bound + 1..];
      assert s[bound..bound + 1] == [s[bound]];
    } else {
      assert s[bound..] == gs[bound..];
      NothingInFront(ShiftOffsets(gs[bound..], n));
    }
  }

  lemma GluedOffset(g: Segment, h: Segment, o: int)
    ensures Glued(g, h.(offset := o)) == Glued(g, h)
  {
  }

  lemma InFrontIs(a: seq<Segment>, ts: seq<Segment>, d: int)
    requires ts != []
    ensures InFront(a, ShiftOffsets(ts, d)) == if Joint(a, ts) then a else a[..|a| - 1] + [Glued(a[|a| - 1], ts[0])]
  {
    hide Glued;
    if !Joint(a, ts) {
      GluedOffset(a[|a| - 1], ts[0], ts[0].offset + d);
    }
  }

  lemma InBackIs(ts: seq<Segment>, b: seq<Segment>, d: int, n: int)
    requires ts != []
    ensures InBack(ShiftOffsets(ts, d), ShiftOffsets(b, n))
      == if Joint(ts, b) then ShiftOffsets(b, n)
         else [Glued(ts[|ts| - 1].(offset := d + ts[|ts| - 1].offset), b[0])] + ShiftOffsets(b[1..], n)
  {
    hide Glued, ShiftOffsets;
    ShiftJoints(ts, ts, d, b, n);
    ShiftEnds(ts, d);
    if !Joint(ts, b) {
      ShiftEnds(b, n);
      var tail := ts[|ts| - 1];
      GluedOffset(tail.(offset := d + tail.offset), b[0], b[0].offset + n);
    }
  }

  lemma ShiftEnds(b: seq<Segment>, n: int)
    requires b != []
    ensures var r := ShiftOffsets(b, n);
      && |r| == |b| && r[0] == b[0].(offset := b[0].offset + n) && r[1..] == ShiftOffsets(b[1..], n)
      && r[|b| - 1] == b[|b| - 1].(offset := n + b[|b| - 1].offset)
  {
  }

  lemma FillWithin(gs: seq<Segment>, i: nat, k: nat, ts: seq<Segment>)
    requires Good(gs, 0) && Good(ts, 0) && |ts| >= 2 && i < |gs| && 0 < k < |SegmentCells(gs[i])|
    ensures var g, offset, tail := gs[i], gs[i].offset + k, ts[|ts| - 1];
      var front := if g.author == ts[0].author then Glued(Front(g, k), ts[0]) else Front(g, k);
      var rear := if g.author == tail.author then Glued(tail.(offset := offset + tail.offset), Rear(g, k))
                  else Rear(g, k).(offset := offset + |Cells(ts)|);
      FillReady(gs, ts, (gs[..i + 1] + [rear] + gs[i + 1..])[i := front], i + 1,
                if g.author == ts[0].author then 1 else 0, if g.author == tail.author then |ts| - 1 else |ts|,
                i + 2, offset)
  {
    hide *;
    var g, offset, tail := gs[i], gs[i].offset + k, ts[|ts| - 1];
    var front := if g.author == ts[0].author then Glued(Front(g, k), ts[0]) else Front(g, k);
    var rear := if g.author == tail.author then Glued(tail.(offset := offset + tail.offset), Rear(g, k))
                else Rear(g, k).(offset := offset + |Cells(ts)|);
    Halves(gs, i, k);
    HalvesMeet(Cells(gs), offset);
    UptoAndFrom(gs, i, k);
    WithinFront(gs[..i], g, k, ts, offset);
    WithinBack(gs[i + 1..], g, k, ts, offset, |Cells(ts)|);
    WithinList(gs, i, rear, front);
    FillReadyBy(gs, ts, (gs[..i + 1] + [rear] + gs[i + 1..])[i := front], i + 1,
                if g.author == ts[0].author then 1 else 0, if g.author == tail.author then |ts| - 1 else |ts|,
                i + 2, offset,
                gs[..i] + [Front(g, k)], [Rear(g, k)] + gs[i + 1..]);
  }

  lemma HalvesMeet<T>(s: seq<T>, p: nat)
    requires p <= |s|
    ensures s == s[..p] + s[p..]
  {
  }

  lemma WithinList<T>(s: seq<T>, i: nat, r: T, f: T)
    requires i < |s|
    ensures var t := (s[..i + 1] + [r] + s[i + 1..])[i := f];
      |t| == |s| + 1 && t[..i + 1] == s[..i] + [f] && t[i + 1..i + 2] == [r] && t[i + 2..] == s[i + 1..]
  {
  }

  lemma WithinFront(a: seq<Segment>, g: Segment, k: nat, ts: seq<Segment>, d: int)
    requires k <= |SegmentCells(g)| && ts != []
    ensures Joint(a + [Front(g, k)], ts) <==> g.author != ts[0].author
    ensures InFront(a + [Front(g, k)], ShiftOffsets(ts, d))
         == a + [if g.author == ts[0].author then Glued(Front(g, k), ts[0]) else Front(g, k)]
  {
    hide SegmentCells, Front, Glued, InFront, ShiftOffsets;
    FrontRearFields(g, k);
    InFrontIs(a + [Front(g, k)], ts, d);
    var f := a + [Front(g, k)];
    assert f[|f| - 1] == Front(g, k) && f[..|f| - 1] == a;
  }

  lemma WithinBack(b: seq<Segment>, g: Segment, k: nat, ts: seq<Segment>, d: int, n: int)
    requires k <= |SegmentCells(g)| && ts != [] && g.offset + k == d
    ensures Joint(ts, [Rear(g, k)] + b) <==> g.author != ts[|ts| - 1].author
    ensures var tail := ts[|ts| - 1];
      InBack(ShiftOffsets(ts, d), ShiftOffsets([Rear(g, k)] + b, n))
      == [if g.author == tail.author then Glued(tail.(offset := d + tail.offset), Rear(g, k))
          else Rear(g, k).(offset := d + n)] + ShiftOffsets(b, n)
  {
    hide SegmentCells, Rear, Glued, InBack, ShiftOffsets;
    FrontRearFields(g, k);
    ShiftCons(Rear(g, k), b, n);
    InBackIs(ts, [Rear(g, k)] + b, d, n);
    assert ([Rear(g, k)] + b)[1..] == b;
  }

  lemma FillBounds(gs: seq<Segment>, ts: seq<Segment>, s: seq<Segment>, iter: nat, first: nat, last: nat,
                   beyond: nat, offset: nat)
    requires FillReady(gs, ts, s, iter, first, last, beyond, offset)
    ensures first <= last <= |ts| && iter <= beyond <= |s|
  {
  }

  lemma FillInserted(gs: seq<Segment>, ts: seq<Segment>, s: seq<Segment>, iter: nat, first: nat, last: nat,
                     beyond: nat, offset: nat)
    requires FillReady(gs, ts, s, iter, first, last, beyond, offset)
    ensures var m := ShiftOffsets(ts[first..last], offset);
      var t, e := s[..iter] + m + s[iter..], beyond + (last - first);
      && e <= |t|
      && (var r := t[..e] + ShiftOffsets(t[e..], |Cells(ts)|);
          offset <= |Cells(gs)| && Good(r, 0) && Cells(r) == Splice(Cells(gs), offset, Cells(ts)))
  {
    hide Good, Cells, Splice;
    var m := ShiftOffsets(ts[first..last], offset);
    Filled(s, iter, m, beyond);
    Reassociate(s[..iter] + m, s[iter..beyond], ShiftOffsets(s[beyond..], |Cells(ts)|));
  }

  lemma Filled<T>(s: seq<T>, iter: nat, m: seq<T>, beyond: nat)
    requires iter <= beyond <= |s|
    ensures var t, e := s[..iter] + m + s[iter..], beyond + |m|;
      t[..e] == s[..iter] + m + s[iter..beyond] && t[e..] == s[beyond..]
  {
  }

  lemma NothingToSplice(gs: seq<Segment>, ts: seq<Segment>, offset: nat)
    requires Good(gs, 0) && offset <= |Cells(gs)|
    requires Cells(ts) == [] || (gs == [] && Good(ts, 0))
    ensures Cells(gs + ts) == Splice(Cells(gs), offset, Cells(ts))
    ensures Good(gs + ts, 0) <==> Good(ts, 0)
  {
    hide *;
    Nothing();
    if gs == [] {
      NothingInFront(ts);
      SpliceNothing([], 0, Cells(ts));
    } else {
      CellsAppend(gs, ts);
      GoodAppend(gs, ts, 0);
      SpliceNothing(Cells(gs), offset, []);
      OnlyEmptyIsGood(gs, ts);
    }
  }

  lemma SpliceNothing<T>(s: seq<T>, p: nat, x: seq<T>)
    requires p <= |s|
    ensures s == [] ==> Splice(s, p, x) == x
    ensures x == [] ==> Splice(s, p, x) == s == s + x
  {
  }

  lemma OnlyEmptyIsGood(gs: seq<Segment>, ts: seq<Segment>)
    requires Cells(ts) == []
    ensures Good(ts, 0) ==> ts == []
    ensures Good(ts, |Cells(gs)|) ==> ts == []
    ensures Joint(gs, []) && Good([], |Cells(gs)|) && Good([], 0)
  {
  }

  lemma Nothing()
    ensures Canonical([], 0) && Cells([]) == []
  {
  }

  /** A segment starts at 0 if it is the first one, and holds no more characters than bytes. */
  predicate ContiguousAt(gs: seq<Segment>, length: nat, i: nat)
    requires i < |gs|
  {
    && (i == 0 ==> gs[i].offset == 0)
    && 0 < NextOffset(gs, length, i) - gs[i].offset <= |gs[i].text|
  }

  predicate Contiguous(gs: seq<Segment>, length: nat) {
    forall i :: 0 <= i < |gs| ==> ContiguousAt(gs, length, i)
  }

  /** That is: the offsets begin with 0, and they and the length grow from segment to segment, by no
      more than the bytes of the segment. */
  lemma ContiguousIs(gs: seq<Segment>, length: nat)
    requires gs != []
    ensures var last := |gs| - 1;
      Contiguous(gs, length) <==>
        && gs[0].offset == 0
        && (forall i :: 0 <= i < last ==> gs[i].offset < gs[i + 1].offset <= gs[i].offset + |gs[i].text|)
        && gs[last].offset < length <= gs[last].offset + |gs[last].text|
  {
    if Contiguous(gs, length) {
      assert ContiguousAt(gs, length, 0) && ContiguousAt(gs, length, |gs| - 1);
      forall i | 0 <= i < |gs| - 1
        ensures gs[i].offset < gs[i + 1].offset <= gs[i].offset + |gs[i].text|
      {
        assert ContiguousAt(gs, length, i);
      }
    }
  }

  lemma CanonicalIsContiguous(gs: seq<Segment>, length: nat)
    requires Canonical(gs, length)
    ensures Contiguous(gs, length)
  {
    forall i | 0 <= i < |gs|
      ensures ContiguousAt(gs, length, i)
    {
      NextOffsetIs(gs, length, i);
      FirstOffset(gs, length);
    }
  }

  /** Of two places the one behind is in the same segment or a later one. */
  lemma InOrder(gs: seq<Segment>, length: nat, i: nat, k: nat, j: nat, l: nat)
    requires Canonical(gs, length) && i < |gs| && k <= |SegmentCells(gs[i])| && j < |gs| && l <= |SegmentCells(gs[j])|
    requires gs[i].offset + k < gs[j].offset + l
    ensures i <= j && (i == j ==> k < l)
  {
    hide Good, Cells, SegmentCells;
    NextOffsetIs(gs, length, i);
    NextOffsetIs(gs, length, j);
    if j < i {
      OffsetsGrow(gs, length, j, i);
    }
  }

  /** There is one place for a position, if a boundary belongs to the segment behind it and
      the end to the last one. */
  lemma PlaceIsUnique(gs: seq<Segment>, length: nat, i: nat, k: nat, j: nat, l: nat)
    requires Canonical(gs, length) && i < |gs| && k <= |SegmentCells(gs[i])| && j < |gs| && l <= |SegmentCells(gs[j])|
    requires k == |SegmentCells(gs[i])| ==> i == |gs| - 1
    requires l == |SegmentCells(gs[j])| ==> j == |gs| - 1
    requires gs[i].offset + k == gs[j].offset + l
    ensures i == j && k == l
  {
    hide Good, Cells, SegmentCells;
    NextOffsetIs(gs, length, i);
    NextOffsetIs(gs, length, j);
    if i < j {
      OffsetsGrow(gs, length, i, j);
    } else if j < i {
      OffsetsGrow(gs, length, j, i);
    }
  }

  /** Only the end of the last segment is the end. */
  lemma AtEnd(gs: seq<Segment>, length: nat, j: nat, l: nat)
    requires Canonical(gs, length) && j < |gs| && l <= |SegmentCells(gs[j])|
    requires l == |SegmentCells(gs[j])| ==> j == |gs| - 1
    ensures gs[j].offset + l == length <==> l == |SegmentCells(gs[j])|
  {
    hide Good, Cells, SegmentCells;
    NextOffsetIs(gs, length, j);
  }

  lemma SplitList<T>(s: seq<T>, i: nat, f: T, x: T, r: T)
    requires i < |s|
    ensures var t := (s[..i + 1] + [r] + s[i + 1..])[i := f];
      t[..i + 1] + [x] + t[i + 1..] == s[..i] + [f, x] + ([r] + s[i + 1..])
  {
  }

  lemma Replace<T>(s: seq<T>, i: nat, x: T)
    requires i < |s|
    ensures s[i := x] == s[..i] + [x] + s[i + 1..]
  {
  }

  lemma FirstText(gs: seq<Segment>, offset: nat, text: seq<Byte>, author: nat)
    requires Canonical(gs, 0) && WellFormed(text)
    ensures var g: Segment := Segment(author, text, 0);
      && !AuthorAt(gs, 0, offset, author) && gs + [g] == [g] && Cells(gs) == []
      && Cells([g]) == Splice(Cells(gs), 0, Tag(Chars(text), author)) && (Good([g], 0) <==> text != [])
  {
    EmptyCells(gs, 0);
    var g: Segment := Segment(author, text, 0);
    OneSegment(g, 0);
    assert Splice([], 0, SegmentCells(g)) == SegmentCells(g);
  }

  /** Adjusting the offsets in s from iter on gives gs with the text put into it. */
  ghost predicate Placed(gs: seq<Segment>, s: seq<Segment>, iter: nat, offset: int,
                         text: seq<Byte>, author: nat, good: bool) {
    && WellFormed(text) && 0 <= offset <= |Cells(gs)| && iter <= |s|
    && (var r := s[..iter] + ShiftOffsets(s[iter..], |Chars(text)|);
        && Cells(r) == Splice(Cells(gs), offset, Tag(Chars(text), author))
        && (Good(r, 0) <==> good))
  }

  lemma PlacedParts(gs: seq<Segment>, a: seq<Segment>, m: seq<Segment>, b: seq<Segment>, s: seq<Segment>,
                    offset: nat, text: seq<Byte>, author: nat, good: bool)
    requires s == a + m + b && WellFormed(text) && offset <= |Cells(gs)|
    requires Cells(a + m + ShiftOffsets(b, |Chars(text)|)) == Splice(Cells(gs), offset, Tag(Chars(text), author))
    requires Good(a + m + ShiftOffsets(b, |Chars(text)|), 0) <==> good
    ensures Placed(gs, s, |a| + |m|, offset, text, author, good)
  {
    hide Good, Cells, Splice, Tag, ShiftOffsets, Chars, WellFormed;
    assert s[..|a| + |m|] == a + m && s[|a| + |m|..] == b;
  }

  lemma SplitPlaced(gs: seq<Segment>, i: nat, k: nat, text: seq<Byte>, author: nat)
    requires Good(gs, 0) && i < |gs| && 0 < k < |SegmentCells(gs[i])| && gs[i].author != author && WellFormed(text)
    ensures var new_: Segment := Segment(author, text, gs[i].offset + k);
      var t := (gs[..i + 1] + [Rear(gs[i], k)] + gs[i + 1..])[i := Front(gs[i], k)];
      Placed(gs, t[..i + 1] + [new_] + t[i + 1..], i + 2, gs[i].offset + k, text, author, text != [])
  {
    hide *;
    InsertSplit(gs, i, k, text, author);
    var new_: Segment := Segment(author, text, gs[i].offset + k);
    var t := (gs[..i + 1] + [Rear(gs[i], k)] + gs[i + 1..])[i := Front(gs[i], k)];
    SplitList(gs, i, Front(gs[i], k), new_, Rear(gs[i], k));
    PlacedParts(gs, gs[..i], [Front(gs[i], k), new_], [Rear(gs[i], k)] + gs[i + 1..],
                t[..i + 1] + [new_] + t[i + 1..], gs[i].offset + k, text, author, text != []);
  }

  lemma BetweenPlaced(gs: seq<Segment>, length: nat, i: nat, o: nat, text: seq<Byte>, author: nat)
    requires Canonical(gs, length) && i <= |gs| && WellFormed(text)
    requires o == if i == 0 then 0 else NextOffset(gs, length, i - 1)
    requires (i > 0 ==> gs[i - 1].author != author) && (i < |gs| ==> gs[i].author != author)
    ensures var new_: Segment := Segment(author, text, o);
      Placed(gs, gs[..i] + [new_] + gs[i..], i + 1, o, text, author, text != [])
  {
    hide Good, Cells, Splice, Tag, ShiftOffsets, Chars, WellFormed, NextOffset;
    BehindSegment(gs, length, i);
    InsertBetween(gs, i, o, text, author);
    var new_: Segment := Segment(author, text, o);
    PlacedParts(gs, gs[..i], [new_], gs[i..], gs[..i] + [new_] + gs[i..], o, text, author, text != []);
  }

  lemma InsidePlaced(gs: seq<Segment>, i: nat, k: nat, text: seq<Byte>)
    requires Good(gs, 0) && i < |gs| && k <= |SegmentCells(gs[i])| && WellFormed(text)
    ensures Placed(gs, gs[i := Widened(gs[i], k, text)], i + 1, gs[i].offset + k, text, gs[i].author, true)
  {
    hide *;
    InsertInside(gs, i, k, text);
    Replace(gs, i, Widened(gs[i], k, text));
    PlacedParts(gs, gs[..i], [Widened(gs[i], k, text)], gs[i + 1..], gs[i := Widened(gs[i], k, text)],
                gs[i].offset + k, text, gs[i].author, true);
  }

  lemma BehindSegment(gs: seq<Segment>, length: nat, i: nat)
    requires Canonical(gs, length) && i <= |gs|
    ensures |Cells(gs[..i])| == if i == 0 then 0 else NextOffset(gs, length, i - 1)
  {
    if i > 0 {
      hide Good, Cells, SegmentCells;
      NextOffsetIs(gs, length, i - 1);
      Around(gs, i - 1);
      assert gs[..i] == gs[..i - 1] + [gs[i - 1]];
      CellsAppend(gs[..i - 1], [gs[i - 1]]);
      OneSegment(gs[i - 1], 0);
    }
  }

  /** A segment by this author holds the position or ends at it. */
  predicate AuthorAt(gs: seq<Segment>, length: nat, offset: nat, author: nat) {
    exists i :: 0 <= i < |gs| && gs[i].author == author && gs[i].offset <= offset <= NextOffset(gs, length, i)
  }

  /** The segment before one that is not the first ends where that one starts. */
  lemma StepBack(gs: seq<Segment>, length: nat, i: nat)
    requires Canonical(gs, length) && i < |gs|
    ensures 0 <= gs[i].offset && (i == 0 <==> gs[i].offset == 0)
    ensures 0 < |SegmentCells(gs[i])| && gs[i].offset + |SegmentCells(gs[i])| <= length
    ensures i > 0 ==> var n := |SegmentCells(gs[i - 1])|;
      && 0 < n && gs[i - 1].offset + n == gs[i].offset
      && n == |Chars(gs[i - 1].text)| && Index(gs[i - 1].text, n) == |gs[i - 1].text|
  {
    hide Good, Cells, SegmentCells, Index, Chars, WellFormed;
    NextOffsetIs(gs, length, i);
    FirstOffset(gs, length);
    if i > 0 {
      NextOffsetIs(gs, length, i - 1);
      OffsetsGrow(gs, length, i - 1, i);
      NextOffsetIs(gs, length, 0);
      OffsetsGrow(gs, length, 0, i);
      CellsOf(gs[i - 1]);
      IndexMonotone(gs[i - 1].text, 0, |Chars(gs[i - 1].text)|);
    }
  }

  lemma FirstOffset(gs: seq<Segment>, length: nat)
    requires Canonical(gs, length) && gs != []
    ensures gs[0].offset == 0
  {
  }

  /** What GetSegmentFor finds tells whether the author has a segment there. */
  lemma ForAuthor(gs: seq<Segment>, length: nat, i: nat, k: nat, offset: nat, author: nat)
    requires Canonical(gs, length) && i < |gs| && k <= |SegmentCells(gs[i])| && gs[i].offset + k == offset
    requires gs[i].author != author && k == 0 ==> i == 0
    requires gs[i].author != author && k == |SegmentCells(gs[i])| && i + 1 < |gs| ==> gs[i + 1].author != author
    ensures AuthorAt(gs, length, offset, author) <==> gs[i].author == author
  {
    hide Good, Cells, SegmentCells;
    NextOffsetIs(gs, length, i);
    if gs[i].author != author && AuthorAt(gs, length, offset, author) {
      var j :| 0 <= j < |gs| && gs[j].author == author && gs[j].offset <= offset <= NextOffset(gs, length, j);
      NextOffsetIs(gs, length, j);
      if j < i {
        OffsetsGrow(gs, length, j, i);
        assert false;
      } else if i < j {
        OffsetsGrow(gs, length, i, j);
        if i + 1 < j {
          OffsetsGrow(gs, length, i, i + 1);
          OffsetsGrow(gs, length, i + 1, j);
        }
        assert false;
      }
    }
  }

  lemma SegmentLength(g: Segment)
    ensures |SegmentCells(g)| == |Chars(g.text)|
  {
  }
}
