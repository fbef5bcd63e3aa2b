/** Cutting canonical lists of segments in two, and joining them so that the result is
    canonical again: two segments of one author that become neighbours become one. */
module Joints {
  import opened Masks
  import opened Text
  import opened Utf8
  import opened Segments

  /** The parts of a segment's text, as bytes and as segments. */
  lemma CutInTwo(g: Segment, k: nat)
    requires k <= |SegmentCells(g)|
    ensures var i := Index(g.text, k);
      && i <= |g.text| && WellFormed(g.text[..i]) && WellFormed(g.text[i..])
      && (i == 0 <==> k == 0) && (i == |g.text| <==> k == |SegmentCells(g)|)
      && Front(g, k) == Segment(g.author, g.text[..i], g.offset)
      && Rear(g, k) == Segment(g.author, g.text[i..], g.offset + k)
  {
    hide Chars, Index, WellFormed;
    CellsOf(g);
    TextAt(g, k);
    IndexMonotone(g.text, 0, k);
    IndexMonotone(g.text, k, |Chars(g.text)|);
  }

  lemma PutInside(g: Segment, k: nat, text: seq<Byte>)
    requires k <= |SegmentCells(g)| && WellFormed(text)
    ensures var i := Index(g.text, k);
      && i <= |g.text| && WellFormed(g.text[..i] + text + g.text[i..])
      && Widened(g, k, text) == Segment(g.author, g.text[..i] + text + g.text[i..], g.offset)
  {
    hide Chars, Index, WellFormed;
    WidenedText(g, k, text);
  }

  /** gs up to character k of segment i. */
  function Upto(gs: seq<Segment>, i: nat, k: nat): seq<Segment>
    requires i < |gs| && k <= |SegmentCells(gs[i])|
  {
    gs[..i] + if k == 0 then [] else [Front(gs[i], k)]
  }

  /** gs from character k of segment i on. */
  function From(gs: seq<Segment>, i: nat, k: nat): seq<Segment>
    requires i < |gs| && k <= |SegmentCells(gs[i])|
  {
    (if k == |SegmentCells(gs[i])| then [] else [Rear(gs[i], k)]) + gs[i + 1..]
  }

  /** A part of a segment, as a list of at most one. */
  lemma PartGood(g: Segment, h: Segment, base: nat, part: seq<Segment>)
    requires part == (if h.text == [] then [] else [h]) && h.offset == base && h.author == g.author
    ensures Good(part, base) && Cells(part) == SegmentCells(h)
    ensures forall a :: Joint(a, [g]) ==> Joint(a, part)
    ensures forall b :: Joint([g], b) ==> Joint(part, b)
  {
    OneSegment(h, base);
    EmptySegment(h);
    EmptyCells([], base);
  }

  lemma Halves(gs: seq<Segment>, i: nat, k: nat)
    requires Good(gs, 0) && i < |gs| && k <= |SegmentCells(gs[i])|
    ensures var p := gs[i].offset + k;
      && 0 <= p <= |Cells(gs)|
      && Good(Upto(gs, i, k), 0) && Cells(Upto(gs, i, k)) == Cells(gs)[..p]
      && Good(From(gs, i, k), p) && Cells(From(gs, i, k)) == Cells(gs)[p..]
  {
    hide *;
    Around(gs, i);
    CutThree(Cells(gs[..i]), SegmentCells(gs[i]), k, Cells(gs[i + 1..]));
    UptoGood(gs[..i], gs[i], k);
    FromGood(gs[i], k, gs[i + 1..]);
    UptoAndFrom(gs, i, k);
  }

  lemma UptoAndFrom(gs: seq<Segment>, i: nat, k: nat)
    requires i < |gs| && k <= |SegmentCells(gs[i])|
    ensures Upto(gs, i, k) == gs[..i] + if k == 0 then [] else [Front(gs[i], k)]
    ensures From(gs, i, k) == (if k == |SegmentCells(gs[i])| then [] else [Rear(gs[i], k)]) + gs[i + 1..]
  {
  }

  lemma UptoGood(a: seq<Segment>, g: Segment, k: nat)
    requires Good(a, 0) && g.offset == |Cells(a)| && k <= |SegmentCells(g)| && Joint(a, [g])
    ensures var f := if k == 0 then [] else [Front(g, k)];
      Good(a + f, 0) && Cells(a + f) == Cells(a) + SegmentCells(g)[..k]
  {
    hide *;
    var f := if k == 0 then [] else [Front(g, k)];
    FrontAndRear(g, k);
    FrontRearFields(g, k);
    PartGood(g, Front(g, k), |Cells(a)|, f);
    GoodAppend(a, f, 0);
    CellsAppend(a, f);
  }

  lemma FromGood(g: Segment, k: nat, b: seq<Segment>)
    requires 0 <= g.offset && Good(b, g.offset + |SegmentCells(g)|) && k <= |SegmentCells(g)| && Joint([g], b)
    ensures var r := if k == |SegmentCells(g)| then [] else [Rear(g, k)];
      Good(r + b, g.offset + k) && Cells(r + b) == SegmentCells(g)[k..] + Cells(b)
  {
    hide *;
    var r := if k == |SegmentCells(g)| then [] else [Rear(g, k)];
    FrontAndRear(g, k);
    FrontRearFields(g, k);
    PartGood(g, Rear(g, k), g.offset + k, r);
    GoodAppend(r, b, g.offset + k);
    CellsAppend(r, b);
  }

  lemma CutThree<T>(a: seq<T>, g: seq<T>, k: nat, b: seq<T>)
    requires k <= |g|
    ensures (a + g + b)[..|a| + k] == a + g[..k] && (a + g + b)[|a| + k..] == g[k..] + b
  {
  }

  /** Two segments of one author as one. */
  function Glued(g: Segment, h: Segment): Segment {
    TextAppend(g.text, h.text, g.author);
    Segment(g.author, g.text + h.text, g.offset)
  }

  function Join(a: seq<Segment>, b: seq<Segment>): seq<Segment> {
    if Joint(a, b) then a + b
    else a[..|a| - 1] + [Glued(a[|a| - 1], b[0])] + b[1..]
  }

  lemma GluedCells(g: Segment, h: Segment)
    requires g.author == h.author
    ensures SegmentCells(Glued(g, h)) == SegmentCells(g) + SegmentCells(h)
  {
    hide Chars, WellFormed, Tag;
    TextAppend(g.text, h.text, g.author);
  }

  lemma JoinGood(a: seq<Segment>, b: seq<Segment>, base: nat)
    requires Good(a, base) && Good(b, base + |Cells(a)|)
    ensures Good(Join(a, b), base) && Cells(Join(a, b)) == Cells(a) + Cells(b)
  {
    hide Good, Cells, SegmentCells, Glued;
    if Joint(a, b) {
      GoodAppend(a, b, base);
      CellsAppend(a, b);
    } else {
      var x, g, h, y := a[..|a| - 1], a[|a| - 1], b[0], b[1..];
      assert a == x + [g] && b == [h] + y;
      GluedGood(x, g, h, y, base);
    }
  }

  lemma GluedGood(x: seq<Segment>, g: Segment, h: Segment, y: seq<Segment>, base: nat)
    requires Good(x + [g], base) && Good([h] + y, base + |Cells(x + [g])|) && g.author == h.author
    ensures Good(x + [Glued(g, h)] + y, base)
    ensures Cells(x + [Glued(g, h)] + y) == Cells(x + [g]) + Cells([h] + y)
  {
    hide Good, Cells, SegmentCells, Glued;
    var w := Glued(g, h);
    GoodAppend(x, [g], base);
    CellsAppend(x, [g]);
    GoodAppend([h], y, base + |Cells(x + [g])|);
    CellsAppend([h], y);
    OneSegment(g, base + |Cells(x)|);
    OneSegment(h, base + |Cells(x + [g])|);
    OneSegment(w, base + |Cells(x)|);
    GluedCells(g, h);
    GluedFields(g, h);
    CellsAppend(x + [w], y);
    CellsAppend(x, [w]);
    GoodAppend(x + [w], y, base);
    GoodAppend(x, [w], base);
    FourParts(Cells(x), SegmentCells(g), SegmentCells(h), Cells(y));
  }

  lemma GluedIs(g: Segment, h: Segment)
    ensures WellFormed(g.text + h.text) && Glued(g, h) == Segment(g.author, g.text + h.text, g.offset)
  {
    TextAppend(g.text, h.text, g.author);
  }

  lemma GluedFields(g: Segment, h: Segment)
    ensures var w := Glued(g, h);
      w.author == g.author && w.offset == g.offset && (g.text != [] ==> w.text != [])
  {
  }

  lemma FourParts<T>(x: seq<T>, g: seq<T>, h: seq<T>, y: seq<T>)
    ensures x + (g + h) + y == (x + g) + (h + y)
  {
  }

  /** The list that is left when the characters between two places go. */
  function Erased(gs: seq<Segment>, i: nat, k: nat, j: nat, l: nat): seq<Segment>
    requires i < |gs| && k <= |SegmentCells(gs[i])| && j < |gs| && l <= |SegmentCells(gs[j])|
  {
    Join(Upto(gs, i, k), ShiftOffsets(From(gs, j, l), gs[i].offset + k - (gs[j].offset + l)))
  }

  lemma ErasedCells(gs: seq<Segment>, i: nat, k: nat, j: nat, l: nat)
    requires Good(gs, 0)
    requires i < |gs| && k <= |SegmentCells(gs[i])| && j < |gs| && l <= |SegmentCells(gs[j])|
    requires gs[i].offset + k <= gs[j].offset + l
    ensures var p, q := gs[i].offset + k, gs[j].offset + l;
      && 0 <= p && q <= |Cells(gs)|
      && Good(Erased(gs, i, k, j, l), 0) && Cells(Erased(gs, i, k, j, l)) == Cut(Cells(gs), p, q - p)
  {
    hide Good, Cells, SegmentCells, Upto, From, Join, ShiftOffsets;
    var p, q := gs[i].offset + k, gs[j].offset + l;
    Halves(gs, i, k);
    Halves(gs, j, l);
    ShiftKeeps(From(gs, j, l), q, p - q);
    JoinGood(Upto(gs, i, k), ShiftOffsets(From(gs, j, l), p - q), 0);
  }

  /** The list between two places. */
  function Between(gs: seq<Segment>, i: nat, k: nat, j: nat, l: nat): seq<Segment>
    requires i <= j < |gs| && 0 < l <= |SegmentCells(gs[j])|
    requires k <= |SegmentCells(if i < j then gs[i] else Front(gs[j], l))|
  {
    ShiftOffsets(From(Upto(gs, j, l), i, k), -(gs[i].offset + k))
  }

  lemma BetweenCells(gs: seq<Segment>, i: nat, k: nat, j: nat, l: nat)
    requires Good(gs, 0)
    requires i <= j < |gs| && 0 < l <= |SegmentCells(gs[j])|
    requires k <= |SegmentCells(if i < j then gs[i] else Front(gs[j], l))|
    ensures var p, q := gs[i].offset + k, gs[j].offset + l;
      && 0 <= p <= q <= |Cells(gs)|
      && Good(Between(gs, i, k, j, l), 0) && Cells(Between(gs, i, k, j, l)) == Cells(gs)[p..q]
  {
    hide Good, Cells, SegmentCells, From, Front, ShiftOffsets;
    var p, q := gs[i].offset + k, gs[j].offset + l;
    FrontRearFields(gs[j], l);
    Halves(gs, j, l);
    Halves(Upto(gs, j, l), i, k);
    ShiftKeeps(From(Upto(gs, j, l), i, k), p, -p);
    SliceTwice(Cells(gs), p, q);
  }

  lemma SliceTwice<T>(s: seq<T>, p: nat, q: nat)
    requires q <= |s| && p <= |s[..q]|
    ensures s[..q][p..] == s[p..q]
  {
  }

  lemma IndexInFront(b: seq<Byte>, k: nat, l: nat)
    requires WellFormed(b) && k <= l <= |Chars(b)|
    ensures var i := Index(b, l);
      && WellFormed(b[..i]) && k <= |Chars(b[..i])| && Index(b[..i], k) == Index(b, k) <= i
  {
    hide WellFormed, Chars, Index;
    CharsAt(b, l);
    IndexIsEncodedLength(b, k);
    IndexIsEncodedLength(b[..Index(b, l)], k);
    assert Chars(b)[..l][..k] == Chars(b)[..k];
  }

  lemma WholeSlices<T>(s: seq<T>, i: nat)
    requires i <= |s|
    ensures s[i..|s|] == s[i..] && s[0..i] == s[..i] && s[0..|s|] == s
  {
  }

  /** Segment m of the list between two places: all of the segment there, less what lies
      before the first place and what lies behind the second. */
  lemma PieceIs(gs: seq<Segment>, i: nat, k: nat, j: nat, l: nat, m: nat)
    requires i <= j < |gs| && 0 < l <= |SegmentCells(gs[j])|
    requires k < if i < j then |SegmentCells(gs[i])| else l
    requires i <= m <= j
    ensures k <= |SegmentCells(if i < j then gs[i] else Front(gs[j], l))|
    ensures var g, p := gs[m], gs[i].offset + k;
      var from := if m == i then Index(g.text, k) else 0;
      var to := if m == j then Index(g.text, l) else |g.text|;
      && from <= to <= |g.text| && WellFormed(g.text[from..to])
      && |Between(gs, i, k, j, l)| == j - i + 1
      && Between(gs, i, k, j, l)[m - i] == Segment(g.author, g.text[from..to], if m == i then 0 else g.offset - p)
  {
    hide Good, Cells, SegmentCells, Index, Chars, WellFormed, Front, Rear;
    FrontAndRear(gs[j], l);
    CutInTwo(gs[j], l);
    CellsOf(gs[j]);
    if i == j {
      IndexInFront(gs[j].text, k, l);
      CutInTwo(Front(gs[j], l), k);
    } else {
      CellsOf(gs[i]);
      CutInTwo(gs[i], k);
      WholeSlices(gs[i].text, Index(gs[i].text, k));
      WholeSlices(gs[j].text, Index(gs[j].text, l));
      WholeSlices(gs[m].text, 0);
    }
  }

  lemma ShiftCons(h: Segment, y: seq<Segment>, d: int)
    ensures ShiftOffsets([h] + y, d) == [h.(offset := h.offset + d)] + ShiftOffsets(y, d)
  {
  }

  lemma JoinOne(x: seq<Segment>, g: Segment, h: Segment, y: seq<Segment>)
    ensures Join(x + [g], [h] + y) == if g.author == h.author then x + [Glued(g, h)] + y else x + [g] + [h] + y
  {
    hide Glued;
    var a, b := x + [g], [h] + y;
    assert a[|a| - 1] == g && a[..|a| - 1] == x && b[0] == h && b[1..] == y;
    assert x + [g] + [h] + y == a + b;
  }

  lemma JoinNothing(a: seq<Segment>)
    ensures Join([], a) == a && Join(a, []) == a
  {
  }

  /** What the borders of an erased range become. */
  lemma ErasedInside(gs: seq<Segment>, i: nat, k: nat, j: nat, l: nat)
    requires i < |gs| && 0 < k <= |SegmentCells(gs[i])| && j < |gs| && l < |SegmentCells(gs[j])|
    ensures var p := gs[i].offset + k;
      var rest := ShiftOffsets(gs[j + 1..], p - (gs[j].offset + l));
      Erased(gs, i, k, j, l)
      == if gs[i].author == gs[j].author then gs[..i] + [Glued(Front(gs[i], k), Rear(gs[j], l))] + rest
         else gs[..i] + [Front(gs[i], k)] + [Rear(gs[j], l).(offset := p)] + rest
  {
    hide SegmentCells, Front, Rear, Join, ShiftOffsets;
    var p := gs[i].offset + k;
    FrontRearFields(gs[i], k);
    FrontRearFields(gs[j], l);
    ShiftCons(Rear(gs[j], l), gs[j + 1..], p - (gs[j].offset + l));
    JoinOne(gs[..i], Front(gs[i], k), Rear(gs[j], l).(offset := p),
            ShiftOffsets(gs[j + 1..], p - (gs[j].offset + l)));
  }

  /** What stands in front of a list that comes in behind a. */
  function InFront(a: seq<Segment>, ts: seq<Segment>): seq<Segment> {
    if Joint(a, ts) then a else a[..|a| - 1] + [Glued(a[|a| - 1], ts[0])]
  }

  /** What stands behind a list that comes in before b. */
  function InBack(ts: seq<Segment>, b: seq<Segment>): seq<Segment> {
    if Joint(ts, b) then b else [Glued(ts[|ts| - 1], b[0])] + b[1..]
  }

  lemma JoinFirst(a: seq<Segment>, ts: seq<Segment>)
    ensures Join(a, ts) == InFront(a, ts) + ts[if Joint(a, ts) then 0 else 1..]
  {
    hide Glued;
  }

  lemma JoinLast(x: seq<Segment>, ts: seq<Segment>, b: seq<Segment>)
    requires ts != []
    ensures Join(x + ts, b) == x + ts[..if Joint(ts, b) then |ts| else |ts| - 1] + InBack(ts, b)
  {
    hide Glued;
    var j := x + ts;
    assert Joint(j, b) <==> Joint(ts, b);
    assert j[|j| - 1] == ts[|ts| - 1];
    if Joint(ts, b) {
      assert ts[..|ts|] == ts;
    } else {
      assert j[..|j| - 1] == x + ts[..|ts| - 1];
    }
  }

  lemma WithoutFirst(ts: seq<Segment>, b: seq<Segment>, first: nat)
    requires first < |ts|
    ensures var rest := ts[first..]; (Joint(rest, b) <==> Joint(ts, b)) && InBack(rest, b) == InBack(ts, b)
  {
    hide Glued;
    assert ts[first..][|ts| - first - 1] == ts[|ts| - 1];
  }

  lemma DropThenTake<T>(ts: seq<T>, first: nat)
    requires first < |ts|
    ensures var rest := ts[first..];
      rest[..|rest|] == ts[first..|ts|] && rest[..|rest| - 1] == ts[first..|ts| - 1]
  {
  }

  /** Joining on both sides a list of at least two segments leaves all but its ends alone. */
  lemma JoinThree(a: seq<Segment>, ts: seq<Segment>, b: seq<Segment>)
    requires |ts| >= 2
    ensures var first, last := if Joint(a, ts) then 0 else 1, if Joint(ts, b) then |ts| else |ts| - 1;
      Join(Join(a, ts), b) == InFront(a, ts) + ts[first..last] + InBack(ts, b)
  {
    hide *;
    var first := if Joint(a, ts) then 0 else 1;
    JoinFirst(a, ts);
    WithoutFirst(ts, b, first);
    DropThenTake(ts, first);
    JoinLast(InFront(a, ts), ts[first..], b);
  }
}
