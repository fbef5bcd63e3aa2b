/** Lists of segments: runs of text by one author, each with its offset in characters. */
module Segments {
  import opened Masks
  import opened Text
  import opened Utf8

  /** The length of the text in bytes is |text|. */
  datatype RawSegment = Segment(author: nat, text: seq<Byte>, offset: int)

  type Segment = g: RawSegment | WellFormed(g.text) witness Segment(0, [], 0)

  /** Text by one author, character by character. */
  function Tag(cs: seq<Char>, author: nat): (r: seq<Cell>)
    ensures |r| == |cs|
  {
    seq(|cs|, i requires 0 <= i < |cs| => Cell(cs[i], author))
  }

  function SegmentCells(g: Segment): (r: seq<Cell>)
    ensures |r| <= |g.text| && (r == [] <==> g.text == [])
  {
    Tag(Chars(g.text), g.author)
  }

  /** The characters and authors a list of segments stands for. */
  function Cells(gs: seq<Segment>): seq<Cell> {
    if gs == [] then [] else SegmentCells(gs[0]) + Cells(gs[1..])
  }

  /** The segments follow one another from offset base on, hold text, and are as long as
      they can be: neighbours have different authors. */
  predicate Good(gs: seq<Segment>, base: nat) {
    gs == [] ||
    (&& gs[0].offset == base && gs[0].text != []
     && (|gs| > 1 ==> gs[0].author != gs[1].author)
     && Good(gs[1..], base + |SegmentCells(gs[0])|))
  }

  predicate Canonical(gs: seq<Segment>, length: nat) {
    Good(gs, 0) && length == |Cells(gs)|
  }

  /** Two lists of segments can stand side by side. */
  predicate Joint(a: seq<Segment>, b: seq<Segment>) {
    a != [] && b != [] ==> a[|a| - 1].author != b[0].author
  }

  lemma {:induction false} CellsAppend(a: seq<Segment>, b: seq<Segment>)
    ensures Cells(a + b) == Cells(a) + Cells(b)
  {
    hide SegmentCells;
    if a == [] {
      assert a + b == b;
    } else {
      assert (a + b)[1..] == a[1..] + b;
      CellsAppend(a[1..], b);
      Reassociate(SegmentCells(a[0]), Cells(a[1..]), Cells(b));
    }
  }

  lemma {:induction false} GoodAppend(a: seq<Segment>, b: seq<Segment>, base: nat)
    ensures Good(a + b, base) <==> Good(a, base) && Good(b, base + |Cells(a)|) && Joint(a, b)
  {
    hide SegmentCells;
    if a == [] {
      assert a + b == b;
    } else {
      FrontOf(a, b);
      GoodAppend(a[1..], b, base + |SegmentCells(a[0])|);
      JointRest(a, b);
    }
  }

  lemma FrontOf<T>(a: seq<T>, b: seq<T>)
    requires a != []
    ensures (a + b)[0] == a[0] && (a + b)[1..] == a[1..] + b
    ensures |a| > 1 ==> (a + b)[1] == a[1]
    ensures |a| == 1 && b != [] ==> (a + b)[1] == b[0]
  {
  }

  lemma JointRest(a: seq<Segment>, b: seq<Segment>)
    requires a != []
    ensures |a| > 1 ==> (Joint(a, b) <==> Joint(a[1..], b))
  {
  }

  /** Moving segments by d characters. */
  function ShiftOffsets(gs: seq<Segment>, d: int): seq<Segment> {
    seq(|gs|, i requires 0 <= i < |gs| => gs[i].(offset := gs[i].offset + d))
  }

  lemma {:induction false} ShiftKeeps(gs: seq<Segment>, base: nat, d: int)
    requires Good(gs, base) && 0 <= base + d
    ensures Good(ShiftOffsets(gs, d), base + d) && Cells(ShiftOffsets(gs, d)) == Cells(gs)
  {
    if gs != [] {
      var rest := gs[1..];
      assert forall i :: 0 <= i < |rest| ==> rest[i] == gs[i + 1];
      assert ShiftOffsets(gs, d)[1..] == ShiftOffsets(rest, d);
      ShiftKeeps(rest, base + |SegmentCells(gs[0])|, d);
    }
  }

  // ----- one segment -----

  lemma TagAppend(a: seq<Char>, b: seq<Char>, author: nat)
    ensures Tag(a + b, author) == Tag(a, author) + Tag(b, author)
  {
  }

  /** Text put together is characters put together. */
  lemma TextAppend(a: seq<Byte>, b: seq<Byte>, author: nat)
    requires WellFormed(a) && WellFormed(b)
    ensures WellFormed(a + b)
    ensures Tag(Chars(a + b), author) == Tag(Chars(a), author) + Tag(Chars(b), author)
  {
    CharsAppend(a, b);
    TagAppend(Chars(a), Chars(b), author);
  }

  lemma TagSlices(cs: seq<Char>, k: nat, author: nat)
    requires k <= |cs|
    ensures Tag(cs[..k], author) == Tag(cs, author)[..k] && Tag(cs[k..], author) == Tag(cs, author)[k..]
  {
  }

  /** Cutting a segment's text at the byte where a character starts. */
  lemma TextAt(g: Segment, k: nat)
    requires k <= |SegmentCells(g)|
    ensures var i := Index(g.text, k);
      && WellFormed(g.text[..i]) && WellFormed(g.text[i..])
      && Tag(Chars(g.text[..i]), g.author) == SegmentCells(g)[..k]
      && Tag(Chars(g.text[i..]), g.author) == SegmentCells(g)[k..]
  {
    hide Chars, WellFormed, Index, Tag;
    CharsAt(g.text, k);
    TagSlices(Chars(g.text), k, g.author);
  }

  // ----- canonical lists are unique -----

  /** A segment in front determines the run of cells of one author in front. */
  lemma RunAtFront(gs: seq<Segment>, base: nat)
    requires Good(gs, base) && gs != []
    ensures var cells, n := Cells(gs), |SegmentCells(gs[0])|;
      && Run(cells, n, gs[0].author) && cells[..n] == SegmentCells(gs[0]) && cells[n..] == Cells(gs[1..])
      && gs[0].offset == base && Good(gs[1..], base + n)
  {
    var g, rest := gs[0], gs[1..];
    AuthorOfCells(g);
    if rest != [] {
      AuthorOfCells(rest[0]);
      assert Cells(rest)[0] == SegmentCells(rest[0])[0];
    }
    hide SegmentCells;
    Parts(SegmentCells(g), Cells(rest));
  }

  lemma AuthorOfCells(g: Segment)
    ensures forall i :: 0 <= i < |SegmentCells(g)| ==> SegmentCells(g)[i].author == g.author
  {
  }

  /** The first n cells are by one author, and the next one is not. */
  predicate Run(cells: seq<Cell>, n: nat, author: nat) {
    && 0 < n <= |cells| && (forall i :: 0 <= i < n ==> cells[i].author == author)
    && (n < |cells| ==> cells[n].author != author)
  }

  lemma RunUnique(cells: seq<Cell>, m: nat, a: nat, n: nat, b: nat)
    requires Run(cells, m, a) && Run(cells, n, b)
    ensures m == n && a == b
  {
    assert cells[0].author == a == b;
  }

  /** The cells determine the segments. */
  lemma {:induction false} CanonicalUnique(a: seq<Segment>, b: seq<Segment>, base: nat)
    requires Good(a, base) && Good(b, base) && Cells(a) == Cells(b)
    ensures a == b
    decreases |a|
  {
    hide *;
    EmptyCells(a, base);
    EmptyCells(b, base);
    if a != [] && b != [] {
      var n := |SegmentCells(a[0])|;
      RunAtFront(a, base);
      RunAtFront(b, base);
      RunUnique(Cells(a), n, a[0].author, |SegmentCells(b[0])|, b[0].author);
      SegmentUnique(a[0], b[0]);
      CanonicalUnique(a[1..], b[1..], base + n);
      assert a == [a[0]] + a[1..] && b == [b[0]] + b[1..];
    }
  }

  lemma EmptyCells(a: seq<Segment>, base: nat)
    requires Good(a, base)
    ensures Cells(a) == [] <==> a == []
  {
  }

  lemma SegmentUnique(g: Segment, h: Segment)
    requires SegmentCells(g) == SegmentCells(h) && g.author == h.author && g.offset == h.offset
    ensures g == h
  {
    var a, b := Chars(g.text), Chars(h.text);
    assert |a| == |b|;
    forall i | 0 <= i < |a|
      ensures a[i] == b[i]
    {
      assert SegmentCells(g)[i] == Cell(a[i], g.author);
    }
    BytesOfChars(g.text);
    BytesOfChars(h.text);
    assert a == b;
  }

  // ----- taking a list apart and putting it together -----

  /** What stands before segment i, the segment, and what stands behind it. */
  lemma Around(gs: seq<Segment>, i: nat)
    requires Good(gs, 0) && i < |gs|
    ensures var a, g, b := gs[..i], gs[i], gs[i + 1..];
      && gs == a + [g] + b && Cells(gs) == Cells(a) + SegmentCells(g) + Cells(b)
      && Good(a, 0) && Good([g], |Cells(a)|) && Good(b, |Cells(a)| + |SegmentCells(g)|)
      && g.offset == |Cells(a)| && g.text != [] && Joint(a, [g]) && Joint([g], b)
  {
    hide SegmentCells, Good, Cells;
    var a, g, b := gs[..i], gs[i], gs[i + 1..];
    assert gs == a + [g] + b;
    OneSegment(g, |Cells(a)|);
    CellsAppend(a + [g], b);
    CellsAppend(a, [g]);
    GoodAppend(a + [g], b, 0);
    GoodAppend(a, [g], 0);
    assert Joint(a + [g], b) ==> Joint([g], b);
  }

  lemma OneSegment(g: Segment, base: nat)
    ensures Cells([g]) == SegmentCells(g)
    ensures Good([g], base) <==> g.offset == base && g.text != []
  {
    assert [g][1..] == [];
  }

  /** Behind the front a a new middle m comes in, and the rest b moves by d. */
  lemma Rebuild(a: seq<Segment>, m: seq<Segment>, b: seq<Segment>, base: nat, d: int)
    requires Good(a, 0) && Good(b, base) && base + d == |Cells(a)| + |Cells(m)|
    requires Joint(a, m) && Joint(a + m, b)
    ensures var gs := a + m + ShiftOffsets(b, d);
      && (Good(gs, 0) <==> Good(m, |Cells(a)|))
      && Cells(gs) == Cells(a) + Cells(m) + Cells(b)
  {
    hide *;
    ShiftKeeps(b, base, d);
    CellsAppend(a + m, ShiftOffsets(b, d));
    CellsAppend(a, m);
    GoodAppend(a, m, 0);
    ShiftJoint(a + m, b, d);
    GoodAppend(a + m, ShiftOffsets(b, d), 0);
  }

  lemma ShiftJoint(a: seq<Segment>, b: seq<Segment>, d: int)
    requires Joint(a, b)
    ensures Joint(a, ShiftOffsets(b, d))
  {
  }

  // ----- looking a position up -----

  /** How many segments start at pos or before: where a search by offset ends. */
  function Search(gs: seq<Segment>, pos: nat): (i: nat)
    ensures i <= |gs|
  {
    if gs == [] || gs[0].offset > pos then 0 else 1 + Search(gs[1..], pos)
  }

  /** The character position behind segment i. */
  function NextOffset(gs: seq<Segment>, length: nat, i: nat): int
    requires i < |gs|
  {
    if i + 1 < |gs| then gs[i + 1].offset else length
  }

  lemma {:induction false} SearchFinds(gs: seq<Segment>, base: nat, pos: nat)
    requires Good(gs, base) && gs != [] && base <= pos
    ensures var i := Search(gs, pos);
      && 0 < i && gs[i - 1].offset <= pos && (i < |gs| ==> pos < gs[i].offset)
  {
    hide SegmentCells;
    if |gs| > 1 && gs[1].offset <= pos {
      SearchFinds(gs[1..], base + |SegmentCells(gs[0])|, pos);
    }
  }

  lemma NextOffsetIs(gs: seq<Segment>, length: nat, i: nat)
    requires Canonical(gs, length) && i < |gs|
    ensures NextOffset(gs, length, i) == gs[i].offset + |SegmentCells(gs[i])| <= length
    ensures gs[i].offset < NextOffset(gs, length, i)
  {
    hide SegmentCells, Good, Cells;
    Around(gs, i);
    if i + 1 < |gs| {
      Around(gs, i + 1);
      assert gs[..i + 1] == gs[..i] + [gs[i]];
      CellsAppend(gs[..i], [gs[i]]);
      OneSegment(gs[i], gs[i].offset);
    } else {
      assert gs[i + 1..] == [];
      EmptyCells([], 0);
    }
    EmptySegment(gs[i]);
  }

  lemma EmptySegment(g: Segment)
    ensures SegmentCells(g) == [] <==> g.text == []
  {
  }

  // ----- inserting a text -----

  lemma SpliceInside<T>(a: seq<T>, l: seq<T>, x: seq<T>, r: seq<T>, b: seq<T>)
    ensures Splice(a + (l + r) + b, |a| + |l|, x) == a + (l + x + r) + b
  {
    var s := a + (l + r) + b;
    assert s[..|a| + |l|] == a + l && s[|a| + |l|..] == r + b;
  }

  /** A segment with another text put into it at character k. */
  function Widened(g: Segment, k: nat, text: seq<Byte>): Segment
    requires k <= |SegmentCells(g)| && WellFormed(text)
  {
    WidenedText(g, k, text);
    Segment(g.author, g.text[..Index(g.text, k)] + text + g.text[Index(g.text, k)..], g.offset)
  }

  lemma CellsOf(g: Segment)
    ensures SegmentCells(g) == Tag(Chars(g.text), g.author) && |SegmentCells(g)| == |Chars(g.text)|
  {
  }

  lemma WidenedText(g: Segment, k: nat, text: seq<Byte>)
    requires k <= |SegmentCells(g)| && WellFormed(text)
    ensures WellFormed(g.text[..Index(g.text, k)] + text + g.text[Index(g.text, k)..])
    ensures Tag(Chars(g.text[..Index(g.text, k)] + text + g.text[Index(g.text, k)..]), g.author)
         == SegmentCells(g)[..k] + Tag(Chars(text), g.author) + SegmentCells(g)[k..]
  {
    CellsOf(g);
    hide *;
    TextAt(g, k);
    ThreeTexts(g.text[..Index(g.text, k)], text, g.text[Index(g.text, k)..], g.author);
  }

  lemma WidenedCells(g: Segment, k: nat, text: seq<Byte>)
    requires k <= |SegmentCells(g)| && WellFormed(text)
    ensures SegmentCells(Widened(g, k, text))
         == SegmentCells(g)[..k] + Tag(Chars(text), g.author) + SegmentCells(g)[k..]
  {
    hide Chars, Index, Tag, WellFormed;
    WidenedText(g, k, text);
  }

  lemma ThreeTexts(a: seq<Byte>, b: seq<Byte>, c: seq<Byte>, author: nat)
    requires WellFormed(a) && WellFormed(b) && WellFormed(c)
    ensures WellFormed(a + b + c)
    ensures Tag(Chars(a + b + c), author) == Tag(Chars(a), author) + Tag(Chars(b), author) + Tag(Chars(c), author)
  {
    hide *;
    TextAppend(a, b, author);
    TextAppend(a + b, c, author);
  }

  /** A text in the middle of the text of segment i, by the same author. */
  lemma InsertInside(gs: seq<Segment>, i: nat, k: nat, text: seq<Byte>)
    requires Good(gs, 0) && i < |gs| && k <= |SegmentCells(gs[i])| && WellFormed(text)
    ensures var g, x := gs[i], Tag(Chars(text), gs[i].author);
      var gs' := gs[..i] + [Widened(g, k, text)] + ShiftOffsets(gs[i + 1..], |Chars(text)|);
      && g.offset == |Cells(gs[..i])| && g.offset + k <= |Cells(gs)|
      && Good(gs', 0) && Cells(gs') == Splice(Cells(gs), g.offset + k, x)
  {
    hide *;
    var a, g, b, n := gs[..i], gs[i], gs[i + 1..], |Chars(text)|;
    var h := Widened(g, k, text);
    Around(gs, i);
    WidenedCells(g, k, text);
    WidenedKeeps(g, k, text);
    TagLength(Chars(text), g.author);
    OneSegment(h, |Cells(a)|);
    JointSame(a, g, h, b);
    Rebuild(a, [h], b, |Cells(a)| + |SegmentCells(g)|, n);
    SpliceSegment(Cells(a), SegmentCells(g), k, Tag(Chars(text), g.author), Cells(b));
  }

  lemma WidenedKeeps(g: Segment, k: nat, text: seq<Byte>)
    requires k <= |SegmentCells(g)| && WellFormed(text)
    ensures var h := Widened(g, k, text);
      h.author == g.author && h.offset == g.offset && (h.text == [] <==> g.text == [] && text == [])
  {
    hide Chars, WellFormed;
  }

  lemma TagLength(cs: seq<Char>, author: nat)
    ensures |Tag(cs, author)| == |cs|
  {
  }

  lemma JointSame(a: seq<Segment>, g: Segment, h: Segment, b: seq<Segment>)
    requires g.author == h.author && Joint(a, [g]) && Joint([g], b)
    ensures Joint(a, [h]) && Joint(a + [h], b)
  {
  }

  lemma SpliceSegment<T>(a: seq<T>, g: seq<T>, k: nat, x: seq<T>, b: seq<T>)
    requires k <= |g|
    ensures Splice(a + g + b, |a| + k, x) == a + (g[..k] + x + g[k..]) + b
  {
    assert g == g[..k] + g[k..];
    SpliceInside(a, g[..k], x, g[k..], b);
  }

  /** gs before and from segment i on. */
  lemma Before(gs: seq<Segment>, i: nat)
    requires Good(gs, 0) && i <= |gs|
    ensures var a, b := gs[..i], gs[i..];
      gs == a + b && Cells(gs) == Cells(a) + Cells(b) && Good(a, 0) && Good(b, |Cells(a)|) && Joint(a, b)
  {
    hide *;
    assert gs == gs[..i] + gs[i..];
    CellsAppend(gs[..i], gs[i..]);
    GoodAppend(gs[..i], gs[i..], 0);
  }

  /** A text between two segments of other authors. */
  lemma InsertBetween(gs: seq<Segment>, i: nat, o: nat, text: seq<Byte>, author: nat)
    requires Good(gs, 0) && i <= |gs| && o == |Cells(gs[..i])| && WellFormed(text)
    requires (i > 0 ==> gs[i - 1].author != author) && (i < |gs| ==> gs[i].author != author)
    ensures var new_: Segment := Segment(author, text, o);
      var gs' := gs[..i] + [new_] + ShiftOffsets(gs[i..], |Chars(text)|);
      && o <= |Cells(gs)| && Cells(gs') == Splice(Cells(gs), o, Tag(Chars(text), author))
      && (Good(gs', 0) <==> text != [])
  {
    hide Good, Cells, Chars, Tag, WellFormed, ShiftOffsets;
    var a, b, new_: Segment, n := gs[..i], gs[i..], Segment(author, text, o), |Chars(text)|;
    Before(gs, i);
    TagLength(Chars(text), author);
    OneSegment(new_, o);
    Rebuild(a, [new_], b, o, n);
    SpliceBetween(Cells(a), Tag(Chars(text), author), Cells(b));
  }

  lemma SpliceBetween<T>(a: seq<T>, x: seq<T>, b: seq<T>)
    ensures Splice(a + b, |a|, x) == a + x + b
  {
    Parts(a, b);
  }

  /** The two parts of segment g, cut at character k. */
  function Front(g: Segment, k: nat): Segment
    requires k <= |SegmentCells(g)|
  {
    TextAt(g, k);
    Segment(g.author, g.text[..Index(g.text, k)], g.offset)
  }

  function Rear(g: Segment, k: nat): Segment
    requires k <= |SegmentCells(g)|
  {
    TextAt(g, k);
    Segment(g.author, g.text[Index(g.text, k)..], g.offset + k)
  }

  lemma FrontAndRear(g: Segment, k: nat)
    requires k <= |SegmentCells(g)|
    ensures SegmentCells(Front(g, k)) == SegmentCells(g)[..k] && SegmentCells(Rear(g, k)) == SegmentCells(g)[k..]
    ensures Front(g, k).text == [] <==> k == 0
    ensures Rear(g, k).text == [] <==> k == |SegmentCells(g)|
  {
    hide Chars, Index, WellFormed;
    TextAt(g, k);
    EmptySegment(Front(g, k));
    EmptySegment(Rear(g, k));
  }

  /** A text by another author in the middle of segment i. */
  lemma InsertSplit(gs: seq<Segment>, i: nat, k: nat, text: seq<Byte>, author: nat)
    requires Good(gs, 0) && i < |gs| && 0 < k < |SegmentCells(gs[i])| && gs[i].author != author && WellFormed(text)
    ensures var g := gs[i]; g.offset == |Cells(gs[..i])|
    ensures var g := gs[i];
      var new_: Segment := Segment(author, text, g.offset + k);
      var gs' := gs[..i] + [Front(g, k), new_] + ShiftOffsets([Rear(g, k)] + gs[i + 1..], |Chars(text)|);
      && g.offset + k <= |Cells(gs)| && Cells(gs') == Splice(Cells(gs), g.offset + k, Tag(Chars(text), author))
      && (Good(gs', 0) <==> text != [])
  {
    hide Good, Cells, Chars, Tag, WellFormed, ShiftOffsets, Front, Rear, SegmentCells;
    var a, g, b, x := gs[..i], gs[i], gs[i + 1..], Tag(Chars(text), author);
    var o := |Cells(a)| + k;
    var new_: Segment := Segment(author, text, o);
    Around(gs, i);
    FrontAndRear(g, k);
    FrontRearFields(g, k);
    TagLength(Chars(text), author);
    CellsOf(new_);
    TwoSegments(Front(g, k), new_, |Cells(a)|);
    RearGood(Rear(g, k), b, o);
    Rebuild(a, [Front(g, k), new_], [Rear(g, k)] + b, o, |Chars(text)|);
    SpliceParts(Cells(a), SegmentCells(g), k, x, Cells(b));
  }

  lemma FrontRearFields(g: Segment, k: nat)
    requires k <= |SegmentCells(g)|
    ensures Front(g, k).author == g.author == Rear(g, k).author
    ensures Front(g, k).offset == g.offset && Rear(g, k).offset == g.offset + k
  {
  }

  lemma TwoSegments(g: Segment, h: Segment, base: nat)
    ensures Cells([g, h]) == SegmentCells(g) + SegmentCells(h)
    ensures g.text != [] && g.offset == base && g.author != h.author && h.offset == base + |SegmentCells(g)|
      ==> (Good([g, h], base) <==> h.text != [])
  {
    hide *;
    assert [g, h] == [g] + [h];
    CellsAppend([g], [h]);
    OneSegment(g, base);
    OneSegment(h, base + |SegmentCells(g)|);
    GoodAppend([g], [h], base);
    JointTwo(g, h);
  }

  lemma JointTwo(g: Segment, h: Segment)
    ensures Joint([g], [h]) <==> g.author != h.author
  {
  }

  lemma RearGood(g: Segment, b: seq<Segment>, base: nat)
    requires g.text != [] && g.offset == base && Good(b, base + |SegmentCells(g)|) && Joint([g], b)
    ensures Good([g] + b, base) && Cells([g] + b) == SegmentCells(g) + Cells(b)
  {
    hide *;
    OneSegment(g, base);
    GoodAppend([g], b, base);
    CellsAppend([g], b);
  }

  lemma SpliceParts<T>(a: seq<T>, g: seq<T>, k: nat, x: seq<T>, b: seq<T>)
    requires k <= |g|
    ensures Splice(a + g + b, |a| + k, x) == a + (g[..k] + x) + (g[k..] + b)
  {
    SpliceSegment(a, g, k, x, b);
    RegroupParts(a, g[..k], x, g[k..], b);
  }

  lemma RegroupParts<T>(a: seq<T>, l: seq<T>, x: seq<T>, r: seq<T>, b: seq<T>)
    ensures a + (l + x + r) + b == a + (l + x) + (r + b)
  {
  }

  /** Offsets grow. */
  lemma {:induction false} OffsetsGrow(gs: seq<Segment>, length: nat, i: nat, j: nat)
    requires Canonical(gs, length) && i < j < |gs|
    ensures NextOffset(gs, length, i) <= gs[j].offset < NextOffset(gs, length, j)
    decreases j - i
  {
    NextOffsetIs(gs, length, j);
    if i + 1 < j {
      OffsetsGrow(gs, length, i + 1, j);
      NextOffsetIs(gs, length, i + 1);
    }
  }
}
