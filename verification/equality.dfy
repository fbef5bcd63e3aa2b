/** What the comparison of two chunks finds out. */
module Equality {
  import opened Text
  import opened Utf8
  import opened Segments

  /** The text of a list of segments, without authors. */
  function TextOf(gs: seq<Segment>): seq<Byte> {
    if gs == [] then [] else gs[0].text + TextOf(gs[1..])
  }

  /** The characters, without authors. */
  function Letters(cells: seq<Cell>): (cs: seq<Char>)
    ensures |cs| == |cells|
  {
    seq(|cells|, i requires 0 <= i < |cells| => cells[i].ch)
  }

  lemma NoSegments()
    ensures forall gs: seq<Segment> :: TextOf(gs[..0]) == []
  {
  }

  lemma {:induction false} TextOfAppend(a: seq<Segment>, b: seq<Segment>)
    ensures TextOf(a + b) == TextOf(a) + TextOf(b)
  {
    if a == [] {
      assert a + b == b;
    } else {
      assert (a + b)[1..] == a[1..] + b;
      TextOfAppend(a[1..], b);
      Reassociate(a[0].text, TextOf(a[1..]), TextOf(b));
    }
  }

  lemma TextOfNext(gs: seq<Segment>, i: nat)
    requires i < |gs|
    ensures TextOf(gs[..i + 1]) == TextOf(gs[..i]) + gs[i].text
  {
    assert gs[..i + 1] == gs[..i] + [gs[i]];
    TextOfAppend(gs[..i], [gs[i]]);
    assert [gs[i]][1..] == [];
  }

  lemma TextOfPrefix(gs: seq<Segment>, i: nat)
    requires i <= |gs|
    ensures |TextOf(gs[..i])| <= |TextOf(gs)|
  {
    assert gs == gs[..i] + gs[i..];
    TextOfAppend(gs[..i], gs[i..]);
  }

  /** The bytes of the text are the encoding of the characters, whoever wrote them. */
  lemma {:induction false} TextOfIsEncoding(gs: seq<Segment>)
    ensures WellFormed(TextOf(gs)) && Chars(TextOf(gs)) == Letters(Cells(gs))
  {
    hide Chars, WellFormed;
    if gs == [] {
      NoText();
    } else {
      TextOfIsEncoding(gs[1..]);
      CharsAppend(gs[0].text, TextOf(gs[1..]));
      LettersOfTag(Chars(gs[0].text), gs[0].author);
      LettersAppend(SegmentCells(gs[0]), Cells(gs[1..]));
    }
  }

  lemma NoText()
    ensures WellFormed([]) && Chars([]) == [] == Letters([])
  {
  }

  lemma LettersOfTag(cs: seq<Char>, author: nat)
    ensures Letters(Tag(cs, author)) == cs
  {
  }

  lemma LettersAppend(x: seq<Cell>, y: seq<Cell>)
    ensures Letters(x + y) == Letters(x) + Letters(y)
  {
  }

  /** The same texts in the same segments. */
  predicate SameTexts(a: seq<Segment>, b: seq<Segment>) {
    |a| == |b| && forall i :: 0 <= i < |a| ==> a[i].text == b[i].text
  }

  /** The same characters, with the author changing at the same places. */
  predicate SameChanges(x: seq<Cell>, y: seq<Cell>) {
    && |x| == |y| && (forall i :: 0 <= i < |x| ==> x[i].ch == y[i].ch)
    && forall i :: 0 < i < |x| ==> (x[i - 1].author != x[i].author <==> y[i - 1].author != y[i].author)
  }

  lemma RunsEndTogether(x: seq<Cell>, m: nat, a: nat, y: seq<Cell>, n: nat, b: nat)
    requires Run(x, m, a) && Run(y, n, b) && SameChanges(x, y)
    ensures m == n && Letters(x[..m]) == Letters(y[..n]) && SameChanges(x[m..], y[n..])
  {
    if m < |x| {
      assert x[m - 1].author != x[m].author;
    }
    if n < |y| {
      assert y[n - 1].author != y[n].author;
    }
  }

  lemma ChangesBehindRuns(x: seq<Cell>, m: nat, a: nat, y: seq<Cell>, b: nat)
    requires Run(x, m, a) && Run(y, m, b)
    requires Letters(x[..m]) == Letters(y[..m]) && SameChanges(x[m..], y[m..])
    ensures SameChanges(x, y)
  {
    forall i | 0 <= i < |x|
      ensures x[i].ch == y[i].ch
    {
      assert i < m ==> x[i].ch == Letters(x[..m])[i] && y[i].ch == Letters(y[..m])[i];
      assert i >= m ==> x[i] == x[m..][i - m] && y[i] == y[m..][i - m];
    }
    forall i | 0 < i < |x|
      ensures x[i - 1].author != x[i].author <==> y[i - 1].author != y[i].author
    {
      assert i > m ==> x[i] == x[m..][i - m] && y[i] == y[m..][i - m]
                       && x[i - 1] == x[m..][i - m - 1] && y[i - 1] == y[m..][i - m - 1];
    }
  }

  lemma NoChangesBehindRuns(x: seq<Cell>, m: nat, a: nat, y: seq<Cell>, b: nat)
    requires Run(x, m, a) && Run(y, m, b)
    ensures Letters(x[..m]) == Letters(y[..m]) && SameChanges(x[m..], y[m..]) ==> SameChanges(x, y)
  {
    if Letters(x[..m]) == Letters(y[..m]) && SameChanges(x[m..], y[m..]) {
      ChangesBehindRuns(x, m, a, y, b);
    }
  }

  lemma TextsByLetters(g: Segment, h: Segment)
    ensures g.text == h.text <==> Letters(SegmentCells(g)) == Letters(SegmentCells(h))
  {
    hide Chars, WellFormed;
    LettersOfTag(Chars(g.text), g.author);
    LettersOfTag(Chars(h.text), h.author);
    BytesOfChars(g.text);
    BytesOfChars(h.text);
  }

  lemma SameTextsFirst(a: seq<Segment>, b: seq<Segment>)
    requires a != [] && b != []
    ensures SameTexts(a, b) <==> a[0].text == b[0].text && SameTexts(a[1..], b[1..])
  {
    if a[0].text == b[0].text && SameTexts(a[1..], b[1..]) {
      forall i | 0 <= i < |a|
        ensures a[i].text == b[i].text
      {
        assert i > 0 ==> a[i] == a[1..][i - 1] && b[i] == b[1..][i - 1];
      }
    }
  }

  lemma SameNothing(a: seq<Segment>, b: seq<Segment>)
    ensures a == [] ==> (SameTexts(a, b) <==> b == [])
    ensures b == [] ==> (SameTexts(a, b) <==> a == [])
    ensures forall x, y :: x == [] ==> (SameChanges(x, y) <==> y == [])
    ensures forall x, y :: y == [] ==> (SameChanges(x, y) <==> x == [])
  {
  }

  lemma LettersCount(x: seq<Cell>, y: seq<Cell>)
    requires Letters(x) == Letters(y)
    ensures |x| == |y|
  {
  }

  /** The comparison finds two chunks equal exactly if they hold the same characters and the
      author changes at the same places in both. */
  lemma {:induction false} SameTextsMeansSameChanges(a: seq<Segment>, b: seq<Segment>, c: nat, d: nat)
    requires Good(a, c) && Good(b, d)
    ensures SameTexts(a, b) <==> SameChanges(Cells(a), Cells(b))
    decreases |a|
  {
    hide *;
    EmptyCells(a, c);
    EmptyCells(b, d);
    if a == [] || b == [] {
      SameNothing(a, b);
    } else {
      RunAtFront(a, c);
      RunAtFront(b, d);
      var m, n := |SegmentCells(a[0])|, |SegmentCells(b[0])|;
      SameTextsMeansSameChanges(a[1..], b[1..], c + m, d + n);
      TextsByLetters(a[0], b[0]);
      SameTextsFirst(a, b);
      if SameChanges(Cells(a), Cells(b)) {
        RunsEndTogether(Cells(a), m, a[0].author, Cells(b), n, b[0].author);
      } else if Letters(SegmentCells(a[0])) == Letters(SegmentCells(b[0])) {
        LettersCount(SegmentCells(a[0]), SegmentCells(b[0]));
        NoChangesBehindRuns(Cells(a), m, a[0].author, Cells(b), b[0].author);
      }
    }
  }

  /** Chunks with the same characters and authors are found equal. */
  lemma EqualContentsAreFoundEqual(a: seq<Segment>, b: seq<Segment>)
    requires Good(a, 0) && Good(b, 0) && Cells(a) == Cells(b)
    ensures a == b && SameTexts(a, b)
  {
    CanonicalUnique(a, b, 0);
  }

  /** The same characters by another author are found equal, too. */
  lemma AuthorsAreNotCompared() returns (a: seq<Segment>, b: seq<Segment>)
    ensures Good(a, 0) && Good(b, 0) && SameTexts(a, b) && Cells(a) != Cells(b)
  {
    var x: seq<Byte> := [0x61];
    assert x[..1] == x && x[1..] == [];
    a, b := [Segment(1, x, 0)], [Segment(2, x, 0)];
    OneSegment(a[0], 0);
    OneSegment(b[0], 0);
    assert Cells(a)[0].author == 1 && Cells(b)[0].author == 2;
  }
}
