/** The insert and delete operations that carry the text they insert or delete, as objects
    that hold a chunk of their own. */
module DefaultOperations {
  import opened Masks
  import opened Text
  import opened Utf8
  import opened Segments
  import opened Equality
  import opened Chunks
  import opened Buffers
  import O = Operations
  import Effects
  import opened Joints

  class DefaultInsertOperation {
    const position: nat
    const chunk: Chunk

    predicate Valid()
      reads chunk
    {
      chunk.Valid()
    }

    function Value(): O.Operation
      reads chunk
    {
      O.Insert(position, chunk.Contents())
    }

    constructor (position: nat, text: Chunk)
      requires text.Valid()
      ensures Valid() && fresh(chunk) && Value() == O.Insert(position, text.Contents())
    {
      var copy := text.Copy();
      this.position := position;
      this.chunk := copy;
    }

    method TransformPosition(position: nat) returns (result: DefaultInsertOperation)
      requires Valid()
      ensures fresh(result) && fresh(result.chunk) && result.Valid()
      ensures result.Value() == O.Insert(position, Value().chunk)
    {
      result := new DefaultInsertOperation(position, chunk);
    }

    method Apply(buffer: DefaultBuffer)
      requires Valid() && buffer.Valid() && chunk != buffer.chunk && Effects.Applicable(Value(), |buffer.Contents()|)
      modifies buffer`modified, buffer.chunk
      ensures buffer.Valid() && buffer.modified
      ensures Done(buffer.Contents()) == Effects.Apply(Value(), old(buffer.Contents()))
    {
      buffer.InsertChunk(position, chunk);
    }

    method Revert() returns (result: DefaultDeleteOperation)
      requires Valid()
      ensures fresh(result) && fresh(result.chunk) && result.Valid()
      ensures O.Delete(result.Value()) == O.Revert(Value())
    {
      result := new DefaultDeleteOperation(position, chunk);
    }
  }

  class DefaultDeleteOperation {
    const position: nat
    const chunk: Chunk

    predicate Valid()
      reads chunk
    {
      chunk.Valid()
    }

    function Value(): O.Deletion
      reads chunk
    {
      O.DefaultDelete(position, chunk.Contents())
    }

    constructor (position: nat, text: Chunk)
      requires text.Valid()
      ensures Valid() && fresh(chunk) && Value() == O.DefaultDelete(position, text.Contents())
    {
      var copy := text.Copy();
      this.position := position;
      this.chunk := copy;
    }

    method TransformPosition(position: nat) returns (result: DefaultDeleteOperation)
      requires Valid()
      ensures fresh(result) && fresh(result.chunk) && result.Valid()
      ensures result.Value() == O.TransformPosition(Value(), position)
    {
      result := new DefaultDeleteOperation(position, chunk);
    }

    /** The other deletion is not looked at: this one knows the text that goes. */
    method TransformOverlap(ghost other: O.Deletion, position: nat, begin: nat, ghost otherBegin: nat, length: nat)
      returns (result: DefaultDeleteOperation)
      requires Valid() && !other.SplitDelete?
      requires begin + length <= chunk.length && otherBegin + length <= O.Length(other)
      ensures fresh(result) && fresh(result.chunk) && result.Valid()
      ensures Done(result.Value()) == O.TransformOverlap(Value(), other, position, begin, otherBegin, length)
    {
      var rest := chunk.Copy();
      rest.Erase(begin, length);
      result := new DefaultDeleteOperation(position, rest);
    }

    method TransformSplit(splitPos: nat, splitLen: nat)
      returns (first: DefaultDeleteOperation, second: DefaultDeleteOperation)
      requires Valid() && splitPos <= chunk.length
      ensures fresh(first) && fresh(first.chunk) && first.Valid()
      ensures fresh(second) && fresh(second.chunk) && second.Valid()
      ensures Done(O.SplitDelete(first.Value(), second.Value())) == O.TransformSplit(Value(), splitPos, splitLen)
    {
      hide Good, Cells;
      var firstChunk := chunk.Substring(0, splitPos);
      var secondChunk := chunk.Substring(splitPos, chunk.length - splitPos);
      WholeSlices(chunk.Contents(), splitPos);
      first := new DefaultDeleteOperation(position, firstChunk);
      second := new DefaultDeleteOperation(position + splitPos + splitLen, secondChunk);
    }

    /** Whether the buffer holds the text that this operation deletes; the authors are not looked at. */
    method TextMatch(buffer: DefaultBuffer) returns (matches: bool)
      requires Valid() && buffer.Valid() && position + chunk.length <= buffer.chunk.length
      ensures matches <==> Letters(chunk.Contents()) == Letters(buffer.Contents()[position..position + chunk.length])
    {
      var slice := buffer.GetSlice(position, chunk.length);
      var first := chunk.GetText();
      var second := slice.GetText();
      TextsByBytes(chunk.segments, slice.segments);
      if first.Length == second.Length {
        matches := first[..] == second[..];
      } else {
        matches := false;
      }
    }

    method Apply(buffer: DefaultBuffer) returns (erased: Chunk)
      requires Valid() && buffer.Valid() && chunk != buffer.chunk && Effects.Fits(Value(), |buffer.Contents()|)
      modifies buffer`modified, buffer.chunk
      ensures buffer.Valid() && buffer.modified
      ensures Done(buffer.Contents()) == Effects.ApplyDeletion(Value(), old(buffer.Contents()))
      ensures fresh(erased) && erased.Valid()
      ensures erased.Contents() == old(buffer.Contents())[position..position + |chunk.Contents()|]
    {
      hide Good, Cells, Cut;
      erased := buffer.EraseText(position, chunk.length);
    }

    method Revert() returns (result: DefaultInsertOperation)
      requires Valid()
      ensures fresh(result) && fresh(result.chunk) && result.Valid()
      ensures result.Value() == O.Revert(O.Delete(Value()))
    {
      result := new DefaultInsertOperation(position, chunk);
    }
  }

  /** Two chunks have the same bytes exactly if they have the same characters. */
  lemma TextsByBytes(a: seq<Segment>, b: seq<Segment>)
    ensures TextOf(a) == TextOf(b) <==> Letters(Cells(a)) == Letters(Cells(b))
  {
    hide *;
    TextOfIsEncoding(a);
    TextOfIsEncoding(b);
    BytesOfChars(TextOf(a));
    BytesOfChars(TextOf(b));
  }

  // ----- applying an operation and undoing it -----

  lemma CutSpliced<T>(s: seq<T>, p: nat, x: seq<T>)
    requires p <= |s|
    ensures Cut(Splice(s, p, x), p, |x|) == s
  {
  }

  /** Putting something back restores a document exactly if it is what was taken out. */
  lemma SpliceCut<T>(s: seq<T>, p: nat, x: seq<T>)
    requires p + |x| <= |s|
    ensures Splice(Cut(s, p, |x|), p, x) == s <==> s[p..p + |x|] == x
  {
    var t := Cut(s, p, |x|);
    assert t[..p] == s[..p] && t[p..] == s[p + |x|..];
    assert s == s[..p] + s[p..p + |x|] + s[p + |x|..];
    assert Splice(t, p, x)[p..p + |x|] == x;
  }

  /** An insertion and the operation that reverts it leave every segment of the buffer as it was. */
  method InsertAndRevert(op: DefaultInsertOperation, buffer: DefaultBuffer)
    requires op.Valid() && buffer.Valid() && op.chunk != buffer.chunk && op.position <= buffer.chunk.length
    modifies buffer`modified, buffer.chunk
    ensures buffer.Valid()
    ensures buffer.chunk.segments == old(buffer.chunk.segments) && buffer.chunk.length == old(buffer.chunk.length)
  {
    hide Good, Cells, Splice, Cut;
    ghost var s := buffer.Contents();
    var inverse := op.Revert();
    op.Apply(buffer);
    CutSpliced(s, op.position, op.chunk.Contents());
    var erased := inverse.Apply(buffer);
    CanonicalUnique(buffer.chunk.segments, old(buffer.chunk.segments), 0);
  }

  /** A deletion and the operation that reverts it leave every segment as it was exactly if the
      deletion carries the characters and the authors that the buffer holds there. */
  method DeleteAndRevert(op: DefaultDeleteOperation, buffer: DefaultBuffer)
    requires op.Valid() && buffer.Valid() && op.chunk != buffer.chunk
    requires op.position + op.chunk.length <= buffer.chunk.length
    modifies buffer`modified, buffer.chunk
    ensures buffer.Valid() && buffer.chunk.length == old(buffer.chunk.length)
    ensures buffer.chunk.segments == old(buffer.chunk.segments)
       <==> op.chunk.Contents() == old(buffer.Contents())[op.position..op.position + op.chunk.length]
  {
    hide Good, Cells, Splice, Cut;
    ghost var s := buffer.Contents();
    var inverse := op.Revert();
    SpliceCut(s, op.position, op.chunk.Contents());
    var erased := op.Apply(buffer);
    inverse.Apply(buffer);
    if buffer.Contents() == s {
      CanonicalUnique(buffer.chunk.segments, old(buffer.chunk.segments), 0);
    }
  }

  /** Reverting is its own inverse, for insertions ... */
  method RevertTwice(op: DefaultInsertOperation) returns (result: DefaultInsertOperation)
    requires op.Valid()
    ensures result.Valid() && result.position == op.position && result.chunk.segments == op.chunk.segments
  {
    var inverse := op.Revert();
    result := inverse.Revert();
    CanonicalUnique(result.chunk.segments, op.chunk.segments, 0);
  }

  /** ... and for deletions. */
  method RevertDeletionTwice(op: DefaultDeleteOperation) returns (result: DefaultDeleteOperation)
    requires op.Valid()
    ensures result.Valid() && result.position == op.position && result.chunk.segments == op.chunk.segments
  {
    var inverse := op.Revert();
    result := inverse.Revert();
    CanonicalUnique(result.chunk.segments, op.chunk.segments, 0);
  }

  /** A deletion that names the right characters by another author passes for a match, and
      undoing it does not bring the document back. */
  lemma MatchIgnoresAuthors() returns (s: seq<Cell>, op: O.Deletion)
    ensures op.DefaultDelete? && Effects.Fits(op, |s|) && Effects.ApplyDeletion(op, s).Done?
    ensures Letters(op.chunk) == Letters(s[op.position..op.position + |op.chunk|])
    ensures var t, undo := Effects.ApplyDeletion(op, s).value, O.Revert(O.Delete(op));
      Effects.Applicable(undo, |t|) && Effects.Apply(undo, t).Done? && Effects.Apply(undo, t) != Done(s)
  {
    var c: Char := [0x61];
    s, op := [Cell(c, 1)], O.DefaultDelete(0, [Cell(c, 2)]);
    assert s[0..1] == s && Letters(s) == Letters(op.chunk);
    assert Cut(s, 0, 1) == [] && Splice([], 0, op.chunk) == op.chunk != s;
  }
}
