/** The text buffer. */
module Buffers {
  import opened Masks
  import opened Text
  import opened Utf8
  import opened Segments
  import opened Chunks
  import Edits

  class DefaultBuffer {
    const chunk: Chunk
    var modified: bool

    predicate Valid()
      reads this, chunk
    {
      chunk.Valid()
    }

    function Contents(): seq<Cell>
      reads this, chunk
    {
      chunk.Contents()
    }

    constructor ()
      ensures Valid() && chunk.segments == [] && chunk.length == 0 && !modified && fresh(chunk)
    {
      chunk := new Chunk();
      modified := false;
    }

    method GetSlice(pos: nat, len: nat) returns (slice: Chunk)
      requires Valid() && pos + len <= chunk.length
      ensures fresh(slice) && slice.Valid() && slice.length == len
      ensures slice.Contents() == Contents()[pos..pos + len]
    {
      slice := chunk.Substring(pos, len);
    }

    method InsertChunk(pos: nat, text: Chunk)
      requires Valid() && text != chunk && pos <= chunk.length
      requires text.Valid() || (text.length == 0 && text.Contents() == [])
      modifies this`modified, chunk
      ensures modified && chunk.length == old(chunk.length) + text.length == |Contents()|
      ensures Contents() == Splice(old(Contents()), pos, text.Contents())
      ensures Valid() <==> text.Valid()
    {
      chunk.InsertChunk(pos, text);
      if !modified {
        modified := true;
      }
    }

    /** Inserts a text of len characters that a user wrote; 0 stands for no user. */
    method InsertText(pos: nat, text: seq<Byte>, len: nat, user: nat)
      requires Valid() && WellFormed(text) && len == |Chars(text)| && pos <= chunk.length
      modifies this`modified, chunk
      ensures modified && chunk.length == |Contents()|
      ensures Contents() == Splice(old(Contents()), pos, Tag(Chars(text), user))
      ensures Valid() <==> text != []
    {
      hide Good, Cells, Chars, WellFormed;
      var inserted := new Chunk();
      NoCells();
      inserted.InsertText(0, text, len, user);
      OfLength(Chars(text), user);
      InsertChunk(pos, inserted);
    }

    /** Erases a range; erased is what the listeners are told to have gone. */
    method EraseText(pos: nat, len: nat) returns (erased: Chunk)
      requires Valid() && pos + len <= chunk.length
      modifies this`modified, chunk
      ensures Valid() && modified && chunk.length == old(chunk.length) - len
      ensures Contents() == Cut(old(Contents()), pos, len)
      ensures fresh(erased) && erased.Valid() && erased.Contents() == old(Contents())[pos..pos + len]
    {
      erased := chunk.Substring(pos, len);
      chunk.Erase(pos, len);
      if !modified {
        modified := true;
      }
    }
  }

  lemma NoCells()
    ensures Cells([]) == [] && forall x: seq<Cell> :: Splice([], 0, x) == x
    ensures forall author :: !Edits.AuthorAt([], 0, 0, author)
  {
  }

  lemma OfLength(cs: seq<Char>, author: nat)
    ensures |Tag(cs, author)| == |cs|
  {
  }
}
