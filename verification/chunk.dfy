/** A chunk of text: a rope of segments, changed in place. */
module Chunks {
  import opened Text
  import opened Masks
  import opened Utf8
  import opened Encoding
  import opened Segments
  import opened Joints
  import opened Edits
  import opened Equality
  class Chunk {
    var segments: seq<Segment>
    var length: nat

    predicate Valid()
      reads this
    {
      Canonical(segments, length)
    }

    /** The characters and authors the chunk holds. */
    function Contents(): seq<Cell>
      reads this
    {
      Cells(segments)
    }

    constructor ()
      ensures Valid() && segments == [] && length == 0
    {
      segments := [];
      length := 0;
    }

    /** The check of the offsets that can be compiled in; it finds no fault with a canonical chunk. */
    method CheckIntegrity() returns (ok: bool)
      ensures ok <==> Contiguous(segments, length)
      ensures Valid() ==> ok
    {
      hide Good, Cells;
      if Canonical(segments, length) {
        CanonicalIsContiguous(segments, length);
      }
      var offset, iter := 0, 0;
      while iter < |segments|
        invariant iter <= |segments| && offset == if iter == 0 then 0 else NextOffset(segments, length, iter - 1)
        invariant forall i :: 0 <= i < iter ==> ContiguousAt(segments, length, i)
      {
        var segment := segments[iter];
        if offset != segment.offset {
          assert !ContiguousAt(segments, length, iter);
          return false;
        }
        var newOffset := NextOffset(segments, length, iter);
        if newOffset <= offset {
          assert !ContiguousAt(segments, length, iter);
          return false;
        }
        if newOffset - offset > |segment.text| {
          assert !ContiguousAt(segments, length, iter);
          return false;
        }
        offset := newOffset;
        iter := iter + 1;
      }
      ok := true;
    }

    method Copy() returns (chunk: Chunk)
      ensures fresh(chunk) && chunk.segments == segments && chunk.length == length
    {
      chunk := new Chunk();
      var iter := 0;
      while iter < |segments|
        invariant iter <= |segments| && chunk.segments == segments[..iter]
        invariant fresh(chunk)
      {
        chunk.segments := chunk.segments + [segments[iter]];
        iter := iter + 1;
      }
      chunk.length := length;
    }

    /** The segment that holds position pos, and the byte at which it starts in it.  At the
        boundary of two segments this is the start of the later one.  An empty chunk has no
        segment: the result is the end of the list, and byte 0. */
    method GetSegment(pos: nat) returns (iter: nat, index: nat, ghost k: nat)
      requires Valid() && pos <= length
      ensures length == 0 ==> iter == |segments| == 0 && index == 0
      ensures length > 0 ==>
        iter < |segments| && k <= |SegmentCells(segments[iter])| && segments[iter].offset + k == pos
      ensures length > 0 && k == |SegmentCells(segments[iter])| ==> iter == |segments| - 1
      ensures length > 0 ==> index == Index(segments[iter].text, k)
    {
      hide Good, Cells, SegmentCells, Index, Chars, WellFormed, StartsAt;
      EmptyCells(segments, 0);
      iter := Search(segments, pos);
      if length > 0 {
        SearchFinds(segments, 0, pos);
        iter := iter - 1;
        NextOffsetIs(segments, length, iter);
        var found := segments[iter];
        SegmentLength(found);
        k := pos - found.offset;
        if pos == NextOffset(segments, length, iter) {
          IndexMonotone(found.text, 0, |Chars(found.text)|);
          index := |found.text|;
        } else {
          index := BytesBefore(found.text, pos - found.offset);
        }
      } else {
        index, k := 0, 0;
      }
    }

    /** The segment into or behind which a text by an author goes.  Between two segments the
        one before is taken unless the one behind is the author's. */
    method GetSegmentFor(offset: nat, author: nat) returns (iter: nat, index: nat, ghost k: nat)
      requires Valid() && 0 < length && offset <= length
      ensures iter < |segments| && k <= |SegmentCells(segments[iter])| && segments[iter].offset + k == offset
      ensures index == Index(segments[iter].text, k)
      ensures segments[iter].author != author && k == 0 ==> iter == 0
      ensures segments[iter].author != author && k == |SegmentCells(segments[iter])| && iter + 1 < |segments|
        ==> segments[iter + 1].author != author
    {
      hide Good, Cells, SegmentCells, Index, Chars, WellFormed;
      iter, index, k := GetSegment(offset);
      CutInTwo(segments[iter], k);
      StepBack(segments, length, iter);
      if segments[iter].author != author && offset > 0 && index == 0 {
        iter := iter - 1;
        index := |segments[iter].text|;
        k := |SegmentCells(segments[iter])|;
      }
    }

    /** The loop that moves the offsets of all segments from iter on. */
    method AdjustOffsets(start: nat, delta: int)
      requires start <= |segments|
      modifies this`segments
      ensures segments == old(segments[..start]) + ShiftOffsets(old(segments[start..]), delta)
    {
      ghost var before := segments;
      var iter := start;
      while iter < |segments|
        invariant start <= iter <= |segments| == |before|
        invariant segments[..start] == before[..start] && segments[iter..] == before[iter..]
        invariant forall i :: start <= i < iter ==> segments[i] == before[i].(offset := before[i].offset + delta)
      {
        var segment := segments[iter];
        segments := segments[iter := segment.(offset := segment.offset + delta)];
        iter := iter + 1;
      }
      assert segments[start..] == ShiftOffsets(before[start..], delta);
    }

    /** Puts a text, which holds number characters, at a position into its place, with all
        offsets from the resulting iter on still to be adjusted. */
    method PlaceText(offset: nat, text: seq<Byte>, author: nat) returns (iter: nat)
      requires Valid() && 0 < length && offset <= length && WellFormed(text)
      modifies this`segments
      ensures Placed(old(segments), segments, iter, offset, text, author,
                     text != [] || AuthorAt(old(segments), length, offset, author))
    {
      hide Good, Cells, SegmentCells, Index, Chars, WellFormed, AuthorAt, Placed, Widened, Front, Rear;
      ghost var gs := segments;
      ghost var k;
      var offsetIndex;
      iter, offsetIndex, k := GetSegmentFor(offset, author);
      var segment: Segment := segments[iter];
      ForAuthor(gs, length, iter, k, offset, author);
      CutInTwo(segment, k);
      if segment.author != author {
        if 0 < offsetIndex < |segment.text| {
          // Split the segment.
          SplitPlaced(gs, iter, k, text, author);
          iter := iter + 1;
          var rear: Segment := Segment(segment.author, segment.text[offsetIndex..], offset);
          segments := segments[..iter] + [rear] + segments[iter..];
          segment := Segment(segment.author, segment.text[..offsetIndex], segment.offset);
          segments := segments[iter - 1 := segment];
        } else if offsetIndex == |segment.text| {
          // Insert behind the segment.
          NextOffsetIs(gs, length, iter);
          iter := iter + 1;
          BetweenPlaced(gs, length, iter, offset, text, author);
        } else {
          FirstOffset(gs, length);
          BetweenPlaced(gs, length, 0, offset, text, author);
        }
        var newSegment: Segment := Segment(author, text, offset);
        segments := segments[..iter] + [newSegment] + segments[iter..];
        iter := iter + 1;
      } else {
        InsidePlaced(gs, iter, k, text);
        PutInside(segment, k, text);
        segments := segments[iter := Segment(segment.author,
            segment.text[..offsetIndex] + text + segment.text[offsetIndex..], segment.offset)];
        iter := iter + 1;
      }
    }

    /** Inserts a text, which holds number characters, at a position. */
    method InsertText(offset: nat, text: seq<Byte>, number: nat, author: nat)
      requires Valid() && offset <= length && WellFormed(text) && number == |Chars(text)|
      modifies this
      ensures Contents() == Splice(old(Contents()), offset, Tag(Chars(text), author))
      ensures length == |Contents()|
      ensures Valid() <==> text != [] || AuthorAt(old(segments), old(length), offset, author)
    {
      hide Good, Cells, Chars, WellFormed, Tag, ShiftOffsets, Splice, AuthorAt;
      ghost var gs := segments;
      if length > 0 {
        var iter := PlaceText(offset, text, author);
        AdjustOffsets(iter, number);
        length := length + number;
      } else {
        segments := segments + [Segment(author, text, 0)];
        FirstText(gs, offset, text, author);
        length := number;
      }
    }

    /** The loop that copies the segments between two places to an empty chunk, the first and
        the last of them in part. */
    method CopyBetween(result: Chunk, begin: nat, first: nat, firstIndex: nat, last: nat, lastIndex: nat,
                       ghost k: nat, ghost l: nat)
      requires result != this && result.segments == []
      requires first <= last < |segments| && 0 < l <= |SegmentCells(segments[last])|
      requires k < if first < last then |SegmentCells(segments[first])| else l
      requires begin == segments[first].offset + k
      requires k <= |Chars(segments[first].text)| && firstIndex == Index(segments[first].text, k)
      requires l <= |Chars(segments[last].text)| && lastIndex == Index(segments[last].text, l)
      modifies result`segments
      ensures k <= |SegmentCells(if first < last then segments[first] else Front(segments[last], l))|
      ensures result.segments == Between(segments, first, k, last, l)
    {
      hide Good, Cells, SegmentCells, Index, Chars, WellFormed, Between, Front;
      PieceIs(segments, first, k, last, l, first);
      var beginIter, beginIndex, currentLength, segment := first, firstIndex, 0, segments[first];
      while beginIter != last
        invariant first <= beginIter <= last && segment == segments[beginIter]
        invariant beginIndex == if beginIter == first then firstIndex else 0
        invariant currentLength == if beginIter == first then 0 else segment.offset - begin
        invariant result.segments == Between(segments, first, k, last, l)[..beginIter - first]
      {
        PieceIs(segments, first, k, last, l, beginIter);
        var newSegment: Segment := Segment(segment.author, segment.text[beginIndex..|segment.text|], currentLength);
        beginIter := beginIter + 1;
        segment := segments[beginIter];
        // What remains of the segment counts towards the current length.
        currentLength := segment.offset - begin;
        beginIndex := 0;
        result.segments := result.segments + [newSegment];
      }
      PieceIs(segments, first, k, last, l, last);
      var lastSegment: Segment := Segment(segment.author, segment.text[beginIndex..lastIndex], currentLength);
      result.segments := result.segments + [lastSegment];
    }

    /** A copy of what lies between begin and begin + number. */
    method Substring(begin: nat, number: nat) returns (result: Chunk)
      requires Valid() && begin + number <= length
      ensures fresh(result) && result.Valid()
      ensures result.Contents() == Contents()[begin..begin + number] && result.length == number
    {
      hide Good, Cells, SegmentCells, Index, Chars, WellFormed, Between, Front;
      result := new Chunk();
      if length > 0 && number > 0 {
        ghost var k, l;
        var beginIter, endIter, beginIndex, endIndex;
        beginIter, beginIndex, k := GetSegment(begin);
        endIter, endIndex, l := GetSegment(begin + number);
        CutInTwo(segments[endIter], l);
        StepBack(segments, length, endIter);
        if endIndex == 0 {
          endIter := endIter - 1;
          endIndex := |segments[endIter].text|;
          l := |SegmentCells(segments[endIter])|;
        }
        InOrder(segments, length, beginIter, k, endIter, l);
        CellsOf(segments[beginIter]);
        CellsOf(segments[endIter]);
        CopyBetween(result, begin, beginIter, beginIndex, endIter, endIndex, k, l);
        BetweenCells(segments, beginIter, k, endIter, l);
        result.length := number;
      } else {
        Nothing();
      }
    }

    /** Cuts the segments at both borders of a range that lies inside, or makes one of them.
        What then is left to do is to remove the segments from first up to last and to move
        those from beyond on. */
    method CutInside(begin: nat, number: nat, firstIter: nat, firstIndex: nat, lastIter: nat, lastIndex: nat,
                     ghost k: nat, ghost l: nat)
      returns (first: nat, last: nat, beyond: nat)
      requires Valid() && 0 < number
      requires firstIter <= lastIter < |segments|
      requires 0 < k <= |SegmentCells(segments[firstIter])| && segments[firstIter].offset + k == begin
      requires l < |SegmentCells(segments[lastIter])| && segments[lastIter].offset + l == begin + number
      requires k <= |Chars(segments[firstIter].text)| && firstIndex == Index(segments[firstIter].text, k)
      requires l <= |Chars(segments[lastIter].text)| && lastIndex == Index(segments[lastIter].text, l)
      modifies this`segments
      ensures CutReady(old(segments), segments, first, last, beyond, begin, number)
    {
      hide Good, Cells, SegmentCells, Index, Chars, WellFormed, Front, Rear, CutReady, Glued;
      first, last := firstIter, lastIter;
      var front, rear := segments[first], segments[last];
      CutInTwo(front, k);
      CutInTwo(rear, l);
      if front.author == rear.author {
        // The two can be merged.
        GluedIs(Front(front, k), Rear(rear, l));
        CutMerged(segments, first, k, last, l);
        segments := segments[first := Segment(front.author, front.text[..firstIndex] + rear.text[lastIndex..],
                                              front.offset)];
        if first == last {
          beyond := last + 1;
        } else {
          last := last + 1;
          beyond := last;
        }
      } else {
        assert firstIndex > 0;
        assert lastIndex < |rear.text|;
        CutApart(segments, first, k, last, l);
        segments := segments[first := Segment(front.author, front.text[..firstIndex], front.offset)];
        segments := segments[last := Segment(rear.author, rear.text[lastIndex..], begin)];
        beyond := last + 1;
      }
      first := first + 1;
    }

    /** The same for a range at the beginning or at the end. */
    method CutOutside(begin: nat, number: nat, firstIter: nat, firstIndex: nat, lastIter: nat, lastIndex: nat,
                      ghost k: nat, ghost l: nat)
      returns (first: nat, last: nat, beyond: nat)
      requires Valid() && 0 < number && (begin == 0 || begin + number == length)
      requires firstIter <= lastIter < |segments|
      requires k < |SegmentCells(segments[firstIter])| && segments[firstIter].offset + k == begin
      requires l <= |SegmentCells(segments[lastIter])| && segments[lastIter].offset + l == begin + number
      requires begin + number == length <==> l == |SegmentCells(segments[lastIter])|
      requires begin + number == length ==> lastIter == |segments| - 1
      requires k <= |Chars(segments[firstIter].text)| && firstIndex == Index(segments[firstIter].text, k)
      requires l <= |Chars(segments[lastIter].text)| && lastIndex == Index(segments[lastIter].text, l)
      modifies this`segments
      ensures CutReady(old(segments), segments, first, last, beyond, begin, number)
    {
      hide Good, Cells, SegmentCells, Index, Chars, WellFormed, Front, Rear, CutReady;
      first, last := firstIter, lastIter;
      var front, rear := segments[first], segments[last];
      CutInTwo(front, k);
      CutInTwo(rear, l);
      StepBack(segments, length, first);
      StepBack(segments, length, last);
      if begin == 0 && number == length {
        CutToEnd(segments, length, first, k);
        last := last + 1;
        assert last == |segments|;
        beyond := last;
      } else if begin == 0 {
        assert lastIndex < |rear.text|;
        if lastIndex > 0 {
          CutFromFront(segments, last, l);
          segments := segments[last := Segment(rear.author, rear.text[lastIndex..], 0)];
          beyond := last + 1;
        } else {
          // The first segments go completely.
          CutWholeFront(segments, last);
          beyond := last;
        }
      } else {
        assert firstIndex < |front.text|;
        CutToEnd(segments, length, first, k);
        if firstIndex > 0 {
          segments := segments[first := Segment(front.author, front.text[..firstIndex], front.offset)];
          first := first + 1;
        }
        last := last + 1;
        assert last == |segments|;
        beyond := last;
      }
    }

    /** Removes the segments from first up to last and adjusts the offsets from beyond on. */
    method RemoveRange(first: nat, last: nat, beyond: nat, begin: nat, number: nat, ghost gs: seq<Segment>)
      requires CutReady(gs, segments, first, last, beyond, begin, number)
      modifies this`segments
      ensures begin + number <= |Cells(gs)|
      ensures Good(segments, 0) && Cells(segments) == Cut(Cells(gs), begin, number)
    {
      hide Good, Cells, ShiftOffsets;
      if first < last {
        Removed(segments, first, last, beyond);
        segments := segments[..first] + segments[last..];
        AdjustOffsets(beyond - (last - first), 0 - number);
      } else {
        // A range whose begin lies behind its end is empty.
        assert segments[..first] + segments[first..beyond] == segments[..beyond];
        AdjustOffsets(beyond, 0 - number);
      }
    }

    /** Removes number characters from begin on. */
    method Erase(begin: nat, number: nat)
      requires Valid() && begin + number <= length
      modifies this
      ensures Valid() && length == old(length) - number
      ensures Contents() == Cut(old(Contents()), begin, number)
    {
      hide Good, Cells, SegmentCells, Index, Chars, WellFormed, CutReady;
      ghost var gs := segments;
      if length > 0 && number > 0 {
        ghost var k, l;
        var first, firstIndex, last, lastIndex, beyond;
        first, firstIndex, k := GetSegment(begin);
        last, lastIndex, l := GetSegment(begin + number);
        StepBack(segments, length, first);
        CutInTwo(segments[first], k);
        AtEnd(segments, length, first, k);
        AtEnd(segments, length, last, l);
        if begin > 0 && begin + number < length {
          if firstIndex == 0 {
            first := first - 1;
            firstIndex := |segments[first].text|;
            k := |SegmentCells(segments[first])|;
          }
          InOrder(segments, length, first, k, last, l);
          CellsOf(segments[first]);
          CellsOf(segments[last]);
          first, last, beyond := CutInside(begin, number, first, firstIndex, last, lastIndex, k, l);
        } else {
          InOrder(segments, length, first, k, last, l);
          CellsOf(segments[first]);
          CellsOf(segments[last]);
          first, last, beyond := CutOutside(begin, number, first, firstIndex, last, lastIndex, k, l);
        }
        RemoveRange(first, last, beyond, begin, number, gs);
      }
      length := length - number;
    }

    /** Makes ready for a chunk to come in between two segments, at the beginning or at the end:
        its first and its last segment are merged with their neighbours where they can be.  What
        then is left to do is to insert the segments from first up to last before iter and to
        move those from beyond on. */
    method JoinAtBoundary(offset: nat, ts: seq<Segment>, firstMerge: Segment, lastMerge: Segment,
                          origin: nat, found: nat, offsetIndex: nat, ghost bound: nat)
      returns (iter: nat, first: nat, last: nat, beyond: nat)
      requires Valid() && Good(ts, 0) && |ts| >= 2 && offset <= length
      requires bound <= |segments| && offset == |Cells(segments[..bound])|
      requires (offset > 0 <==> bound > 0) && (offset < length <==> bound < |segments|)
      requires bound > 0 ==> found == bound - 1 && firstMerge == segments[bound - 1] && offsetIndex > 0
      requires bound == 0 ==> found == 0 && offsetIndex == 0 && segments != []
      requires bound < |segments| ==> origin == bound && lastMerge == segments[bound]
      modifies this`segments
      ensures FillReady(old(segments), ts, segments, iter, first, last, beyond, offset)
    {
      hide Good, Cells, SegmentCells, WellFormed, FillReady, Joint;
      FillAtBoundary(segments, bound, ts);
      iter, first, last := found, 0, |ts| - 1;
      // The first segment that will need offset adjustment.
      beyond := origin;
      if offset > 0 && firstMerge.author == ts[first].author {
        segments := segments[iter := Glued(firstMerge, ts[first])];
        first := first + 1;
      }
      if lastMerge.author == ts[last].author && offset < length {
        segments := segments[beyond := Glued(ts[last].(offset := offset + ts[last].offset), lastMerge)];
        beyond := beyond + 1;
      } else {
        last := last + 1;
        if offsetIndex > 0 {
          beyond := iter + 1;
        }
      }
      if offsetIndex > 0 {
        iter := iter + 1;
      }
    }

    /** The same for a chunk that comes in within a segment, which is split. */
    method JoinWithin(offset: nat, ts: seq<Segment>, number: nat, found: nat, offsetIndex: nat, ghost k: nat)
      returns (iter: nat, first: nat, last: nat, beyond: nat)
      requires Valid() && Canonical(ts, number) && |ts| >= 2
      requires found < |segments| && 0 < k < |SegmentCells(segments[found])| && segments[found].offset + k == offset
      requires k <= |Chars(segments[found].text)| && offsetIndex == Index(segments[found].text, k)
      modifies this`segments
      ensures FillReady(old(segments), ts, segments, iter, first, last, beyond, offset)
    {
      hide Good, Cells, SegmentCells, Index, Chars, WellFormed, FillReady, Joint, Front, Rear;
      FillWithin(segments, found, k, ts);
      iter, first, last := found, 0, |ts| - 1;
      var merge: Segment := segments[iter];
      CutInTwo(merge, k);
      var front: Segment := Segment(merge.author, merge.text[..offsetIndex], merge.offset);
      var rear: Segment := Segment(merge.author, merge.text[offsetIndex..], offset + number);
      if merge.author == ts[last].author {
        GluedOffset(ts[last].(offset := offset + ts[last].offset), Rear(merge, k), offset + number);
        rear := Glued(ts[last].(offset := offset + ts[last].offset), rear);
      } else {
        last := last + 1;
      }
      iter := iter + 1;
      segments := segments[..iter] + [rear] + segments[iter..];
      beyond := iter + 1;
      if merge.author == ts[first].author {
        front := Glued(front, ts[first]);
        first := first + 1;
      }
      segments := segments[iter - 1 := front];
    }

    /** The loop that inserts the segments from first up to last before a segment. */
    method InsertSegments(before: nat, ts: seq<Segment>, first: nat, last: nat, offset: nat)
      requires before <= |segments| && first <= last <= |ts|
      modifies this`segments
      ensures segments == old(segments[..before]) + ShiftOffsets(ts[first..last], offset) + old(segments[before..])
    {
      ghost var gs := segments;
      var iter, textIter := before, first;
      while textIter != last
        invariant first <= textIter <= last && iter == before + (textIter - first)
        invariant segments == gs[..before] + ShiftOffsets(ts[first..textIter], offset) + gs[before..]
      {
        ShiftSnoc(ts, first, textIter, offset);
        InsertedAtEnd(gs[..before], ShiftOffsets(ts[first..textIter], offset), gs[before..],
                      ts[textIter].(offset := offset + ts[textIter].offset));
        var newSegment: Segment := ts[textIter].(offset := offset + ts[textIter].offset);
        segments := segments[..iter] + [newSegment] + segments[iter..];
        iter := iter + 1;
        textIter := textIter + 1;
      }
    }

    /** Inserts another chunk at a position.  A segment without text, which a chunk holds once
        such a text has been inserted into it, comes in as it is. */
    method InsertChunk(offset: nat, text: Chunk)
      requires Valid() && text != this && offset <= length
      requires text.Valid() || (text.length == 0 && text.Contents() == [])
      modifies this
      ensures length == old(length) + text.length == |Contents()|
      ensures Contents() == Splice(old(Contents()), offset, text.Contents())
      ensures Valid() <==> text.Valid()
    {
      hide Good, Cells, SegmentCells, Index, Chars, WellFormed, FillReady, Tag;
      ghost var gs := segments;
      EmptyCells(segments, 0);
      if length > 0 && text.length > 0 {
        EmptyCells(text.segments, 0);
        if |text.segments| == 1 {
          var segment := text.segments[0];
          FirstOffset(text.segments, text.length);
          OneSegment(segment, 0);
          CellsOf(segment);
          assert text.segments == [segment];
          InsertText(offset, segment.text, text.length, segment.author);
        } else {
          ghost var k;
          var found, offsetIndex;
          found, offsetIndex, k := GetSegment(offset);
          CutInTwo(segments[found], k);
          StepBack(segments, length, found);
          AtEnd(segments, length, found, k);
          var iter, first, last, beyond;
          var lastMerge := segments[found];
          var origin, firstMerge := found, lastMerge;
          ghost var bound := if k == 0 then found else found + 1;
          var stepped := offsetIndex == 0 && offset > 0;
          if stepped {
            found := found - 1;
            firstMerge := segments[found];
            offsetIndex := |firstMerge.text|;
          }
          if offset == 0 || offset == length || stepped {
            BehindSegment(segments, length, bound);
            iter, first, last, beyond := JoinAtBoundary(offset, text.segments, firstMerge, lastMerge,
                                                        origin, found, offsetIndex, bound);
          } else {
            CellsOf(segments[found]);
            iter, first, last, beyond := JoinWithin(offset, text.segments, text.length, found, offsetIndex, k);
          }
          FillBounds(gs, text.segments, segments, iter, first, last, beyond, offset);
          FillInserted(gs, text.segments, segments, iter, first, last, beyond, offset);
          InsertSegments(iter, text.segments, first, last, offset);
          beyond := beyond + (last - first);
          AdjustOffsets(beyond, text.length);
          length := length + text.length;
        }
      } else {
        // Copy the segments as they are.
        AppendSegments(text);
        NothingToSplice(gs, text.segments, offset);
        length := length + text.length;
      }
    }

    method AppendSegments(text: Chunk)
      requires text != this
      modifies this`segments
      ensures segments == old(segments) + text.segments
    {
      var textIter := 0;
      while textIter < |text.segments|
        invariant textIter <= |text.segments| && segments == old(segments) + text.segments[..textIter]
      {
        segments := segments + [text.segments[textIter]];
        textIter := textIter + 1;
      }
    }

    /** The text of the chunk, without authors. */
    method GetText() returns (result: array<Byte>)
      ensures fresh(result) && result[..] == TextOf(segments)
    {
      hide TextOf;
      NoSegments();
      var bytes, iter := 0, 0;
      while iter < |segments|
        invariant iter <= |segments| && bytes == |TextOf(segments[..iter])|
      {
        TextOfNext(segments, iter);
        bytes := bytes + |segments[iter].text|;
        iter := iter + 1;
      }
      assert segments[..|segments|] == segments;
      result := new Byte[bytes];
      var cur := 0;
      iter := 0;
      while iter < |segments|
        invariant iter <= |segments| && cur == |TextOf(segments[..iter])| <= bytes && result.Length == bytes
        invariant result[..cur] == TextOf(segments[..iter])
      {
        TextOfNext(segments, iter);
        TextOfPrefix(segments, iter + 1);
        var segment := segments[iter];
        forall i | 0 <= i < |segment.text| {
          result[cur + i] := segment.text[i];
        }
        assert result[..cur + |segment.text|] == TextOf(segments[..iter]) + segment.text;
        cur := cur + |segment.text|;
        iter := iter + 1;
      }
    }

    /** Compares the segments of two chunks, one after the other; the authors are not looked at. */
    method Equal(other: Chunk) returns (equal: bool)
      ensures equal <==> SameTexts(segments, other.segments)
    {
      var iter := 0;
      while iter < |segments| && iter < |other.segments|
        invariant iter <= |segments| && iter <= |other.segments|
        invariant forall i :: 0 <= i < iter ==> segments[i].text == other.segments[i].text
      {
        var segment1, segment2 := segments[iter], other.segments[iter];
        if |segment1.text| != |segment2.text| {
          return false;
        }
        if segment1.text != segment2.text {
          return false;
        }
        iter := iter + 1;
      }
      equal := iter == |segments| && iter == |other.segments|;
    }
  }

  /** The byte at which character number of a text starts, found by converting one character
      after the other into a buffer that holds no more than one. */
  method BytesBefore(text: seq<Byte>, number: nat) returns (index: nat)
    requires WellFormed(text) && number < |Chars(text)|
    ensures index == Index(text, number)
    ensures StartsAt(text, number, index)
  {
    hide Chars, WellFormed, StartsAt;
    var count, inlen := 0, |text|;
    IndexMonotone(text, 0, |Chars(text)|);
    while count < number
      invariant count <= number && 0 < inlen == |text| - Index(text, count)
    {
      IndexNext(text, count);
      inlen := inlen - Width(text[|text| - inlen]);
      count := count + 1;
      // The conversion stops for want of space only, because another character follows.
      IndexMonotone(text, count, |Chars(text)|);
    }
    index := |text| - inlen;
    IndexOfEncoding(text, number);
  }
}
