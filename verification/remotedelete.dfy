/** The remote delete operation as an object, with the loops that keep its recon list. */
module RemoteDeleteOperations {
  import opened Masks
  import opened Text
  import opened Segments
  import opened Joints
  import opened Chunks
  import opened Buffers
  import opened DefaultOperations
  import O = Operations
  import Reversal

  datatype Entry = Entry(position: nat, chunk: Chunk)

  ghost predicate ValidEntries(entries: seq<Entry>)
    reads set e | e in entries :: e.chunk
  {
    forall e :: e in entries ==> e.chunk.Valid()
  }

  /** The recon list the entries make up, from entry i on. */
  ghost function ReconOf(entries: seq<Entry>, i: nat): List<O.Recon>
    requires i <= |entries|
    reads set e | e in entries :: e.chunk
    decreases |entries| - i
  {
    if i == |entries| then Nil
    else Cons(O.Recon(entries[i].position, entries[i].chunk.Contents()), ReconOf(entries, i + 1))
  }

  class RemoteDeleteOperation {
    const position: nat
    const length: nat
    var recon: seq<Entry>
    var reconOffset: nat

    ghost predicate Valid()
      reads this, set e | e in recon :: e.chunk
    {
      ValidEntries(recon)
    }

    ghost function Value(): O.Deletion
      reads this, set e | e in recon :: e.chunk
    {
      O.RemoteDelete(position, length, ReconOf(recon, 0), reconOffset)
    }

    constructor (position: nat, length: nat)
      ensures Valid() && recon == [] && Value() == O.NewRemoteDelete(position, length)
      ensures this.position == position && this.length == length
    {
      this.position := position;
      this.length := length;
      recon := [];
      reconOffset := 0;
    }

    /** A new operation that takes over a recon list. */
    static method WithRecon(position: nat, length: nat, recon: seq<Entry>, reconOffset: nat)
      returns (result: RemoteDeleteOperation)
      requires ValidEntries(recon)
      ensures fresh(result) && result.Valid()
      ensures result.Value() == O.RemoteDelete(position, length, ReconOf(recon, 0), reconOffset)
    {
      hide Good, Cells, ReconOf;
      result := new RemoteDeleteOperation(position, length);
      result.recon := recon;
      result.reconOffset := reconOffset;
    }

    method TransformPosition(position: nat) returns (result: RemoteDeleteOperation)
      requires Valid()
      ensures fresh(result) && result.Valid() && result.Value() == O.TransformPosition(Value(), position)
    {
      hide Good, Cells, ReconOf;
      var copy := ReconCopy(recon);
      result := WithRecon(position, length, copy, reconOffset);
    }

    /** Only the deletion of a known text can take part of this one away. */
    method TransformOverlap(other: DefaultDeleteOperation, position: nat, begin: nat, otherBegin: nat, length: nat)
      returns (result: RemoteDeleteOperation)
      requires Valid() && other.Valid() && begin + length <= this.length && otherBegin + length <= other.chunk.length
      ensures fresh(result) && result.Valid()
      ensures Done(result.Value()) == O.TransformOverlap(Value(), other.Value(), position, begin, otherBegin, length)
    {
      hide Good, Cells, ReconOf, O.ReconFeed, Cut;
      var text := other.chunk.Substring(otherBegin, length);
      var fed := ReconFeed(recon, begin, text);
      result := WithRecon(position, this.length - length, fed, reconOffset);
    }

    method TransformSplit(splitPos: nat, splitLen: nat)
      returns (split: Outcome<(RemoteDeleteOperation, RemoteDeleteOperation)>)
      requires Valid() && splitPos <= length
      ensures split.Done? ==> var (first, second) := split.value;
        && fresh(first) && first.Valid() && fresh(second) && second.Valid()
        && Done(O.SplitDelete(first.Value(), second.Value())) == O.TransformSplit(Value(), splitPos, splitLen)
      ensures split.AssertionFailed? ==> O.TransformSplit(Value(), splitPos, splitLen) == AssertionFailed
    {
      hide Good, Cells, ReconOf, O.SplitReconFrom;
      var ok, firstRecon, secondRecon, reconCurLen := SplitRecon(recon, splitPos);
      if !ok {
        return AssertionFailed;
      }
      var first := WithRecon(position, splitPos, firstRecon, reconOffset);
      var second := WithRecon(position + splitPos + splitLen, length - splitPos, secondRecon,
                              reconOffset + splitPos + reconCurLen);
      split := Done((first, second));
    }
  }

  /** Adding an entry. */
  lemma {:induction false} ReconSnoc(entries: seq<Entry>, e: Entry, i: nat)
    requires i <= |entries|
    ensures ReconOf(entries + [e], i) == Append(ReconOf(entries, i), Cons(O.Recon(e.position, e.chunk.Contents()), Nil))
    decreases |entries| - i
  {
    if i < |entries| {
      ReconSnoc(entries, e, i + 1);
    }
  }

  lemma {:induction false} AppendTwice<T>(a: List<T>, b: List<T>, c: List<T>)
    ensures Append(Append(a, b), c) == Append(a, Append(b, c))
  {
    match a
    case Nil =>
    case Cons(_, rest) => AppendTwice(rest, b, c);
  }

  /** What a list will have grown to once it has got an entry and then some more. */
  lemma Grown(entries: seq<Entry>, e: Entry, more: List<O.Recon>)
    ensures Append(ReconOf(entries + [e], 0), more)
         == Append(ReconOf(entries, 0), Cons(O.Recon(e.position, e.chunk.Contents()), more))
  {
    ReconSnoc(entries, e, 0);
    AppendTwice(ReconOf(entries, 0), Cons(O.Recon(e.position, e.chunk.Contents()), Nil), more);
  }

  lemma {:induction false} AppendNil<T>(a: List<T>)
    ensures Append(a, Nil) == a
  {
    match a
    case Nil =>
    case Cons(_, rest) => AppendNil(rest);
  }

  lemma ReconIs(entries: seq<Entry>, i: nat)
    requires i <= |entries|
    ensures ReconOf(entries, i)
      == if i == |entries| then Nil
         else Cons(O.Recon(entries[i].position, entries[i].chunk.Contents()), ReconOf(entries, i + 1))
  {
  }

  lemma FeedIs(r: O.Recon, rest: List<O.Recon>, position: nat, chunk: seq<Cell>, textPos: nat, curLen: nat)
    requires textPos <= |chunk|
    ensures var at := position + textPos + curLen;
      var n := if !(at < r.position && textPos < |chunk|) then 0
               else if r.position - at > |chunk| - textPos then |chunk| - textPos else r.position - at;
      var more := Cons(r, O.FeedFrom(rest, position, chunk, textPos + n, curLen + |r.chunk|));
      O.FeedFrom(Cons(r, rest), position, chunk, textPos, curLen)
      == if at < r.position && textPos < |chunk| then Cons(O.Recon(at, chunk[textPos..textPos + n]), more) else more
  {
  }

  lemma FeedEnds(position: nat, chunk: seq<Cell>, textPos: nat, curLen: nat)
    requires textPos <= |chunk|
    ensures O.FeedFrom(Nil, position, chunk, textPos, curLen)
      == if textPos < |chunk| then Cons(O.Recon(position + textPos + curLen, chunk[textPos..|chunk|]), Nil) else Nil
  {
    WholeSlices(chunk, textPos);
  }

  method ReconCopy(reconList: seq<Entry>) returns (newList: seq<Entry>)
    requires ValidEntries(reconList)
    ensures ValidEntries(newList) && forall e :: e in newList ==> fresh(e.chunk)
    ensures ReconOf(newList, 0) == ReconOf(reconList, 0)
  {
    hide ReconOf, Append;
    newList := [];
    Starts(ReconOf(reconList, 0));
    var item := 0;
    while item < |reconList|
      invariant item <= |reconList| && ValidEntries(newList) && forall e :: e in newList ==> fresh(e.chunk)
      invariant Append(ReconOf(newList, 0), ReconOf(reconList, item)) == ReconOf(reconList, 0)
    {
      ReconIs(reconList, item);
      newList := AddCopy(newList, reconList[item], ReconOf(reconList, item + 1));
      item := item + 1;
    }
    ReconIs(reconList, item);
    AppendNil(ReconOf(newList, 0));
  }

  /** Adds a text to a recon list, in pieces between the texts that are on it. */
  method ReconFeed(reconList: seq<Entry>, position: nat, chunk: Chunk) returns (newList: seq<Entry>)
    requires ValidEntries(reconList) && chunk.Valid()
    ensures ValidEntries(newList) && forall e :: e in newList ==> fresh(e.chunk)
    ensures ReconOf(newList, 0) == O.ReconFeed(ReconOf(reconList, 0), position, chunk.Contents())
  {
    hide Good, Cells, ReconOf, O.FeedFrom, Append;
    newList := [];
    ghost var text, fed := chunk.Contents(), O.ReconFeed(ReconOf(reconList, 0), position, chunk.Contents());
    Starts(fed);
    var item: nat, textPos: nat, curLen: nat := 0, 0, 0;
    while item < |reconList|
      invariant item <= |reconList| && textPos <= chunk.length
      invariant ValidEntries(newList) && forall e :: e in newList ==> fresh(e.chunk)
      invariant Append(ReconOf(newList, 0), O.FeedFrom(ReconOf(reconList, item), position, text, textPos, curLen))
             == fed
    {
      var recon := reconList[item];
      ghost var r, rest := O.Recon(recon.position, recon.chunk.Contents()), ReconOf(reconList, item + 1);
      ReconIs(reconList, item);
      FeedIs(r, rest, position, text, textPos, curLen);
      if position + textPos + curLen < recon.position && textPos < chunk.length {
        var textLen := recon.position - position - textPos - curLen;
        if textLen > chunk.length - textPos {
          textLen := chunk.length - textPos;
        }
        newList := AddPiece(newList, position + textPos + curLen, chunk, textPos, textLen,
                            Cons(r, O.FeedFrom(rest, position, text, textPos + textLen, curLen + |r.chunk|)));
        textPos := textPos + textLen;
      }
      curLen := curLen + recon.chunk.length;
      newList := AddCopy(newList, recon, O.FeedFrom(rest, position, text, textPos, curLen));
      item := item + 1;
    }
    ReconIs(reconList, item);
    FeedEnds(position, text, textPos, curLen);
    if textPos < chunk.length {
      newList := AddPiece(newList, position + textPos + curLen, chunk, textPos, chunk.length - textPos, Nil);
    }
    AppendNil(ReconOf(newList, 0));
  }

  lemma Starts(l: List<O.Recon>)
    ensures Append(ReconOf([], 0), l) == l
  {
  }

  method AddCopy(entries: seq<Entry>, recon: Entry, ghost more: List<O.Recon>) returns (grown: seq<Entry>)
    requires ValidEntries(entries) && recon.chunk.Valid()
    ensures ValidEntries(grown) && forall e :: e in grown ==> e in entries || fresh(e.chunk)
    ensures Append(ReconOf(grown, 0), more)
         == Append(ReconOf(entries, 0), Cons(O.Recon(recon.position, recon.chunk.Contents()), more))
  {
    hide Good, Cells, Append;
    var copy := recon.chunk.Copy();
    var newRecon := Entry(recon.position, copy);
    Grown(entries, newRecon, more);
    grown := entries + [newRecon];
  }

  method AddPiece(entries: seq<Entry>, position: nat, chunk: Chunk, begin: nat, length: nat, ghost more: List<O.Recon>)
    returns (grown: seq<Entry>)
    requires ValidEntries(entries) && chunk.Valid() && begin + length <= chunk.length
    ensures ValidEntries(grown) && forall e :: e in grown ==> e in entries || fresh(e.chunk)
    ensures Append(ReconOf(grown, 0), more)
         == Append(ReconOf(entries, 0), Cons(O.Recon(position, chunk.Contents()[begin..begin + length]), more))
  {
    hide Good, Cells, Append;
    var piece := chunk.Substring(begin, length);
    var newRecon := Entry(position, piece);
    Grown(entries, newRecon, more);
    grown := entries + [newRecon];
  }

  // ----- splitting the recon list -----

  /** What has been put on the two lists so far and what will follow. */
  ghost function Following(first: List<O.Recon>, second: List<O.Recon>, rest: Outcome<O.ReconSplit>)
    : Outcome<O.ReconSplit>
  {
    match rest
    case Done(p) => Done(O.ReconSplit(Append(first, p.first), Append(second, p.second), p.curLen))
    case AssertionFailed => AssertionFailed
  }

  lemma SplitIs(a: List<O.Recon>, b: List<O.Recon>, r: O.Recon, rest: List<O.Recon>, splitPos: nat, curLen: nat)
    ensures Following(a, b, O.SplitReconFrom(Cons(r, rest), splitPos, curLen))
      == if r.position < curLen then AssertionFailed
         else if r.position - curLen <= splitPos then
           Following(Append(a, Cons(r, Nil)), b, O.SplitReconFrom(rest, splitPos, curLen + |r.chunk|))
         else
           Following(a, Append(b, Cons(O.Recon(r.position - (splitPos + curLen), r.chunk), Nil)),
                     O.SplitReconFrom(rest, splitPos, curLen))
  {
    var left := O.SplitReconFrom(rest, splitPos, curLen + |r.chunk|);
    var right := O.SplitReconFrom(rest, splitPos, curLen);
    if left.Done? {
      AppendTwice(a, Cons(r, Nil), left.value.first);
    }
    if r.position >= curLen && r.position - curLen > splitPos && right.Done? {
      AppendTwice(b, Cons(O.Recon(r.position - (splitPos + curLen), r.chunk), Nil), right.value.second);
    }
  }

  lemma SplitStarts(split: Outcome<O.ReconSplit>)
    ensures Following(ReconOf([], 0), ReconOf([], 0), split) == split
  {
  }

  lemma SplitEnds(a: List<O.Recon>, b: List<O.Recon>, splitPos: nat, curLen: nat)
    ensures Following(a, b, O.SplitReconFrom(Nil, splitPos, curLen)) == Done(O.ReconSplit(a, b, curLen))
  {
    AppendNil(a);
    AppendNil(b);
  }

  /** Deals a recon list out to the two parts of a split; fails if an assertion does. */
  method SplitRecon(reconList: seq<Entry>, splitPos: nat)
    returns (ok: bool, firstRecon: seq<Entry>, secondRecon: seq<Entry>, reconCurLen: nat)
    requires ValidEntries(reconList)
    ensures ValidEntries(firstRecon) && ValidEntries(secondRecon)
    ensures forall e :: e in firstRecon || e in secondRecon ==> fresh(e.chunk)
    ensures O.SplitReconFrom(ReconOf(reconList, 0), splitPos, 0)
         == if ok then Done(O.ReconSplit(ReconOf(firstRecon, 0), ReconOf(secondRecon, 0), reconCurLen))
            else AssertionFailed
  {
    hide Good, Cells, ReconOf, O.SplitReconFrom, Append, Following;
    firstRecon, secondRecon, reconCurLen := [], [], 0;
    ghost var split := O.SplitReconFrom(ReconOf(reconList, 0), splitPos, 0);
    SplitStarts(split);
    var item := 0;
    while item < |reconList|
      invariant item <= |reconList| && ValidEntries(firstRecon) && ValidEntries(secondRecon)
      invariant forall e :: e in firstRecon || e in secondRecon ==> fresh(e.chunk)
      invariant Following(ReconOf(firstRecon, 0), ReconOf(secondRecon, 0),
                          O.SplitReconFrom(ReconOf(reconList, item), splitPos, reconCurLen)) == split
    {
      var recon := reconList[item];
      ReconIs(reconList, item);
      SplitIs(ReconOf(firstRecon, 0), ReconOf(secondRecon, 0), O.Recon(recon.position, recon.chunk.Contents()),
              ReconOf(reconList, item + 1), splitPos, reconCurLen);
      if recon.position < reconCurLen {
        ok := false;
        return;
      }
      var copy := recon.chunk.Copy();
      if recon.position - reconCurLen <= splitPos {
        var newRecon := Entry(recon.position, copy);
        ReconSnoc(firstRecon, newRecon, 0);
        firstRecon := firstRecon + [newRecon];
        reconCurLen := reconCurLen + recon.chunk.length;
      } else {
        var newRecon := Entry(recon.position - (splitPos + reconCurLen), copy);
        ReconSnoc(secondRecon, newRecon, 0);
        secondRecon := secondRecon + [newRecon];
      }
      item := item + 1;
    }
    ReconIs(reconList, item);
    SplitEnds(ReconOf(firstRecon, 0), ReconOf(secondRecon, 0), splitPos, reconCurLen);
    ok := true;
  }

  // ----- making a remote deletion reversible -----

  ghost predicate ValidLeaves(leaves: seq<RemoteDeleteOperation>)
    reads leaves, set l, e | l in leaves && e in l.recon :: e.chunk
  {
    forall l :: l in leaves ==> l.Valid()
  }

  /** The leaves from leaf i on. */
  ghost function LeavesOf(leaves: seq<RemoteDeleteOperation>, i: nat): seq<O.Deletion>
    requires i <= |leaves|
    reads leaves, set l, e | l in leaves && e in l.recon :: e.chunk
    decreases |leaves| - i
  {
    if i == |leaves| then [] else [leaves[i].Value()] + LeavesOf(leaves, i + 1)
  }

  lemma {:induction false} LeavesOfFit(leaves: seq<RemoteDeleteOperation>, i: nat, n: nat)
    requires i <= |leaves| && forall l :: l in leaves ==> l.position + l.length <= n
    ensures Reversal.LeavesFit(LeavesOf(leaves, i), n)
    decreases |leaves| - i
  {
    if i < |leaves| {
      LeavesOfFit(leaves, i + 1, n);
    }
  }

  lemma LeavesIs(leaves: seq<RemoteDeleteOperation>, i: nat)
    requires i <= |leaves|
    ensures i == |leaves| ==> LeavesOf(leaves, i) == []
    ensures i < |leaves| ==> var v := LeavesOf(leaves, i);
      v != [] && v[0] == leaves[i].Value() && v[1..] == LeavesOf(leaves, i + 1)
  {
  }

  /** Appends the texts of a recon list to a chunk; fails if one of them leaves a gap. */
  method AppendAll(reconList: seq<Entry>, reconOffset: nat, chunk: Chunk) returns (ok: bool)
    requires ValidEntries(reconList) && chunk.Valid() && forall e :: e in reconList ==> e.chunk != chunk
    modifies chunk
    ensures chunk.Valid()
    ensures Reversal.AppendRecon(ReconOf(reconList, 0), reconOffset, old(chunk.Contents()))
         == if ok then Done(chunk.Contents()) else AssertionFailed
  {
    hide Good, Cells, ReconOf, Reversal.AppendRecon, Splice;
    ghost var all := Reversal.AppendRecon(ReconOf(reconList, 0), reconOffset, chunk.Contents());
    var item := 0;
    while item < |reconList|
      invariant item <= |reconList| && chunk.Valid() && ValidEntries(reconList)
      invariant Reversal.AppendRecon(ReconOf(reconList, item), reconOffset, chunk.Contents()) == all
      invariant ReconOf(reconList, 0) == old(ReconOf(reconList, 0))
    {
      var recon := reconList[item];
      ReconIs(reconList, item);
      AppendIs(O.Recon(recon.position, recon.chunk.Contents()), ReconOf(reconList, item + 1), reconOffset,
               chunk.Contents());
      if reconOffset + recon.position != chunk.length {
        ok := false;
        return;
      }
      chunk.InsertChunk(chunk.length, recon.chunk);
      item := item + 1;
    }
    ReconIs(reconList, item);
    ok := true;
    AppendEnds(reconOffset, chunk.Contents());
  }

  lemma AppendIs(r: O.Recon, rest: List<O.Recon>, offset: nat, chunk: seq<Cell>)
    ensures Reversal.AppendRecon(Cons(r, rest), offset, chunk)
      == if offset + r.position != |chunk| then AssertionFailed
         else Reversal.AppendRecon(rest, offset, Splice(chunk, |chunk|, r.chunk))
  {
    assert Splice(chunk, |chunk|, r.chunk) == chunk + r.chunk;
  }

  lemma AppendEnds(offset: nat, chunk: seq<Cell>)
    ensures Reversal.AppendRecon(Nil, offset, chunk) == Done(chunk)
  {
  }

  lemma CollectIs(leaves: seq<O.Deletion>, s: seq<Cell>, chunk: seq<Cell>)
    requires Reversal.LeavesFit(leaves, |s|) && leaves != [] && leaves[0].RemoteDelete?
    ensures Reversal.LeavesFit(leaves[1..], |s|)
    ensures Reversal.Collect(leaves, s, chunk)
         == match Reversal.AppendRecon(Reversal.FullRecon(leaves[0], s), leaves[0].reconOffset, chunk)
            case Done(c) => Reversal.Collect(leaves[1..], s, c)
            case AssertionFailed => AssertionFailed
  {
  }

  lemma CollectEnds(s: seq<Cell>, chunk: seq<Cell>)
    ensures Reversal.Collect([], s, chunk) == Done(chunk)
  {
  }

  /** Collects the text of op from its transformed leaves, which are in order, and from the buffer. */
  method MakeReversible(op: RemoteDeleteOperation, list: seq<RemoteDeleteOperation>, buffer: DefaultBuffer)
    returns (result: Outcome<DefaultDeleteOperation>)
    requires buffer.Valid() && ValidLeaves(list)
    requires forall l :: l in list ==> l.position + l.length <= buffer.chunk.length
    ensures Reversal.LeavesFit(LeavesOf(list, 0), |buffer.Contents()|)
    ensures match Reversal.Collect(LeavesOf(list, 0), buffer.Contents(), [])
            case Done(chunk) => && result.Done? && fresh(result.value) && result.value.Valid()
                                && result.value.Value() == O.DefaultDelete(op.position, chunk)
            case AssertionFailed => result.AssertionFailed?
  {
    hide Good, Cells, ReconOf, LeavesOf, Reversal.Collect, Reversal.FullRecon;
    LeavesOfFit(list, 0, |buffer.Contents()|);
    var chunk := new Chunk();
    NoCells();
    ghost var s := buffer.Contents();
    ghost var all := Reversal.Collect(LeavesOf(list, 0), s, []);
    var item := 0;
    while item < |list|
      invariant item <= |list| && fresh(chunk) && chunk.Valid()
      invariant Reversal.LeavesFit(LeavesOf(list, item), |s|)
      invariant Reversal.Collect(LeavesOf(list, item), s, chunk.Contents()) == all
    {
      LeavesIs(list, item);
      CollectIs(LeavesOf(list, item), s, chunk.Contents());
      var ok := AppendLeaf(list[item], buffer, chunk);
      LeavesOfFit(list, item + 1, |s|);
      if !ok {
        return AssertionFailed;
      }
      item := item + 1;
    }
    LeavesIs(list, item);
    CollectEnds(s, chunk.Contents());
    var made := new DefaultDeleteOperation(op.position, chunk);
    result := Done(made);
  }

  /** Appends what a leaf has recorded and what is left for it in the buffer. */
  method AppendLeaf(leaf: RemoteDeleteOperation, buffer: DefaultBuffer, chunk: Chunk) returns (ok: bool)
    requires buffer.Valid() && leaf.Valid() && leaf.position + leaf.length <= buffer.chunk.length
    requires chunk.Valid() && chunk != buffer.chunk && forall e :: e in leaf.recon ==> e.chunk != chunk
    modifies chunk
    ensures chunk.Valid()
    ensures Reversal.AppendRecon(Reversal.FullRecon(leaf.Value(), buffer.Contents()), leaf.reconOffset,
                                 old(chunk.Contents()))
         == if ok then Done(chunk.Contents()) else AssertionFailed
  {
    hide Good, Cells, ReconOf, Reversal.AppendRecon, O.ReconFeed;
    var reconList;
    if leaf.length > 0 {
      var tempSlice := buffer.GetSlice(leaf.position, leaf.length);
      reconList := ReconFeed(leaf.recon, 0, tempSlice);
    } else {
      reconList := leaf.recon;
    }
    assert ReconOf(reconList, 0) == Reversal.FullRecon(leaf.Value(), buffer.Contents());
    ok := AppendAll(reconList, leaf.reconOffset, chunk);
  }

  /** Made on document s, gone past any genuine operations to what the leaves in the list are, a
      remote deletion gets back the characters and authors it was to delete. */
  method MakeReversibleRecovers(op: RemoteDeleteOperation, list: seq<RemoteDeleteOperation>, buffer: DefaultBuffer,
                                ghost s: seq<Cell>, ghost ops: seq<O.Operation>, ghost with: O.Deletion)
    returns (result: DefaultDeleteOperation)
    requires buffer.Valid() && ValidLeaves(list) && op.position + op.length <= |s|
    requires forall l :: l in list ==> l.position + l.length <= buffer.chunk.length
    requires Reversal.Runs(ops, s) && buffer.Contents() == Reversal.DocumentAfterAll(ops, s)
    requires Reversal.TransformAlong(O.NewRemoteDelete(op.position, op.length), ops) == Done(with)
    requires LeavesOf(list, 0) == O.Unsplit(with)
    ensures fresh(result) && result.Valid()
    ensures result.Value() == O.DefaultDelete(op.position, s[op.position..op.position + op.length])
  {
    hide Good, Cells, ReconOf, LeavesOf, Reversal.Collect, Reversal.Runs, Reversal.TransformAlong;
    Reversal.UndoReconstruction(s, op.position, op.length, ops);
    var made := MakeReversible(op, list, buffer);
    result := made.value;
  }
}
