/** Insert and delete operations and the way one is transformed against another. */
module Operations {
  import opened Masks
  import opened Text

  /** Which of two insertions at one position is moved: the operation itself or the other one. */
  datatype ConcurrencyId = Self | NoId | Other

  /** Text that another deletion took out from under a remote deletion.  The
      position counts characters from the start of the text this deletion had to
      delete originally. */
  datatype Recon = Recon(position: nat, chunk: seq<Cell>)

  datatype Deletion =
    | DefaultDelete(position: nat, chunk: seq<Cell>)
    | RemoteDelete(position: nat, length: nat, recon: List<Recon>, reconOffset: nat)
    | SplitDelete(first: Deletion, second: Deletion)

  datatype Operation =
    | Insert(position: nat, chunk: seq<Cell>)
    | Delete(deletion: Deletion)

  function NewRemoteDelete(position: nat, length: nat): Deletion {
    RemoteDelete(position, length, Nil, 0)
  }

  /** The number of characters a leaf deletes. */
  function Length(d: Deletion): nat
    requires !d.SplitDelete?
  {
    if d.DefaultDelete? then |d.chunk| else d.length
  }

  /** The number of leaves. */
  function Size(d: Deletion): (n: nat)
    ensures 0 < n
  {
    if d.SplitDelete? then Size(d.first) + Size(d.second) else 1
  }

  /** No leaf is a remote deletion. */
  predicate AllDefault(d: Deletion) {
    match d
    case DefaultDelete(_, _) => true
    case RemoteDelete(_, _, _, _) => false
    case SplitDelete(a, b) => AllDefault(a) && AllDefault(b)
  }

  /** The leaves in order. */
  function Unsplit(d: Deletion): seq<Deletion> {
    if d.SplitDelete? then Unsplit(d.first) + Unsplit(d.second) else [d]
  }

  // ----- the recon list -----

  /** Adds the text from textPos on to a recon list of which curLen characters lie behind. */
  function FeedFrom(recon: List<Recon>, position: nat, chunk: seq<Cell>, textPos: nat, curLen: nat): List<Recon>
    requires textPos <= |chunk|
  {
    var at := position + textPos + curLen;
    match recon
    case Nil =>
      if textPos < |chunk| then Cons(Recon(at, chunk[textPos..]), Nil) else Nil
    case Cons(r, rest) =>
      if at < r.position && textPos < |chunk| then
        var n := if r.position - at > |chunk| - textPos then |chunk| - textPos else r.position - at;
        Cons(Recon(at, chunk[textPos..textPos + n]),
             Cons(r, FeedFrom(rest, position, chunk, textPos + n, curLen + |r.chunk|)))
      else
        Cons(r, FeedFrom(rest, position, chunk, textPos, curLen + |r.chunk|))
  }

  /** Records that chunk was taken out at a position of the text that is still to be deleted. */
  function ReconFeed(recon: List<Recon>, position: nat, chunk: seq<Cell>): List<Recon> {
    FeedFrom(recon, position, chunk, 0, 0)
  }

  /** The recon lists of the two parts of a split, and the length of the text in the first. */
  datatype ReconSplit = ReconSplit(first: List<Recon>, second: List<Recon>, curLen: nat)

  function SplitReconFrom(recon: List<Recon>, splitPos: nat, curLen: nat): Outcome<ReconSplit> {
    match recon
    case Nil => Done(ReconSplit(Nil, Nil, curLen))
    case Cons(r, tail) =>
      if r.position < curLen then AssertionFailed
      else if r.position - curLen <= splitPos then
        var rest :- SplitReconFrom(tail, splitPos, curLen + |r.chunk|);
        Done(rest.(first := Cons(r, rest.first)))
      else
        var rest :- SplitReconFrom(tail, splitPos, curLen);
        Done(rest.(second := Cons(Recon(r.position - (splitPos + curLen), r.chunk), rest.second)))
  }

  // ----- what each kind of deletion does -----

  function TransformPosition(d: Deletion, position: nat): Deletion
    requires !d.SplitDelete?
  {
    d.(position := position)
  }

  /** Takes out of d the length characters from begin on, which are the characters of other from otherBegin on. */
  function TransformOverlap(d: Deletion, other: Deletion, position: nat,
                            begin: nat, otherBegin: nat, length: nat): (r: Outcome<Deletion>)
    requires !d.SplitDelete? && !other.SplitDelete?
    requires begin + length <= Length(d) && otherBegin + length <= Length(other)
    ensures r.Done? ==> !r.value.SplitDelete?
    ensures r.Done? ==> r.value.position == position && Length(r.value) == Length(d) - length
    ensures d.DefaultDelete? || other.DefaultDelete? ==> r.Done?
  {
    match d
    case DefaultDelete(_, chunk) => Done(DefaultDelete(position, Cut(chunk, begin, length)))
    case RemoteDelete(_, len, recon, offset) =>
      if !other.DefaultDelete? then AssertionFailed
      else
        var chunk := other.chunk[otherBegin..otherBegin + length];
        Done(RemoteDelete(position, len - length, ReconFeed(recon, begin, chunk), offset))
  }

  /** Cuts d in two around splitLen characters that now stand splitPos characters into it. */
  function TransformSplit(d: Deletion, splitPos: nat, splitLen: nat): Outcome<Deletion>
    requires !d.SplitDelete? && splitPos <= Length(d)
  {
    match d
    case DefaultDelete(position, chunk) =>
      Done(SplitDelete(DefaultDelete(position, chunk[..splitPos]),
                       DefaultDelete(position + splitPos + splitLen, chunk[splitPos..])))
    case RemoteDelete(position, length, recon, offset) =>
      var parts :- SplitReconFrom(recon, splitPos, 0);
      Done(SplitDelete(RemoteDelete(position, splitPos, parts.first, offset),
                       RemoteDelete(position + splitPos + splitLen, length - splitPos, parts.second,
                                    offset + splitPos + parts.curLen)))
  }

  // ----- transforming deletions -----

  function LeafAgainstInsert(d: Deletion, otherPos: nat, otherLen: nat): Outcome<Deletion>
    requires !d.SplitDelete?
  {
    if otherPos >= d.position + Length(d) then Done(d)
    else if otherPos <= d.position then Done(TransformPosition(d, d.position + otherLen))
    else TransformSplit(d, otherPos - d.position, otherLen)
  }

  function LeafAgainstLeaf(d: Deletion, against: Deletion): Outcome<Deletion>
    requires !d.SplitDelete? && !against.SplitDelete?
  {
    var ownPos, ownLen := d.position, Length(d);
    var otherPos, otherLen := against.position, Length(against);
    if ownPos + ownLen <= otherPos then Done(d)
    else if ownPos >= otherPos + otherLen then Done(TransformPosition(d, ownPos - otherLen))
    else if otherPos <= ownPos && otherPos + otherLen >= ownPos + ownLen then
      TransformOverlap(d, against, otherPos, 0, ownPos - otherPos, ownLen)
    else if otherPos <= ownPos && otherPos + otherLen < ownPos + ownLen then
      TransformOverlap(d, against, otherPos, 0, ownPos - otherPos, otherPos + otherLen - ownPos)
    else if otherPos > ownPos && otherPos + otherLen >= ownPos + ownLen then
      TransformOverlap(d, against, ownPos, otherPos - ownPos, 0, ownPos + ownLen - otherPos)
    else
      TransformOverlap(d, against, ownPos, otherPos - ownPos, 0, otherLen)
  }

  /** A deletion past an insertion: each part of a split goes past it by itself. */
  function DeletionAgainstInsert(d: Deletion, otherPos: nat, otherLen: nat): (r: Outcome<Deletion>)
    ensures AllDefault(d) ==> r.Done? && AllDefault(r.value)
  {
    if d.SplitDelete? then
      var first :- DeletionAgainstInsert(d.first, otherPos, otherLen);
      var second :- DeletionAgainstInsert(d.second, otherPos, otherLen);
      Done(SplitDelete(first, second))
    else LeafAgainstInsert(d, otherPos, otherLen)
  }

  /** A deletion past a deletion.  The parts of a split stand in one document, so going
      past a split is going past its first part and then past the transformed second. */
  function DeletionAgainstDeletion(d: Deletion, against: Deletion): (r: Outcome<Deletion>)
    ensures r.Done? ==> Size(r.value) == Size(d)
    ensures AllDefault(d) && AllDefault(against) ==> r.Done?
    ensures AllDefault(d) && r.Done? ==> AllDefault(r.value)
    decreases Size(against), Size(d)
  {
    if against.SplitDelete? then
      var d1 :- DeletionAgainstDeletion(d, against.first);
      var second :- DeletionAgainstDeletion(against.second, against.first);
      DeletionAgainstDeletion(d1, second)
    else if d.SplitDelete? then
      var first :- DeletionAgainstDeletion(d.first, against);
      var second :- DeletionAgainstDeletion(d.second, against);
      Done(SplitDelete(first, second))
    else LeafAgainstLeaf(d, against)
  }

  // ----- transforming insertions -----

  /** The position of an insertion past a deletion. */
  function PositionAgainstDeletion(ownPos: nat, against: Deletion): (r: Outcome<nat>)
    ensures AllDefault(against) ==> r.Done?
    decreases Size(against)
  {
    if against.SplitDelete? then
      var p :- PositionAgainstDeletion(ownPos, against.first);
      var second :- DeletionAgainstDeletion(against.second, against.first);
      PositionAgainstDeletion(p, second)
    else
      var otherPos, otherLen := against.position, Length(against);
      if ownPos >= otherPos + otherLen then Done(ownPos - otherLen)
      else if ownPos < otherPos then Done(ownPos)
      else Done(otherPos)
  }

  /** The position of an insertion past another insertion. */
  function PositionAgainstInsert(ownPos: nat, otherPos: nat, otherLen: nat, cid: ConcurrencyId): Outcome<nat> {
    if ownPos < otherPos || (ownPos == otherPos && cid == Other) then Done(ownPos)
    else if ownPos > otherPos || (ownPos == otherPos && cid == Self) then Done(ownPos + otherLen)
    else AssertionFailed
  }

  function Transform(op: Operation, against: Operation, cid: ConcurrencyId): Outcome<Operation> {
    match op
    case Insert(position, chunk) =>
      var p :- (match against
                case Insert(otherPos, other) => PositionAgainstInsert(position, otherPos, |other|, cid)
                case Delete(e) => PositionAgainstDeletion(position, e));
      Done(Insert(p, chunk))
    case Delete(d) =>
      var d' :- (match against
                 case Insert(otherPos, other) => DeletionAgainstInsert(d, otherPos, |other|)
                 case Delete(e) => DeletionAgainstDeletion(d, e));
      Done(Delete(d'))
  }

  // ----- concurrency ids -----

  predicate NeedConcurrencyId(op: Operation, against: Operation) {
    op.Insert? && against.Insert? && op.position == against.position
  }

  function GetConcurrencyId(op: Operation, against: Operation): ConcurrencyId {
    if !op.Insert? || !against.Insert? then NoId
    else if op.position < against.position then Other
    else if op.position > against.position then Self
    else NoId
  }

  /** The id for the transformation the other way round. */
  function Flip(cid: ConcurrencyId): ConcurrencyId {
    match cid case Self => Other case NoId => NoId case Other => Self
  }

  // ----- undoing -----

  /** The operation that undoes op; a remote deletion has none, and a split is not covered. */
  function Revert(op: Operation): Operation
    requires op.Delete? ==> op.deletion.DefaultDelete?
  {
    match op
    case Insert(position, chunk) => Delete(DefaultDelete(position, chunk))
    case Delete(d) => Insert(d.position, d.chunk)
  }
}
