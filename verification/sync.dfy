/** Sending the text of a session to a new participant, and taking it in. */
module Synchronization {
  import opened Masks
  import opened Text
  import opened Utf8
  import opened Segments
  import opened Chunks
  import opened Buffers
  import opened Edits

  const PIECE_BYTES := 1024

  /** A sync-segment message: some text in UTF-8 and the number of its author. */
  datatype RawMessage = SyncSegment(text: seq<Byte>, author: nat)

  type Message = m: RawMessage | WellFormed(m.text) witness SyncSegment([], 0)

  datatype SyncResult = Synchronized | NoSuchUser(author: nat)

  /** What a message can hold: some whole characters, but not too many bytes of them. */
  predicate Sendable(m: Message) {
    0 < |m.text| <= PIECE_BYTES
  }

  ghost predicate AllSendable(ms: seq<Message>) {
    forall m :: m in ms ==> Sendable(m)
  }

  /** The characters and authors that messages hold. */
  function MessageCells(ms: seq<Message>): seq<Cell> {
    if ms == [] then [] else Tag(Chars(ms[0].text), ms[0].author) + MessageCells(ms[1..])
  }

  lemma {:induction false} MessageCellsSnoc(ms: seq<Message>, m: Message)
    ensures MessageCells(ms + [m]) == MessageCells(ms) + Tag(Chars(m.text), m.author)
  {
    hide Chars, WellFormed, Tag;
    if ms == [] {
      assert ms + [m] == [m] && [m][1..] == [];
    } else {
      assert (ms + [m])[0] == ms[0] && (ms + [m])[1..] == ms[1..] + [m];
      MessageCellsSnoc(ms[1..], m);
      Reassociate(Tag(Chars(ms[0].text), ms[0].author), MessageCells(ms[1..]), Tag(Chars(m.text), m.author));
    }
  }

  // ----- the sender -----

  /** Converts as many whole characters as fit into one message; bytes is how much is left. */
  method SegmentToXml(text: seq<Byte>, author: nat) returns (m: Message, bytes: nat)
    requires WellFormed(text) && text != []
    ensures Sendable(m) && m.author == author && bytes == |text| - |m.text| < |text|
    ensures text == m.text + text[|m.text|..] && WellFormed(text[|m.text|..])
    ensures bytes > 0 ==> |m.text| + Width(text[|m.text|]) > PIECE_BYTES
  {
    hide WellFormed, Chars, Index;
    ghost var k: nat := 0;
    IndexStarts(text);
    var converted := 0;
    while converted < |text| && Width(text[converted]) <= PIECE_BYTES - converted
      invariant k <= |Chars(text)| && converted == Index(text, k) <= |text| && converted <= PIECE_BYTES
      invariant k == 0 ==> converted == 0
      invariant 0 < k ==> 0 < converted
      decreases |text| - converted
    {
      IndexMonotone(text, k, |Chars(text)|);
      IndexNext(text, k);
      IndexMonotone(text, k, k + 1);
      converted := converted + Width(text[converted]);
      k := k + 1;
    }
    FirstFits(text);
    CharsAt(text, k);
    Parts(text[..converted], text[converted..]);
    m := SyncSegment(text[..converted], author);
    bytes := |text| - converted;
    assert text == text[..converted] + text[converted..];
  }

  lemma IndexStarts(text: seq<Byte>)
    requires WellFormed(text)
    ensures Index(text, 0) == 0
  {
  }

  lemma FirstFits(text: seq<Byte>)
    requires WellFormed(text) && text != []
    ensures Width(text[0]) <= 4
  {
  }

  /** Taking a message off the front of what is left of a text. */
  lemma MessageSent(ms: seq<Message>, m: Message, rest: seq<Byte>, all: seq<Cell>)
    requires AllSendable(ms) && Sendable(m) && WellFormed(rest) && WellFormed(m.text + rest)
    requires MessageCells(ms) + Tag(Chars(m.text + rest), m.author) == all
    ensures AllSendable(ms + [m]) && MessageCells(ms + [m]) + Tag(Chars(rest), m.author) == all
  {
    hide WellFormed, Chars, Tag, MessageCells;
    MessageCellsSnoc(ms, m);
    TextAppend(m.text, rest, m.author);
    Reassociate(MessageCells(ms), Tag(Chars(m.text), m.author), Tag(Chars(rest), m.author));
  }

  lemma NothingLeft(cells: seq<Cell>, author: nat)
    ensures WellFormed([]) && cells + Tag(Chars([]), author) == cells
  {
  }

  lemma DropTwice<T>(s: seq<T>, i: nat, j: nat)
    requires i + j <= |s|
    ensures s[i..][j..] == s[i + j..]
  {
  }

  /** Of the messages from i on, all but the last one are full: what follows would not have fit. */
  ghost predicate AllFull(ms: seq<Message>, i: nat)
    requires AllSendable(ms)
  {
    forall k :: i <= k < |ms| - 1 ==>
      var next := ms[k + 1]; assert Sendable(next); |ms[k].text| + Width(next.text[0]) > 1024
  }

  /** Cuts a segment into messages, each of them but the last one full. */
  method SegmentToMessages(segment: Segment, before: seq<Message>) returns (ms: seq<Message>)
    requires AllSendable(before)
    ensures AllSendable(ms) && MessageCells(ms) == MessageCells(before) + SegmentCells(segment)
    ensures before <= ms && AllFull(ms, |before|)
    ensures forall k :: |before| <= k < |ms| ==> ms[k].author == segment.author
  {
    hide WellFormed, Chars, Tag, MessageCells, Sendable;
    ms := before;
    ghost var all := MessageCells(before) + SegmentCells(segment);
    var totalBytes: nat := |segment.text|;
    var bytesLeft: nat := totalBytes;
    assert segment.text[0..] == segment.text;
    while bytesLeft > 0
      invariant bytesLeft <= totalBytes && AllSendable(ms)
      invariant before <= ms && AllFull(ms, |before|)
      invariant forall k :: |before| <= k < |ms| ==> ms[k].author == segment.author
      invariant bytesLeft > 0 && |ms| > |before| ==>
          |ms[|ms| - 1].text| + Width(segment.text[totalBytes - bytesLeft]) > 1024
      invariant WellFormed(segment.text[totalBytes - bytesLeft..])
      invariant MessageCells(ms) + Tag(Chars(segment.text[totalBytes - bytesLeft..]), segment.author) == all
    {
      var rest := segment.text[totalBytes - bytesLeft..];
      var m, left := SegmentToXml(rest, segment.author);
      MessageSent(ms, m, rest[|m.text|..], all);
      DropTwice(segment.text, totalBytes - bytesLeft, |m.text|);
      ms := ms + [m];
      bytesLeft := left;
    }
    assert segment.text[totalBytes..] == [];
    NothingLeft(MessageCells(ms), segment.author);
  }

  lemma InBounds(ms: seq<Message>)
    requires AllSendable(ms)
    ensures forall m :: m in ms ==> 0 < |m.text| <= 1024
  {
  }

  /** Cuts the segments of a buffer into messages. */
  method ToXmlSync(buffer: DefaultBuffer) returns (ms: seq<Message>)
    ensures AllSendable(ms) && MessageCells(ms) == buffer.Contents()
    ensures forall m :: m in ms ==> 0 < |m.text| <= 1024
  {
    hide Sendable;
    ms := [];
    var segments := buffer.chunk.segments;
    var iter := 0;
    while iter < |segments|
      invariant iter <= |segments| && AllSendable(ms)
      invariant MessageCells(ms) == Cells(segments[..iter])
    {
      OneMore(segments, iter);
      CellsAppend(segments[..iter], [segments[iter]]);
      OneSegment(segments[iter], 0);
      ms := SegmentToMessages(segments[iter], ms);
      iter := iter + 1;
    }
    assert segments[..iter] == segments;
    InBounds(ms);
  }

  // ----- the receiver -----

  /** Takes one message in: its text is appended to the buffer, unless it has an author and nobody
      is known by his number.  A text without characters would not leave the buffer canonical. */
  method ProcessXmlSync(m: Message, users: set<nat>, buffer: DefaultBuffer) returns (result: SyncResult)
    requires buffer.Valid()
    modifies buffer`modified, buffer.chunk
    ensures result == if m.author != 0 && m.author !in users then NoSuchUser(m.author) else Synchronized
    ensures result == Synchronized ==>
      && buffer.Contents() == old(buffer.Contents()) + Tag(Chars(m.text), m.author)
      && buffer.chunk.length == |buffer.Contents()| && (buffer.Valid() <==> m.text != [])
    ensures result.NoSuchUser? ==>
      buffer.chunk.segments == old(buffer.chunk.segments) && buffer.chunk.length == old(buffer.chunk.length)
  {
    hide Good, Cells, WellFormed, Chars, Tag, Splice;
    if m.author != 0 {
      if m.author !in users {
        return NoSuchUser(m.author);
      }
    }
    SpliceAtEnd(buffer.Contents(), Tag(Chars(m.text), m.author));
    buffer.InsertText(buffer.chunk.length, m.text, |Chars(m.text)|, m.author);
    result := Synchronized;
  }

  lemma SpliceAtEnd<T>(s: seq<T>, x: seq<T>)
    ensures Splice(s, |s|, x) == s + x
  {
  }

  /** Messages that have an author are by known users exactly if the characters that have one are. */
  lemma {:induction false} KnownAuthors(ms: seq<Message>, users: set<nat>)
    requires AllSendable(ms)
    ensures (forall m :: m in ms && m.author != 0 ==> m.author in users)
       <==> forall c :: c in MessageCells(ms) && c.author != 0 ==> c.author in users
  {
    hide WellFormed;
    if ms != [] {
      KnownAuthors(ms[1..], users);
      var first := Tag(Chars(ms[0].text), ms[0].author);
      assert Sendable(ms[0]) && ms[0].text != [];
      assert first != [] && first[0].author == ms[0].author && first[0] in MessageCells(ms);
      assert forall c :: c in first ==> c.author == ms[0].author;
      assert forall c :: c in MessageCells(ms) <==> c in first || c in MessageCells(ms[1..]);
      assert forall m :: m in ms <==> m == ms[0] || m in ms[1..];
    }
  }

  /** A new participant gets the text of a session, message by message.  He ends up with the
      same segments, unless he does not know one of the authors. */
  method Synchronize(sender: DefaultBuffer, users: set<nat>, receiver: DefaultBuffer) returns (result: SyncResult)
    requires sender.Valid() && receiver.Valid() && receiver.chunk.length == 0 && receiver.chunk != sender.chunk
    modifies receiver`modified, receiver.chunk
    ensures receiver.Valid() && receiver.Contents() <= sender.Contents()
    ensures result == Synchronized
       <==> forall c :: c in sender.Contents() && c.author != 0 ==> c.author in users
    ensures result == Synchronized ==>
      receiver.chunk.segments == sender.chunk.segments && receiver.chunk.length == sender.chunk.length
    ensures result.NoSuchUser? ==>
      && result.author != 0 && result.author !in users
      && exists c :: c in sender.Contents() && c.author == result.author
  {
    hide Good, Cells, WellFormed, Chars, Tag, MessageCells;
    var ms := ToXmlSync(sender);
    KnownAuthors(ms, users);
    NothingSent(receiver.Contents());
    var item := 0;
    while item < |ms|
      invariant item <= |ms| && receiver.Valid()
      invariant receiver.Contents() == MessageCells(ms[..item])
      invariant forall i :: 0 <= i < item ==> ms[i].author == 0 || ms[i].author in users
    {
      MessagesTaken(ms, item);
      result := ProcessXmlSync(ms[item], users, receiver);
      if result.NoSuchUser? {
        assert ms[item] in ms;
        AuthorOccurs(ms, item);
        return;
      }
      item := item + 1;
    }
    assert ms[..item] == ms;
    CanonicalUnique(receiver.chunk.segments, sender.chunk.segments, 0);
    result := Synchronized;
  }

  /** The author of a message is the author of some character. */
  lemma AuthorOccurs(ms: seq<Message>, i: nat)
    requires AllSendable(ms) && i < |ms|
    ensures exists c :: c in MessageCells(ms) && c.author == ms[i].author
  {
    hide WellFormed, MessageCells, Chars;
    MessagesTaken(ms, i);
    var cells := Tag(Chars(ms[i].text), ms[i].author);
    assert Sendable(ms[i]);
    NoCharacters(ms[i].text);
    assert cells[0].author == ms[i].author && cells[0] in MessageCells(ms[..i + 1]);
    MessagesTakenIn(ms, i + 1);
  }

  lemma NoCharacters(text: seq<Byte>)
    requires WellFormed(text)
    ensures Chars(text) == [] <==> text == []
  {
  }

  lemma MessagesTakenIn(ms: seq<Message>, i: nat)
    requires i <= |ms|
    ensures forall c :: c in MessageCells(ms[..i]) ==> c in MessageCells(ms)
  {
    hide MessageCells;
    MessagesPrefix(ms, i);
  }

  lemma NothingSent(cells: seq<Cell>)
    requires |cells| == 0
    ensures forall ms: seq<Message> :: cells == MessageCells(ms[..0])
  {
  }

  lemma MessagesTaken(ms: seq<Message>, i: nat)
    requires AllSendable(ms) && i < |ms|
    ensures Sendable(ms[i])
    ensures MessageCells(ms[..i + 1]) == MessageCells(ms[..i]) + Tag(Chars(ms[i].text), ms[i].author)
    ensures MessageCells(ms[..i]) <= MessageCells(ms)
  {
    hide Chars, WellFormed, Tag, MessageCells, Sendable;
    OneMore(ms, i);
    MessageCellsSnoc(ms[..i], ms[i]);
    MessagesPrefix(ms, i);
  }

  lemma OneMore<T>(s: seq<T>, i: nat)
    requires i < |s|
    ensures s[..i + 1] == s[..i] + [s[i]]
  {
  }

  lemma {:induction false} MessagesPrefix(ms: seq<Message>, i: nat)
    requires i <= |ms|
    ensures MessageCells(ms[..i]) <= MessageCells(ms)
  {
    hide Chars, WellFormed, Tag;
    if i > 0 {
      MessagesPrefix(ms[1..], i - 1);
      assert ms[..i][1..] == ms[1..][..i - 1];
    }
  }
}
