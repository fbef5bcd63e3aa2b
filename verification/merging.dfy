/** The document to which concurrent requests lead, told without transforming anything. */
module Merging {
  import opened Text
  import opened Masks
  import opened Operations
  import opened Effects
  import opened Convergence
  import opened Sites

  // ----- the specification -----

  /** Insertions on a document of n characters, the one that stands last first. */
  predicate LastFirst(ins: seq<Edit>, n: nat) {
    && (forall i :: 0 <= i < |ins| ==> ins[i].effect.Inserts? && ins[i].effect.position <= n)
    && forall i, j :: 0 <= i < j < |ins| ==> ins[j].effect.position <= ins[i].effect.position
  }

  /** What m leaves of s, with the inserted texts in the gaps at which they came in. */
  function Merged(s: seq<Cell>, m: seq<bool>, ins: seq<Edit>): seq<Cell>
    requires |m| == |s| && LastFirst(ins, |s|)
    decreases |ins|
  {
    if ins == [] then Erase(s, m)
    else
      var p := ins[0].effect.position;
      Merged(s[..p], m[..p], ins[1..]) + ins[0].effect.text + Erase(s[p..], m[p..])
  }

  /** The text of a stands before that of b: it came in at an earlier position, or at the same
      one by a user with a larger number. */
  predicate Ahead(a: Request, b: Request)
    requires a.op.Insert? && b.op.Insert?
  {
    a.op.position < b.op.position || (a.op.position == b.op.position && a.user > b.user)
  }

  predicate AllInsert(rs: seq<Request>) {
    forall i :: 0 <= i < |rs| ==> rs[i].op.Insert?
  }

  function PutIn(r: Request, sorted: seq<Request>): (l: seq<Request>)
    requires r.op.Insert? && AllInsert(sorted)
    ensures AllInsert(l)
  {
    if sorted == [] || Ahead(sorted[0], r) then [r] + sorted else [sorted[0]] + PutIn(r, sorted[1..])
  }

  /** The insertions among some requests, the one whose text stands last first. */
  function Insertions(rs: seq<Request>): (l: seq<Request>)
    ensures AllInsert(l)
  {
    if rs == [] then []
    else if rs[0].op.Insert? then PutIn(rs[0], Insertions(rs[1..]))
    else Insertions(rs[1..])
  }

  function Deletions(rs: seq<Request>): seq<Request> {
    if rs == [] then []
    else (if rs[0].op.Delete? then [rs[0]] else []) + Deletions(rs[1..])
  }

  /** The deletion names the character i. */
  predicate Names(d: Deletion, i: nat) {
    if d.SplitDelete? then Names(d.first, i) || Names(d.second, i)
    else d.position <= i < d.position + Length(d)
  }

  predicate IsDeleted(rs: seq<Request>, i: nat) {
    exists k :: 0 <= k < |rs| && rs[k].op.Delete? && Names(rs[k].op.deletion, i)
  }

  /** The characters that some request deletes. */
  function Deleted(rs: seq<Request>, n: nat): (m: seq<bool>)
    ensures |m| == n
  {
    seq(n, i requires 0 <= i < n => IsDeleted(rs, i))
  }

  // ----- insertions -----

  /** Insertions in the order of their places, the last one first. */
  predicate LastPlaceFirst(ins: seq<Edit>, n: nat) {
    LastFirst(ins, n) && forall i, j :: 0 <= i < j < |ins| ==> Precedes(ins[j], ins[i])
  }

  lemma Sooner(u: seq<Cell>, v: seq<Cell>, p: nat, x: seq<Cell>)
    requires p <= |u|
    ensures Splice(u + v, p, x) == u[..p] + (x + u[p..] + v)
  {
  }

  /** An insertion does not move those before it. */
  lemma NoneMoves(ins: seq<Edit>, n: nat, k: nat)
    requires LastPlaceFirst(ins, n) && ins != [] && n <= k
    ensures ins[0].effect.Inserts? && ins[0].effect.position <= n
    ensures AllOn(ins, k) && CarryAll(ins[1..], ins[0], k) == ins[1..]
    ensures LastPlaceFirst(ins[1..], ins[0].effect.position)
  {
  }

  lemma Regrouped3<T>(a: seq<T>, b: seq<T>, c: seq<T>, d: seq<T>)
    ensures a + (b + c + d) == a + b + c + d
  {
  }

  lemma ClearParts(s: seq<Cell>, p: nat)
    requires p <= |s|
    ensures Clear(|s|)[..p] == Clear(p) && Clear(|s|)[p..] == Clear(|s| - p)
    ensures Erase(s[p..], Clear(|s| - p)) == s[p..]
  {
    EraseClear(s[p..]);
  }

  lemma {:induction false} EnactInsertions(u: seq<Cell>, v: seq<Cell>, ins: seq<Edit>)
    requires LastPlaceFirst(ins, |u|)
    ensures AllOn(ins, |u + v|) && EnactAll(u + v, ins) == Merged(u, Clear(|u|), ins) + v
    decreases |ins|
  {
    hide Splice, Erase, Clear, LastPlaceFirst, Carry;
    if ins == [] {
      assert Erase(u, Clear(|u|)) == u by { EraseClear(u); }
    } else {
      NoneMoves(ins, |u|, |u + v|);
      var p, x := ins[0].effect.position, ins[0].effect.text;
      Sooner(u, v, p, x);
      ClearParts(u, p);
      EnactInsertions(u[..p], x + u[p..] + v, ins[1..]);
      Regrouped3(Merged(u[..p], Clear(p), ins[1..]), x, u[p..], v);
    }
  }

  // ----- deletions -----

  /** Insertions past a deletion. */
  function Ranked(ins: seq<Edit>, m: seq<bool>): (r: seq<Edit>)
    requires LastFirst(ins, |m|)
    ensures LastFirst(r, Survivors(m)) && |r| == |ins|
  {
    RanksInOrder(ins, m);
    seq(|ins|, i requires 0 <= i < |ins| =>
      ins[i].(effect := Inserts(Rank(m, ins[i].effect.position), ins[i].effect.text)))
  }

  lemma RanksInOrder(ins: seq<Edit>, m: seq<bool>)
    requires LastFirst(ins, |m|)
    ensures forall i :: 0 <= i < |ins| ==> Rank(m, ins[i].effect.position) <= Survivors(m)
    ensures forall i, j :: 0 <= i < j < |ins| ==>
      Rank(m, ins[j].effect.position) <= Rank(m, ins[i].effect.position)
  {
    hide Rank, Survivors, Splice;
    forall i | 0 <= i < |ins|
      ensures Rank(m, ins[i].effect.position) <= Survivors(m)
    {
      EraseAt(m, m, ins[i].effect.position);
    }
    forall i, j | 0 <= i < j < |ins|
      ensures Rank(m, ins[j].effect.position) <= Rank(m, ins[i].effect.position)
    {
      RankSplice(m, ins[i].effect.position, 0, ins[j].effect.position);
    }
  }

  /** The insertions before the last one, past a deletion: what is deleted behind that does not matter. */
  lemma RankedRest(ins: seq<Edit>, m: seq<bool>)
    requires LastFirst(ins, |m|) && ins != []
    ensures var p := ins[0].effect.position;
      LastFirst(ins[1..], p) && Ranked(ins, m)[1..] == Ranked(ins[1..], m[..p])
  {
    hide Survivors;
    var p := ins[0].effect.position;
    forall i | 0 < i < |ins|
      ensures Rank(m, ins[i].effect.position) == Rank(m[..p], ins[i].effect.position)
    {
      assert m[..ins[i].effect.position] == m[..p][..ins[i].effect.position];
    }
  }

  lemma OrParts(a: seq<bool>, b: seq<bool>, p: nat)
    requires |a| == |b| && p <= |a|
    ensures Or(a, b)[..p] == Or(a[..p], b[..p]) && Or(a, b)[p..] == Or(a[p..], b[p..])
  {
  }

  /** A deletion can come first, before the others and the insertions. */
  lemma {:induction false} MergedPast(s: seq<Cell>, a: seq<bool>, b: seq<bool>, ins: seq<Edit>)
    requires |s| == |a| == |b| && LastFirst(ins, |s|)
    ensures Merged(Erase(s, a), Erase(b, a), Ranked(ins, a)) == Merged(s, Or(a, b), ins)
    decreases |ins|
  {
    hide Erase, Or, Ranked, Survivors, Rank;
    if ins == [] {
      EraseTwice(s, a, b);
    } else {
      var p, r := ins[0].effect.position, Ranked(ins, a);
      var p' := Rank(a, p);
      RankedRest(ins, a);
      RankedFirst(ins, a);
      EraseAt(s, a, p);
      EraseAt(b, a, p);
      OrParts(a, b, p);
      MergedPast(s[..p], a[..p], b[..p], ins[1..]);
      EraseTwice(s[p..], a[p..], b[p..]);
    }
  }

  lemma RankedFirst(ins: seq<Edit>, m: seq<bool>)
    requires LastFirst(ins, |m|) && ins != []
    ensures Ranked(ins, m) != [] && Ranked(ins, m)[0].effect.position == Rank(m, ins[0].effect.position)
    ensures Ranked(ins, m)[0].effect.text == ins[0].effect.text
  {
  }

  predicate AllDelete(dels: seq<Edit>, n: nat) {
    forall i :: 0 <= i < |dels| ==> dels[i].effect.Deletes? && |dels[i].effect.mask| == n
  }

  function OrAll(dels: seq<Edit>, n: nat): (m: seq<bool>)
    requires AllDelete(dels, n)
    ensures |m| == n
  {
    if dels == [] then Clear(n) else Or(dels[0].effect.mask, OrAll(dels[1..], n))
  }

  lemma EraseOfClear(n: nat, m: seq<bool>)
    requires |m| == n
    ensures Erase(Clear(n), m) == Clear(Survivors(m))
  {
    var r := Erase(Clear(n), m);
    ErasedFrom(Clear(n), m);
    assert forall i :: 0 <= i < |r| ==> r[i] in r;
  }

  lemma {:induction false} ErasedFrom<T>(s: seq<T>, m: seq<bool>)
    requires |s| == |m|
    ensures forall x :: x in Erase(s, m) ==> x in s
  {
    if s != [] {
      ErasedFrom(s[1..], m[1..]);
      assert forall x :: x in s[1..] ==> x in s;
    }
  }

  /** Several deletions past another one. */
  lemma {:induction false} OrAllPast(dels: seq<Edit>, d: Edit, n: nat)
    requires AllDelete(dels, n) && d.effect.Deletes? && |d.effect.mask| == n && AllOn(dels, n)
    ensures var k := Survivors(d.effect.mask); var carried := CarryAll(dels, d, n);
      AllDelete(carried, k) && OrAll(carried, k) == Erase(OrAll(dels, n), d.effect.mask)
  {
    hide Erase, Or, Clear, Survivors;
    var k, carried := Survivors(d.effect.mask), CarryAll(dels, d, n);
    if dels == [] {
      EraseOfClear(n, d.effect.mask);
    } else {
      OrAllPast(dels[1..], d, n);
      assert carried[1..] == CarryAll(dels[1..], d, n);
      OrErase(dels[0].effect.mask, OrAll(dels[1..], n), d.effect.mask);
    }
  }

  lemma RankedCarried(ins: seq<Edit>, d: Edit, n: nat)
    requires LastPlaceFirst(ins, n) && d.effect.Deletes? && |d.effect.mask| == n
    ensures AllOn(ins, n) && CarryAll(ins, d, n) == Ranked(ins, d.effect.mask)
    ensures LastPlaceFirst(Ranked(ins, d.effect.mask), Survivors(d.effect.mask))
  {
    hide Rank, Survivors;
  }

  lemma CarryAllParts(es: seq<Edit>, fs: seq<Edit>, a: Edit, n: nat)
    requires On(a.effect, n) && AllOn(es, n) && AllOn(fs, n)
    ensures AllOn(es + fs, n) && CarryAll(es + fs, a, n) == CarryAll(es, a, n) + CarryAll(fs, a, n)
  {
    hide On, Carry;
  }

  lemma AllAreOn(dels: seq<Edit>, ins: seq<Edit>, n: nat)
    requires AllDelete(dels, n) && LastFirst(ins, n)
    ensures AllOn(dels, n) && AllOn(ins, n) && AllOn(dels + ins, n)
  {
  }

  /** The deletions first, and then the insertions, the last one first. */
  lemma {:induction false} EnactDeletions(s: seq<Cell>, dels: seq<Edit>, ins: seq<Edit>)
    requires AllDelete(dels, |s|) && LastPlaceFirst(ins, |s|)
    ensures AllOn(dels + ins, |s|) && EnactAll(s, dels + ins) == Merged(s, OrAll(dels, |s|), ins)
    decreases |dels|
  {
    hide Erase, Or, Clear, Survivors, Carry, CarryAll, Ranked, Merged, EnactAll;
    AllAreOn(dels, ins, |s|);
    if dels == [] {
      EnactInsertions(s, [], ins);
      assert dels + ins == ins && s + [] == s;
    } else {
      var d, rest, n := dels[0], dels[1..], |s|;
      var m := d.effect.mask;
      AllAreOn(rest, ins, n);
      OrAllPast(rest, d, n);
      RankedCarried(ins, d, n);
      CarryAllParts(rest, ins, d, n);
      EnactDeletions(Erase(s, m), CarryAll(rest, d, n), Ranked(ins, m));
      MergedPast(s, m, OrAll(rest, n), ins);
      OneStep(s, d, rest + ins);
      assert dels + ins == [d] + (rest + ins);
    }
  }

  // ----- requests -----

  predicate Sorted(l: seq<Request>)
    requires AllInsert(l)
  {
    forall i, j :: 0 <= i < j < |l| ==> Ahead(l[j], l[i])
  }

  /** The requests are by different users. */
  predicate ByOthers(r: Request, l: seq<Request>) {
    forall q :: q in l ==> q.user != r.user
  }

  lemma {:induction false} PutInElements(r: Request, l: seq<Request>)
    requires r.op.Insert? && AllInsert(l)
    ensures multiset(PutIn(r, l)) == multiset{r} + multiset(l)
    ensures forall q :: q in PutIn(r, l) ==> q == r || q in l
  {
    if l != [] && !Ahead(l[0], r) {
      PutInElements(r, l[1..]);
      assert l == [l[0]] + l[1..];
    }
  }

  lemma {:induction false} PutInSorted(r: Request, l: seq<Request>)
    requires r.op.Insert? && AllInsert(l) && Sorted(l) && ByOthers(r, l)
    ensures Sorted(PutIn(r, l))
  {
    if l != [] && !Ahead(l[0], r) {
      var rest := l[1..];
      PutInSorted(r, rest);
      var k := PutIn(r, rest);
      PutInElements(r, rest);
      assert l[0] in l;
      forall j | 0 <= j < |k|
        ensures Ahead(k[j], l[0])
      {
        assert k[j] in k;
      }
    }
  }

  predicate AllByOthers(rs: seq<Request>) {
    forall i, j :: 0 <= i < j < |rs| ==> rs[i].user != rs[j].user
  }

  /** Every request is one or the other. */
  lemma {:induction false} Parted(rs: seq<Request>)
    ensures multiset(Deletions(rs)) + multiset(Insertions(rs)) == multiset(rs)
    ensures forall q :: q in Insertions(rs) ==> q in rs
  {
    hide PutIn;
    if rs != [] {
      var r, rest := rs[0], rs[1..];
      Parted(rest);
      assert rs == [r] + rest;
      if r.op.Insert? {
        PutInElements(r, Insertions(rest));
        assert Deletions(rs) == Deletions(rest);
      } else {
        assert Insertions(rs) == Insertions(rest);
      }
    }
  }

  lemma {:induction false} InsertionsSorted(rs: seq<Request>)
    requires AllByOthers(rs)
    ensures Sorted(Insertions(rs))
  {
    hide PutIn, Sorted;
    if rs != [] {
      var r, rest := rs[0], rs[1..];
      InsertionsSorted(rest);
      Parted(rest);
      if r.op.Insert? {
        PutInSorted(r, Insertions(rest));
      }
    } else {
      NoneSorted();
    }
  }

  lemma NoneSorted()
    ensures Sorted([])
  {
  }

  lemma {:induction false} NamesMask(d: Deletion, n: nat, i: nat)
    requires Fits(d, n) && i < n
    ensures Mask(d, n)[i] <==> Names(d, i)
  {
    if d.SplitDelete? {
      NamesMask(d.first, n, i);
      NamesMask(d.second, n, i);
    } else {
      RangeIsRange(n, d.position, Length(d));
    }
  }

  lemma DeletedFirst(rs: seq<Request>, n: nat)
    requires rs != [] && Applicable(rs[0].op, n)
    ensures rs[0].op.Insert? ==> Deleted(rs, n) == Deleted(rs[1..], n)
    ensures rs[0].op.Delete? ==> Deleted(rs, n) == Or(Mask(rs[0].op.deletion, n), Deleted(rs[1..], n))
  {
    var rest := rs[1..];
    forall i | 0 <= i < n
      ensures IsDeleted(rs, i) <==> (rs[0].op.Delete? && Names(rs[0].op.deletion, i)) || IsDeleted(rest, i)
      ensures rs[0].op.Delete? ==> (Mask(rs[0].op.deletion, n)[i] <==> Names(rs[0].op.deletion, i))
    {
      if IsDeleted(rest, i) {
        var k :| 0 <= k < |rest| && rest[k].op.Delete? && Names(rest[k].op.deletion, i);
        assert rs[k + 1] == rest[k];
      }
      if rs[0].op.Delete? {
        NamesMask(rs[0].op.deletion, n, i);
      }
    }
  }

  /** The masks of the deletions together name what is deleted. */
  lemma {:induction false} DeletedIs(rs: seq<Request>, n: nat)
    requires AllTransformable(rs, n)
    ensures AllTransformable(Deletions(rs), n) && AllDelete(EditsOf(Deletions(rs), n), n)
    ensures OrAll(EditsOf(Deletions(rs), n), n) == Deleted(rs, n)
  {
    hide Deleted, Or, Mask, Reversible;
    if rs == [] {
      NoneDeleted(n);
    } else {
      DeletedIs(rs[1..], n);
      DeletedFirst(rs, n);
      var dels, rest := Deletions(rs), Deletions(rs[1..]);
      if rs[0].op.Delete? {
        assert dels[1..] == rest && EditsOf(dels, n)[1..] == EditsOf(rest, n);
      } else {
        assert dels == rest;
      }
    }
  }

  lemma NoneDeleted(n: nat)
    ensures Deleted([], n) == Clear(n)
  {
  }

  /** The insertions among concurrent requests. */
  lemma InsertionsInOrder(rs: seq<Request>, n: nat)
    requires AllConcurrent(rs, n)
    ensures AllTransformable(Insertions(rs), n) && LastPlaceFirst(EditsOf(Insertions(rs), n), n)
  {
    Parted(rs);
    InsertionsSorted(rs);
    var l := Insertions(rs);
    forall i | 0 <= i < |l|
      ensures Transformable(l[i], n) && l[i].origin == l[i].op
    {
      assert l[i] in l;
      var k :| 0 <= k < |rs| && rs[k] == l[i];
    }
  }

  /** The document s without what the requests delete, and with what they insert: at its position,
      and at one position the texts of users with larger numbers first. */
  function Merge(s: seq<Cell>, rs: seq<Request>): seq<Cell>
    requires AllConcurrent(rs, |s|)
  {
    InsertionsInOrder(rs, |s|);
    Merged(s, Deleted(rs, |s|), EditsOf(Insertions(rs), |s|))
  }

  lemma EditsOfParts(dels: seq<Request>, ins: seq<Request>, n: nat)
    requires AllTransformable(dels, n) && AllTransformable(ins, n) && AllTransformable(dels + ins, n)
    ensures EditsOf(dels + ins, n) == EditsOf(dels, n) + EditsOf(ins, n)
  {
    hide Transformable, EditOf, On;
  }

  /** Taking in concurrent requests one after the other, each transformed past those before, comes
      to merging them all at once. */
  lemma IntegrateMerges(s: seq<Cell>, rs: seq<Request>)
    requires AllConcurrent(rs, |s|)
    ensures Integrate(s, rs) == Done(Merge(s, rs))
  {
    hide Integrate, Merged, Deleted, OrAll, EnactAll, Transformable, EditsOf, LastPlaceFirst, AllDelete;
    hide Insertions, Deletions;
    var n, dels, ins := |s|, Deletions(rs), Insertions(rs);
    Parted(rs);
    assert multiset(dels + ins) == multiset(rs);
    AnyOrder(s, rs, dels + ins);
    IntegrateEnacts(s, dels + ins);
    DeletedIs(rs, n);
    InsertionsInOrder(rs, n);
    EnactDeletions(s, EditsOf(dels, n), EditsOf(ins, n));
    EditsOfParts(dels, ins, n);
  }

  // ----- whose text stands first -----

  /** A request to insert a text. */
  function Inserting(position: nat, text: seq<Cell>, user: nat): Request {
    Request(Insert(position, text), user, Insert(position, text))
  }

  /** A request to delete a stretch of the text. */
  function Deleting(position: nat, text: seq<Cell>, user: nat): Request {
    Request(Delete(DefaultDelete(position, text)), user, Delete(DefaultDelete(position, text)))
  }

  lemma MergedTwo(s: seq<Cell>, m: seq<bool>, last: Edit, first: Edit)
    requires |m| == |s| && LastFirst([last, first], |s|)
    ensures last.effect.Inserts? && first.effect.Inserts? && first.effect.position <= last.effect.position <= |s|
    ensures var p, q := first.effect.position, last.effect.position;
      Merged(s, m, [last, first])
      == Erase(s[..p], m[..p]) + first.effect.text + Erase(s[p..q], m[p..q]) + last.effect.text + Erase(s[q..], m[q..])
  {
    hide Erase;
    var ins := [last, first];
    assert ins[0] == last && ins[1] == first && ins[1..] == [first] && [first][1..] == [];
    var p, q := first.effect.position, last.effect.position;
    assert s[..q][..p] == s[..p] && s[..q][p..] == s[p..q] && m[..q][..p] == m[..p] && m[..q][p..] == m[p..q];
    assert Merged(s[..p], m[..p], []) == Erase(s[..p], m[..p]);
  }

  /** What is left of a document, on both sides of a place inside a stretch that goes. */
  lemma ErasedAround(s: seq<Cell>, b: nat, len: nat, p: nat, q: nat)
    requires b <= p <= q <= b + len <= |s|
    ensures var m := Range(|s|, b, len);
      && Erase(s[..p], m[..p]) == s[..b] && Erase(s[p..q], m[p..q]) == []
      && Erase(s[q..], m[q..]) == s[b + len..]
  {
    hide Erase, Survivors, Clear, Full, Range;
    RangeParts(|s|, b, len, p, q);
    var head, middle, tail := s[..p], s[p..q], s[q..];
    EraseRange(head, b, p - b);
    EraseRange(middle, 0, q - p);
    EraseRange(tail, 0, b + len - q);
    assert Cut(head, b, p - b) == s[..b] && Cut(middle, 0, q - p) == [];
    assert Cut(tail, 0, b + len - q) == s[b + len..];
  }

  lemma RangeParts(n: nat, b: nat, len: nat, p: nat, q: nat)
    requires b <= p <= q <= b + len <= n
    ensures var m := Range(n, b, len);
      && m[..p] == Range(p, b, p - b) && m[p..q] == Range(q - p, 0, q - p)
      && m[q..] == Range(n - q, 0, b + len - q)
  {
  }

  lemma TwoInStretch(s: seq<Cell>, b: nat, len: nat, last: Edit, first: Edit)
    requires LastFirst([last, first], |s|) && b + len <= |s|
    requires last.effect.Inserts? && first.effect.Inserts?
    requires b <= first.effect.position <= last.effect.position <= b + len
    ensures Merged(s, Range(|s|, b, len), [last, first])
         == s[..b] + first.effect.text + last.effect.text + s[b + len..]
  {
    hide Merged, Erase, Range;
    MergedTwo(s, Range(|s|, b, len), last, first);
    ErasedAround(s, b, len, first.effect.position, last.effect.position);
    AppendNothing(s[..b] + first.effect.text, last.effect.text);
  }

  lemma NoStretch(n: nat, p: nat)
    requires p <= n
    ensures Clear(n) == Range(n, p, 0)
  {
  }

  lemma PutBehind(a: Request, b: Request)
    requires a.op.Insert? && b.op.Insert? && Ahead(a, b)
    ensures PutIn(b, []) == [b] && PutIn(a, [b]) == [b, a]
  {
    assert [b][1..] == [] && PutIn(a, []) == [a] && [b] + [a] == [b, a];
  }

  lemma InsertionsOfTwo(a: Request, b: Request, n: nat)
    requires a.op.Insert? && b.op.Insert? && Ahead(a, b)
    ensures Insertions([a, b]) == [b, a] && Deleted([a, b], n) == Clear(n)
  {
    assert [a, b][1..] == [b] && [b][1..] == [];
    PutBehind(a, b);
    assert Insertions([b]) == [b];
    assert [a, b][0] == a && [a, b][1] == b;
  }

  lemma EditsOfTwo(a: Request, b: Request, n: nat)
    requires Transformable(a, n) && Transformable(b, n)
    ensures AllTransformable([a, b], n) && EditsOf([a, b], n) == [EditOf(a, n), EditOf(b, n)]
  {
    hide Transformable, EditOf, On;
    assert [a, b][0] == a && [a, b][1] == b;
  }

  lemma TwoConcurrent(s: seq<Cell>, p: nat, x: seq<Cell>, u: nat, y: seq<Cell>, v: nat)
    requires p <= |s| && v != u
    ensures var a, b := Inserting(p, x, u), Inserting(p, y, v);
      && AllConcurrent([a, b], |s|) && Transformable(a, |s|) && Transformable(b, |s|)
      && multiset([a, b]) == multiset([b, a])
  {
    var a, b := Inserting(p, x, u), Inserting(p, y, v);
    assert [a, b][0] == a && [a, b][1] == b;
  }

  /** When two users type at one position, the text of the user with the larger number stands
      first, whichever request comes first. */
  lemma LargerUserFirst(s: seq<Cell>, p: nat, x: seq<Cell>, u: nat, y: seq<Cell>, v: nat)
    requires p <= |s| && v < u
    ensures var a, b := Inserting(p, x, u), Inserting(p, y, v);
      && AllConcurrent([a, b], |s|) && AllConcurrent([b, a], |s|)
      && Integrate(s, [a, b]) == Integrate(s, [b, a]) == Done(s[..p] + x + y + s[p..])
  {
    hide Merged, Clear, Range, Integrate, Insertions, Deleted, EditsOf, AllConcurrent, Transformable;
    var n, a, b := |s|, Inserting(p, x, u), Inserting(p, y, v);
    TwoConcurrent(s, p, x, u, y, v);
    AnyOrder(s, [a, b], [b, a]);
    IntegrateMerges(s, [a, b]);
    InsertionsOfTwo(a, b, n);
    InsertionsInOrder([a, b], n);
    EditsOfTwo(b, a, n);
    NoStretch(n, p);
    TwoInStretch(s, p, 0, EditOf(b, n), EditOf(a, n));
  }

  lemma InsertionsOfThree(a: Request, b: Request, d: Request, n: nat)
    requires a.op.Insert? && b.op.Insert? && d.op.Delete? && d.op.deletion.DefaultDelete? && Ahead(a, b)
    requires d.op.deletion.position + |d.op.deletion.chunk| <= n
    ensures Insertions([a, b, d]) == [b, a]
    ensures Deleted([a, b, d], n) == Range(n, d.op.deletion.position, |d.op.deletion.chunk|)
  {
    var rs, p, len := [a, b, d], d.op.deletion.position, |d.op.deletion.chunk|;
    assert rs[1..] == [b, d] && [b, d][1..] == [d] && [d][1..] == [];
    PutBehind(a, b);
    assert Insertions([d]) == Insertions([]) == [];
    assert Insertions([b, d]) == PutIn(b, Insertions([d])) == [b];
    assert Insertions(rs) == PutIn(a, Insertions([b, d]));
    RangeIsRange(n, p, len);
    forall i | 0 <= i < n
      ensures IsDeleted(rs, i) <==> p <= i < p + len
    {
      assert rs[2] == d && rs[0] == a && rs[1] == b;
    }
  }

  lemma ThreeConcurrent(s: seq<Cell>, p: nat, x: seq<Cell>, u: nat, q: nat, y: seq<Cell>, v: nat,
                        b: nat, z: seq<Cell>, w: nat)
    requires b <= p < q <= b + |z| <= |s| && u != v && v != w && u != w
    ensures var i, j := Inserting(p, x, u), Inserting(q, y, v);
      && AllConcurrent([i, j, Deleting(b, z, w)], |s|) && Transformable(i, |s|) && Transformable(j, |s|)
  {
    var rs := [Inserting(p, x, u), Inserting(q, y, v), Deleting(b, z, w)];
    assert rs[0].op.Insert? && rs[1].op.Insert? && rs[2].op.Delete?;
  }

  /** When two users type at two positions and a third one deletes all that stands between them,
      the text that came in at the earlier position stands first, whoever the users are and
      in whatever order the requests come. */
  lemma EarlierTextFirst(s: seq<Cell>, p: nat, x: seq<Cell>, u: nat, q: nat, y: seq<Cell>, v: nat,
                         b: nat, z: seq<Cell>, w: nat, rs: seq<Request>)
    requires b <= p < q <= b + |z| <= |s| && u != v && v != w && u != w
    requires multiset(rs) == multiset([Inserting(p, x, u), Inserting(q, y, v), Deleting(b, z, w)])
    ensures AllConcurrent(rs, |s|) && Integrate(s, rs) == Done(s[..b] + x + y + s[b + |z|..])
  {
    hide Merged, Clear, Range, Integrate, Insertions, Deleted, EditsOf, AllConcurrent, Transformable;
    var n, i, j, d := |s|, Inserting(p, x, u), Inserting(q, y, v), Deleting(b, z, w);
    ThreeConcurrent(s, p, x, u, q, y, v, b, z, w);
    AnyOrder(s, [i, j, d], rs);
    IntegrateMerges(s, [i, j, d]);
    InsertionsOfThree(i, j, d, n);
    InsertionsInOrder([i, j, d], n);
    EditsOfTwo(j, i, n);
    TwoInStretch(s, b, |z|, EditOf(j, n), EditOf(i, n));
  }

  /** All sites end up with the merged document. */
  lemma SitesMerge(s: seq<Cell>, rs: seq<Request>, qs: seq<Request>, paths: seq<seq<Request>>, user: nat)
    requires MadeOn(rs, s) && multiset(qs) == multiset(rs) && AllPaths(qs, paths)
    ensures MadeOn(qs, s)
    ensures TakeAllIn(Site(user, s, []), qs, paths) == Done(Site(user, Merge(s, rs), qs))
  {
    hide Integrate, TakeAllIn, Merge, AllPaths;
    SitesConverge(s, rs, qs, paths, user);
    IntegrateMerges(s, rs);
  }
}
