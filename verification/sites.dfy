/** Sites that take in concurrent requests: a site keeps its own deletions with their text, gets
    the deletions of others as a position and a length, and logs them once they have their text. */
module Sites {
  import opened Text
  import opened Masks
  import opened Operations
  import opened Effects
  import opened Convergence
  import opened Truth
  import opened Reconstruction
  import opened Reversal
  import opened Siblings
  import opened Paths

  // ----- going past requests -----

  /** r past the requests of a path.  Both r and the last request of the path are first brought
      to the state before that request. */
  function Translate(r: Request, path: seq<Request>): Outcome<Request>
    decreases |path|
  {
    if path == [] then Done(r)
    else
      var before := path[..|path| - 1];
      var at :- Translate(r, before);
      var against :- Translate(path[|path| - 1], before);
      TransformRequest(at, against)
  }

  /** The operations as which the requests of a path are executed one after the other. */
  function Steps(path: seq<Request>): Outcome<seq<Operation>>
    decreases |path|
  {
    if path == [] then Done([])
    else
      var before := path[..|path| - 1];
      var steps :- Steps(before);
      var last :- Translate(path[|path| - 1], before);
      Done(steps + [last.op])
  }

  lemma TranslateSnoc(r: Request, path: seq<Request>, a: Request)
    ensures Translate(r, path + [a])
      == match (Translate(r, path), Translate(a, path))
         case (Done(at), Done(against)) => TransformRequest(at, against)
         case _ => AssertionFailed
  {
    assert (path + [a])[..|path|] == path;
  }

  lemma StepsSnoc(path: seq<Request>, a: Request)
    ensures Steps(path + [a])
      == match (Steps(path), Translate(a, path))
         case (Done(steps), Done(last)) => Done(steps + [last.op])
         case _ => AssertionFailed
  {
    assert (path + [a])[..|path|] == path;
  }

  lemma Snoc<T>(path: seq<T>) returns (before: seq<T>, a: T)
    requires path != []
    ensures path == before + [a] && |before| < |path|
  {
    before, a := path[..|path| - 1], path[|path| - 1];
  }

  // ----- runs, seen from their end -----

  lemma {:induction false} RunsSnoc(ops: seq<Operation>, op: Operation, s: seq<Cell>)
    requires Runs(ops, s) && Genuine(op, DocumentAfterAll(ops, s))
    ensures Runs(ops + [op], s) && DocumentAfterAll(ops + [op], s) == DocumentAfter(op, DocumentAfterAll(ops, s))
    decreases |ops|
  {
    if ops == [] {
      assert ops + [op] == [op] && [op][1..] == [];
    } else {
      assert (ops + [op])[0] == ops[0] && (ops + [op])[1..] == ops[1..] + [op];
      RunsSnoc(ops[1..], op, DocumentAfter(ops[0], s));
    }
  }

  lemma {:induction false} AlongSnoc(d: Deletion, ops: seq<Operation>, op: Operation)
    ensures TransformAlong(d, ops + [op])
      == match TransformAlong(d, ops)
         case AssertionFailed => AssertionFailed
         case Done(e) =>
           match Transform(Delete(e), op, NoId)
           case Done(o) => Done(o.deletion)
           case AssertionFailed => AssertionFailed
    decreases |ops|
  {
    if ops == [] {
      assert ops + [op] == [op] && [op][1..] == [];
    } else {
      assert (ops + [op])[0] == ops[0] && (ops + [op])[1..] == ops[1..] + [op];
      if Transform(Delete(d), ops[0], NoId).Done? {
        AlongSnoc(Transform(Delete(d), ops[0], NoId).value.deletion, ops[1..], op);
      }
    }
  }

  // ----- genuine requests -----

  predicate GenuineRequest(r: Request, s: seq<Cell>) {
    Genuine(r.op, s) && (r.op.Insert? <==> r.origin.Insert?)
  }

  predicate AllGenuine(path: seq<Request>, s: seq<Cell>) {
    forall i :: 0 <= i < |path| ==> GenuineRequest(path[i], s)
  }

  /** One genuine request past another one. */
  lemma GenuinePast(r: Request, a: Request, s: seq<Cell>)
    requires GenuineRequest(r, s) && GenuineRequest(a, s)
    ensures TransformRequest(r, a).Done?
    ensures var r' := TransformRequest(r, a).value;
      GenuineRequest(r', DocumentAfter(a.op, s)) && r'.user == r.user && r'.origin == r.origin
  {
    hide Transform, Apply, Genuine, DocumentAfter;
    GenuineApplies(r.op, s);
    GenuineApplies(a.op, s);
    TransformRequestDone(r, a, |s|);
    TransformRequestCarries(r, a, |s|);
    GenuinePastGenuine(r.op, a.op, s, TieId(r, a));
  }

  /** A path of genuine requests is executed as genuine operations. */
  lemma {:induction false} PathRuns(path: seq<Request>, s: seq<Cell>)
    requires AllGenuine(path, s)
    ensures Steps(path).Done? && Runs(Steps(path).value, s)
    decreases |path|, 0
  {
    hide Runs, DocumentAfterAll, GenuineRequest, Translate;
    if path != [] {
      var before, a := Snoc(path);
      assert path[|path| - 1] == a && GenuineRequest(path[|path| - 1], s);
      FrontGenuine(before, a, s);
      PathRuns(before, s);
      TranslateGenuine(a, before, s);
      StepsSnoc(before, a);
      RequestIsGenuine(Translate(a, before).value, DocumentAfterAll(Steps(before).value, s));
      RunsSnoc(Steps(before).value, Translate(a, before).value.op, s);
    } else {
      NoRun(s);
    }
  }

  lemma NoRun(s: seq<Cell>)
    ensures Runs([], s) && DocumentAfterAll([], s) == s
  {
  }

  lemma RequestIsGenuine(r: Request, s: seq<Cell>)
    requires GenuineRequest(r, s)
    ensures Genuine(r.op, s)
  {
  }

  lemma FrontGenuine(before: seq<Request>, a: Request, s: seq<Cell>)
    requires AllGenuine(before + [a], s)
    ensures AllGenuine(before, s) && GenuineRequest(a, s)
  {
    hide GenuineRequest;
    var path := before + [a];
    assert path[|before|] == a;
    forall i | 0 <= i < |before|
      ensures GenuineRequest(before[i], s)
    {
      assert path[i] == before[i];
    }
  }

  /** A genuine request past a path of genuine requests. */
  lemma {:induction false} TranslateGenuine(r: Request, path: seq<Request>, s: seq<Cell>)
    requires GenuineRequest(r, s) && AllGenuine(path, s)
    ensures Steps(path).Done? && Runs(Steps(path).value, s) && Translate(r, path).Done?
    ensures var r' := Translate(r, path).value;
      GenuineRequest(r', DocumentAfterAll(Steps(path).value, s)) && r'.user == r.user && r'.origin == r.origin
    decreases |path|, 1
  {
    hide Runs, DocumentAfterAll, DocumentAfter, GenuineRequest, TransformRequest;
    PathRuns(path, s);
    if path != [] {
      var before, a := Snoc(path);
      FrontGenuine(before, a, s);
      TranslateGenuine(r, before, s);
      TranslateGenuine(a, before, s);
      TranslateSnoc(r, before, a);
      StepsSnoc(before, a);
      var t := DocumentAfterAll(Steps(before).value, s);
      var at, against := Translate(r, before).value, Translate(a, before).value;
      GenuinePast(at, against, t);
      RequestIsGenuine(against, t);
      RunsSnoc(Steps(before).value, against.op, s);
    } else {
      NoRun(s);
    }
  }

  /** A deletion past a path goes past the operations as which the requests are executed. */
  lemma {:induction false} TranslateDeletion(r: Request, path: seq<Request>)
    requires r.op.Delete? && Steps(path).Done? && TransformAlong(r.op.deletion, Steps(path).value).Done?
    ensures Translate(r, path) == Done(r.(op := Delete(TransformAlong(r.op.deletion, Steps(path).value).value)))
    decreases |path|
  {
    hide TransformAlong, Steps, Translate, Transform;
    if path != [] {
      var before, a := Snoc(path);
      StepsSnoc(before, a);
      TranslateSnoc(r, before, a);
      AlongSnoc(r.op.deletion, Steps(before).value, Translate(a, before).value.op);
      TranslateDeletion(r, before);
      DeletionNeedsNoId(Translate(r, before).value, Translate(a, before).value);
    } else {
      NoPath(r);
    }
  }

  lemma NoPath(r: Request)
    requires r.op.Delete?
    ensures Translate(r, []) == Done(r) && Steps([]) == Done([])
    ensures TransformAlong(r.op.deletion, []) == Done(r.op.deletion)
  {
  }

  lemma DeletionNeedsNoId(r: Request, a: Request)
    requires r.op.Delete?
    ensures TransformRequest(r, a)
      == match Transform(r.op, a.op, NoId)
         case Done(op) => Done(r.(op := op))
         case AssertionFailed => AssertionFailed
    ensures Transform(r.op, a.op, NoId).Done? ==> Transform(r.op, a.op, NoId).value.Delete?
  {
  }

  // ----- the document after a path -----

  /** A path seen from its beginning: the first request is executed, and the others go past it. */
  lemma {:induction false} TranslateHead(r: Request, a: Request, rest: seq<Request>, s: seq<Cell>)
    requires GenuineRequest(r, s) && GenuineRequest(a, s) && AllGenuine(rest, s)
    ensures TransformRequest(r, a).Done? && TransformAll(rest, a).Done?
    ensures Translate(r, [a] + rest) == Translate(TransformRequest(r, a).value, TransformAll(rest, a).value)
    decreases |rest|
  {
    hide GenuineRequest, TransformRequest, DocumentAfter;
    GenuinePast(r, a, s);
    if rest == [] {
      NothingAfter(r, a);
    } else {
      var before, l := Snoc(rest);
      FrontGenuine(before, l, s);
      TranslateHead(r, a, before, s);
      TranslateHead(l, a, before, s);
      TransformAllSnoc(before, l, a);
      assert [a] + rest == ([a] + before) + [l];
      TranslateSnoc(r, [a] + before, l);
      TranslateSnoc(TransformRequest(r, a).value, TransformAll(before, a).value, TransformRequest(l, a).value);
    }
  }

  lemma NothingAfter(r: Request, a: Request)
    ensures TransformAll([], a) == Done([]) && Translate(r, [a] + []) == TransformRequest(r, a)
    ensures TransformRequest(r, a).Done? ==> Translate(TransformRequest(r, a).value, []) == TransformRequest(r, a)
  {
    assert [a] + [] == [] + [a];
    TranslateSnoc(r, [], a);
  }

  lemma {:induction false} TransformAllSnoc(rs: seq<Request>, l: Request, a: Request)
    requires TransformAll(rs, a).Done? && TransformRequest(l, a).Done?
    ensures TransformAll(rs + [l], a) == Done(TransformAll(rs, a).value + [TransformRequest(l, a).value])
  {
    hide TransformRequest;
    if rs == [] {
      var l' := TransformRequest(l, a).value;
      assert rs + [l] == [l] && [l][1..] == [] && [l'] + [] == [] + [l'];
    } else {
      assert (rs + [l])[0] == rs[0] && (rs + [l])[1..] == rs[1..] + [l];
      TransformAllSnoc(rs[1..], l, a);
      Regroup(TransformRequest(rs[0], a).value, TransformAll(rs[1..], a).value, TransformRequest(l, a).value);
    }
  }

  lemma Regroup<T>(x: T, ys: seq<T>, z: T)
    ensures [x] + (ys + [z]) == ([x] + ys) + [z]
  {
  }

  lemma {:induction false} AllGenuinePast(rs: seq<Request>, a: Request, s: seq<Cell>)
    requires AllGenuine(rs, s) && GenuineRequest(a, s)
    ensures TransformAll(rs, a).Done? && AllGenuine(TransformAll(rs, a).value, DocumentAfter(a.op, s))
  {
    hide GenuineRequest, TransformRequest, DocumentAfter;
    if rs != [] {
      GenuinePast(rs[0], a, s);
      assert AllGenuine(rs[1..], s);
      AllGenuinePast(rs[1..], a, s);
    }
  }

  lemma GenuineIsTransformable(rs: seq<Request>, s: seq<Cell>)
    requires AllGenuine(rs, s)
    ensures AllTransformable(rs, |s|)
  {
    hide Genuine, Applicable, Reversible;
    forall i | 0 <= i < |rs|
      ensures Transformable(rs[i], |s|)
    {
      assert GenuineRequest(rs[i], s);
      GenuineApplies(rs[i].op, s);
    }
  }

  lemma IntegrateCons(s: seq<Cell>, a: Request, rest: seq<Request>)
    requires GenuineRequest(a, s) && AllGenuine(rest, s)
    ensures AllTransformable([a] + rest, |s|) && TransformAll(rest, a).Done?
    ensures var t, rest' := DocumentAfter(a.op, s), TransformAll(rest, a).value;
      && AllGenuine(rest', t) && AllTransformable(rest', |t|)
      && Integrate(s, [a] + rest) == Integrate(t, rest')
  {
    hide Genuine, TransformRequest, Applicable, Apply, Reversible, TransformAll;
    GenuineApplies(a.op, s);
    AllGenuinePast(rest, a, s);
    GenuineIsTransformable([a] + rest, s);
    GenuineIsTransformable(TransformAll(rest, a).value, DocumentAfter(a.op, s));
    assert ([a] + rest)[1..] == rest;
  }

  lemma IntegrateNothing(s: seq<Cell>, q: Request)
    requires GenuineRequest(q, s)
    ensures AllTransformable([], |s|) && Integrate(s, []) == Done(s) && Translate(q, []) == Done(q)
    ensures TransformAll([], q) == Done([])
    ensures [] + [q] == [q] + []
  {
  }

  /** Taking in one request more applies what it is past all the others. */
  lemma {:induction false} IntegrateSnoc(s: seq<Cell>, path: seq<Request>, q: Request)
    requires AllGenuine(path, s) && GenuineRequest(q, s)
    ensures AllTransformable(path, |s|) && AllTransformable(path + [q], |s|)
    ensures Integrate(s, path).Done? && Translate(q, path).Done?
    ensures var t, q' := Integrate(s, path).value, Translate(q, path).value;
      Genuine(q'.op, t) && Integrate(s, path + [q]) == Done(DocumentAfter(q'.op, t))
    decreases |path|
  {
    hide GenuineRequest, TransformRequest, DocumentAfter, Integrate, Translate, Transformable, TransformAll;
    if path == [] {
      IntegrateNothing(s, q);
      IntegrateCons(s, q, []);
      RequestIsGenuine(q, s);
      IntegrateNone(DocumentAfter(q.op, s));
    } else {
      var a, rest := First(path);
      FirstGenuine(a, rest, s);
      RequestIsGenuine(a, s);
      SnocGenuine(rest, q, s);
      IntegrateCons(s, a, rest);
      IntegrateCons(s, a, rest + [q]);
      GenuinePast(q, a, s);
      TransformAllSnoc(rest, q, a);
      TranslateHead(q, a, rest, s);
      IntegrateSnoc(DocumentAfter(a.op, s), TransformAll(rest, a).value, TransformRequest(q, a).value);
      Regroup(a, rest, q);
    }
  }

  lemma IntegrateNone(s: seq<Cell>)
    ensures AllTransformable([], |s|) && Integrate(s, []) == Done(s)
  {
  }

  lemma First<T>(path: seq<T>) returns (a: T, rest: seq<T>)
    requires path != []
    ensures path == [a] + rest && |rest| < |path|
  {
    a, rest := path[0], path[1..];
  }

  lemma FirstGenuine(a: Request, rest: seq<Request>, s: seq<Cell>)
    requires AllGenuine([a] + rest, s)
    ensures GenuineRequest(a, s) && AllGenuine(rest, s)
  {
    hide GenuineRequest;
    var path := [a] + rest;
    assert path[0] == a;
    forall i | 0 <= i < |rest|
      ensures GenuineRequest(rest[i], s)
    {
      assert path[i + 1] == rest[i];
    }
  }

  lemma SnocGenuine(rest: seq<Request>, q: Request, s: seq<Cell>)
    requires AllGenuine(rest, s) && GenuineRequest(q, s)
    ensures AllGenuine(rest + [q], s)
  {
    hide GenuineRequest;
  }

  /** The operations of a path lead to the document to which taking the requests in leads. */
  lemma {:induction false} StepsLeadThere(path: seq<Request>, s: seq<Cell>)
    requires AllGenuine(path, s)
    ensures Steps(path).Done? && Runs(Steps(path).value, s) && AllTransformable(path, |s|)
    ensures Integrate(s, path) == Done(DocumentAfterAll(Steps(path).value, s))
    decreases |path|
  {
    hide GenuineRequest, DocumentAfter, DocumentAfterAll, Integrate, Translate, Transformable, Runs;
    PathRuns(path, s);
    GenuineIsTransformable(path, s);
    if path == [] {
      NoRun(s);
      IntegrateNone(s);
    } else {
      var before, a := Snoc(path);
      FrontGenuine(before, a, s);
      PathRuns(before, s);
      StepsLeadThere(before, s);
      StepsSnoc(before, a);
      IntegrateSnoc(s, before, a);
      RunsSnoc(Steps(before).value, Translate(a, before).value.op, s);
    }
  }

  // ----- sites -----

  /** A site: its user, its document, and the requests in its log, as they were made on the
      common document and with the text they delete. */
  datatype Site = Site(user: nat, document: seq<Cell>, log: seq<Request>)

  /** A user inserts a text or deletes a stretch of the text. */
  predicate Made(r: Request) {
    r.op.Delete? ==> r.op.deletion.DefaultDelete?
  }

  /** What a site gets to see of a request: of the deletions of others where and how long they are. */
  function Received(r: Request, user: nat): Request
    requires Made(r)
  {
    if r.op.Delete? && r.user != user then
      var op := Delete(NewRemoteDelete(r.op.deletion.position, |r.op.deletion.chunk|));
      Request(op, r.user, op)
    else r
  }

  /** Of the text that another user deletes a site gets to see nothing. */
  lemma TextIsNotSent(position: nat, text: seq<Cell>, other: seq<Cell>, author: nat, user: nat)
    requires |text| == |other| && author != user
    ensures var op, op' := Delete(DefaultDelete(position, text)), Delete(DefaultDelete(position, other));
      Received(Request(op, author, op), user) == Received(Request(op', author, op'), user)
  {
  }

  /** A request is brought to the current state along a path through the requests in the log,
      and applied.  If it is a remote deletion, it is made reversible for the log first. */
  function TakeIn(site: Site, r: Request, path: seq<Request>): Outcome<Site> {
    var translated :- Translate(r, path);
    if !Applicable(translated.op, |site.document|) then AssertionFailed
    else
      var logged :- LogForm(r, translated, site.document);
      var document :- Apply(translated.op, site.document);
      Done(Site(site.user, document, site.log + [logged]))
  }

  function LogForm(r: Request, translated: Request, document: seq<Cell>): Outcome<Request>
    requires Applicable(translated.op, |document|)
  {
    if r.op.Delete? && r.op.deletion.RemoteDelete? && translated.op.Delete? then
      var reversible :- MakeReversible(r.op.deletion, translated.op.deletion, document);
      Done(Request(Delete(reversible), r.user, Delete(reversible)))
    else Done(r)
  }

  /** A site takes in requests in some order, each along a path of its own. */
  function TakeAllIn(site: Site, qs: seq<Request>, paths: seq<seq<Request>>): Outcome<Site>
    requires |paths| == |qs| && forall i :: 0 <= i < |qs| ==> Made(qs[i])
    decreases |qs|
  {
    if qs == [] then Done(site)
    else
      var before := |qs| - 1;
      var t :- TakeAllIn(site, qs[..before], paths[..before]);
      TakeIn(t, Received(qs[before], site.user), paths[before])
  }

  /** Requests that users made concurrently on document s. */
  predicate MadeOn(rs: seq<Request>, s: seq<Cell>) {
    AllConcurrent(rs, |s|) && AllGenuine(rs, s) && forall i :: 0 <= i < |rs| ==> Made(rs[i])
  }

  lemma OwnTakenIn(site: Site, q: Request, path: seq<Request>)
    requires Made(q) && Received(q, site.user) == q
    requires Translate(q, path).Done? && Genuine(Translate(q, path).value.op, site.document)
    ensures TakeIn(site, q, path)
         == Done(Site(site.user, DocumentAfter(Translate(q, path).value.op, site.document), site.log + [q]))
  {
    hide Translate, Genuine, Apply, Applicable, DocumentAfter, Reversible;
    GenuineApplies(Translate(q, path).value.op, site.document);
  }

  /** The deletion of another user: it is as if its text had been known. */
  lemma RemoteTakenIn(site: Site, s: seq<Cell>, q: Request, path: seq<Request>)
    requires q.op.Delete? && q.op.deletion.DefaultDelete? && q.user != site.user && q.origin == q.op
    requires Genuine(q.op, s) && Steps(path).Done? && Runs(Steps(path).value, s)
    requires site.document == DocumentAfterAll(Steps(path).value, s)
    requires Translate(q, path).Done? && Genuine(Translate(q, path).value.op, site.document)
    ensures TakeIn(site, Received(q, site.user), path)
         == Done(Site(site.user, DocumentAfter(Translate(q, path).value.op, site.document), site.log + [q]))
  {
    hide Translate, Steps, Runs, TransformAlong, MakeReversible, DocumentAfterAll, ApplyDeletion, Ordered, SameShape;
    var p, x, ops, r := q.op.deletion.position, q.op.deletion.chunk, Steps(path).value, Received(q, site.user);
    Inside(x, s, p);
    SenderAndReceiverAgree(s, p, |x|, ops);
    UndoReconstruction(s, p, |x|, ops);
    TranslateDeletion(q, path);
    TranslateDeletion(r, path);
    RemoteTaken(site, r, path, TransformAlong(r.op.deletion, ops).value, q.op.deletion);
    GenuineApplies(Translate(q, path).value.op, site.document);
  }

  lemma RemoteTaken(site: Site, r: Request, path: seq<Request>, e: Deletion, made: Deletion)
    requires r.op.Delete? && r.op.deletion.RemoteDelete? && Translate(r, path) == Done(r.(op := Delete(e)))
    requires Fits(e, |site.document|) && ApplyDeletion(e, site.document).Done?
    requires MakeReversible(r.op.deletion, e, site.document) == Done(made)
    ensures TakeIn(site, r, path)
         == Done(Site(site.user, ApplyDeletion(e, site.document).value,
                      site.log + [Request(Delete(made), r.user, Delete(made))]))
  {
    hide Translate, MakeReversible, ApplyDeletion;
  }

  /** One step: the request is logged as it was made, and applied as it would be if its text
      had been known all along. */
  lemma TakenIn(site: Site, s: seq<Cell>, q: Request, path: seq<Request>)
    requires AllGenuine(path, s) && GenuineRequest(q, s) && Made(q) && q.origin == q.op
    requires AllTransformable(path, |s|) && Integrate(s, path) == Done(site.document)
    ensures AllTransformable(path + [q], |s|) && Integrate(s, path + [q]).Done?
    ensures TakeIn(site, Received(q, site.user), path)
         == Done(Site(site.user, Integrate(s, path + [q]).value, site.log + [q]))
  {
    hide Integrate, AllTransformable, AllGenuine, Genuine, Translate, Steps, Runs, TakeIn;
    hide DocumentAfterAll, DocumentAfter;
    IntegrateSnoc(s, path, q);
    StepsLeadThere(path, s);
    if q.op.Delete? && q.user != site.user {
      RemoteTakenIn(site, s, q, path);
    } else {
      OwnTakenIn(site, q, path);
    }
  }

  /** Each request goes along a path through all the requests before it, in any order. */
  ghost predicate AllPaths(qs: seq<Request>, paths: seq<seq<Request>>) {
    |paths| == |qs| && forall i :: 0 <= i < |qs| ==> multiset(paths[i]) == multiset(qs[..i])
  }

  lemma StillMade(rs: seq<Request>, qs: seq<Request>, s: seq<Cell>)
    requires MadeOn(rs, s) && multiset(rs) == multiset(qs)
    ensures MadeOn(qs, s)
  {
    hide Transformable, GenuineRequest, Made;
    StillConcurrent(rs, qs, |s|);
    forall i | 0 <= i < |qs|
      ensures GenuineRequest(qs[i], s) && Made(qs[i])
    {
      var k := Somewhere(rs, qs, i);
    }
  }

  /** All but the last request, and the last one. */
  lemma LastOne(qs: seq<Request>, paths: seq<seq<Request>>, s: seq<Cell>)
    requires MadeOn(qs, s) && AllPaths(qs, paths) && qs != []
    ensures var k := |qs| - 1;
      && MadeOn(qs[..k], s) && AllPaths(qs[..k], paths[..k]) && multiset(paths[k]) == multiset(qs[..k])
      && GenuineRequest(qs[k], s) && Made(qs[k]) && qs[k].origin == qs[k].op && qs == qs[..k] + [qs[k]]
      && AllTransformable(qs[..k], |s|)
  {
    hide Transformable, GenuineRequest, Made;
    var k := |qs| - 1;
    forall i | 0 <= i < k
      ensures multiset(paths[..k][i]) == multiset(qs[..k][..i])
    {
      assert qs[..k][..i] == qs[..i];
    }
  }

  lemma {:induction false} TakenAllIn(s: seq<Cell>, qs: seq<Request>, paths: seq<seq<Request>>, user: nat)
    requires MadeOn(qs, s) && AllPaths(qs, paths)
    ensures Integrate(s, qs).Done?
    ensures TakeAllIn(Site(user, s, []), qs, paths) == Done(Site(user, Integrate(s, qs).value, qs))
    decreases |qs|
  {
    hide MadeOn, Integrate, TakeIn, Received, AllConcurrent, Made;
    if qs == [] {
      NothingTakenIn(s, qs, paths, user);
    } else {
      var k := |qs| - 1;
      var q, path, before := qs[k], paths[k], qs[..k];
      LastOne(qs, paths, s);
      TakenAllIn(s, before, paths[..k], user);
      OneMoreTakenIn(s, before, q, path, Site(user, Integrate(s, before).value, before));
      OneMore(qs, paths, user, s);
    }
  }

  lemma NothingTakenIn(s: seq<Cell>, qs: seq<Request>, paths: seq<seq<Request>>, user: nat)
    requires MadeOn(qs, s) && AllPaths(qs, paths) && qs == []
    ensures Integrate(s, qs) == Done(s) && TakeAllIn(Site(user, s, []), qs, paths) == Done(Site(user, s, []))
  {
  }

  lemma OneMore(qs: seq<Request>, paths: seq<seq<Request>>, user: nat, s: seq<Cell>)
    requires MadeOn(qs, s) && AllPaths(qs, paths) && qs != []
    ensures var k := |qs| - 1;
      && |paths| == |qs| && (forall i :: 0 <= i < |qs| ==> Made(qs[i]))
      && TakeAllIn(Site(user, s, []), qs, paths)
         == match TakeAllIn(Site(user, s, []), qs[..k], paths[..k])
            case Done(t) => TakeIn(t, Received(qs[k], user), paths[k])
            case AssertionFailed => AssertionFailed
  {
    hide TakeIn, Received, Made, Transformable, GenuineRequest;
  }

  /** One request more, along any path through those before it. */
  lemma OneMoreTakenIn(s: seq<Cell>, before: seq<Request>, q: Request, path: seq<Request>, site: Site)
    requires MadeOn(before + [q], s) && MadeOn(before, s) && multiset(path) == multiset(before)
    requires GenuineRequest(q, s) && Made(q) && q.origin == q.op
    requires Integrate(s, before) == Done(site.document) && site.log == before
    ensures Integrate(s, before + [q]).Done?
    ensures TakeIn(site, Received(q, site.user), path)
         == Done(Site(site.user, Integrate(s, before + [q]).value, before + [q]))
  {
    hide Integrate, TakeIn, Received, Transformable, GenuineRequest, Made;
    StillMade(before, path, s);
    AnyOrder(s, before, path);
    assert multiset(before + [q]) == multiset(path + [q]);
    AnyOrder(s, before + [q], path + [q]);
    TakenIn(site, s, q, path);
  }

  /** Requests are made concurrently on one document.  A site takes them in in any order and
      brings each to its current state along any path.  It ends up, with no assertion failing,
      with the one document to which the requests lead, and its log holds all of them as they
      were made. */
  lemma SitesConverge(s: seq<Cell>, rs: seq<Request>, qs: seq<Request>, paths: seq<seq<Request>>, user: nat)
    requires MadeOn(rs, s) && multiset(qs) == multiset(rs) && AllPaths(qs, paths)
    ensures MadeOn(qs, s) && Integrate(s, rs).Done?
    ensures TakeAllIn(Site(user, s, []), qs, paths) == Done(Site(user, Integrate(s, rs).value, qs))
  {
    hide Integrate, TakeAllIn, Transformable, GenuineRequest, Made;
    StillMade(rs, qs, s);
    AnyOrder(s, rs, qs);
    TakenAllIn(s, qs, paths, user);
  }
}
