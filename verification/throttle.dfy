/** The delay with which a session broadcasts the caret and selection of a local user. */
module CaretThrottle {
  import opened Selections

  // ----- time -----

  type Micros = u: nat | u < 1000000

  /** A clock reading, as GTimeVal has it. */
  datatype Time = Time(sec: nat, usec: Micros) {
    function InMicros(): nat { sec * 1000000 + usec }
  }

  predicate NotBefore(first: Time, second: Time) {
    first.sec > second.sec || (first.sec == second.sec && first.usec >= second.usec)
  }

  /** A clock reading in milliseconds, rounded. */
  function Rounded(micros: nat): nat {
    (micros + 500) / 1000
  }

  /** The difference of the rounded times; it is never negative. */
  function TimevalDiff(first: Time, second: Time): (diff: int)
    requires NotBefore(first, second)
    ensures diff == Rounded(first.InMicros()) - Rounded(second.InMicros()) >= 0
  {
    RoundedIs(first);
    RoundedIs(second);
    RoundedGrows(second.InMicros(), first.InMicros());
    (first.sec - second.sec) * 1000 + (first.usec + 500) / 1000 - (second.usec + 500) / 1000
  }

  lemma RoundedIs(t: Time)
    ensures Rounded(t.InMicros()) == t.sec * 1000 + (t.usec + 500) / 1000
  {
  }

  lemma RoundedGrows(a: nat, b: nat)
    requires a <= b
    ensures Rounded(a) <= Rounded(b)
  {
  }

  /** The reading in milliseconds is the nearest one. */
  lemma RoundedIsNearest(micros: nat)
    ensures Rounded(micros) * 1000 - 500 <= micros < Rounded(micros) * 1000 + 500
  {
  }

  lemma InOrder(first: Time, second: Time)
    ensures NotBefore(first, second) <==> second.InMicros() <= first.InMicros()
  {
  }

  // ----- the specification -----

  datatype Timeout = NoTimeout | Due(micros: nat)

  /** What has happened: a selection asked for, a selection moved by an edit of the text or
      by a request being applied, and the broadcast of the selection. */
  datatype Entry =
    | Requested(selection: Selection, at: Time)
    | Moved(selection: Selection)
    | Broadcast(selection: Selection, at: Time)

  datatype State = State(interval: nat, now: Time, applyRequest: bool, selection: Selection,
                         lastCaretUpdate: Time, caretTimeout: Timeout, log: seq<Entry>)

  datatype Event =
    | ClockMoves(to: Time)
    | SelectionChanges(selection: Selection, byRequest: bool)
    | TextChanges(selection: Selection)
    | ApplyBegins
    | ApplyEnds
    | TimeoutFires
    | Flush

  /** The clock does not go back, a timer fires when it is due or later, and only selections
      that a request being applied brings about are not asked for. */
  predicate Possible(s: State, e: Event) {
    match e
    case ClockMoves(to) => NotBefore(to, s.now)
    case SelectionChanges(_, byRequest) => byRequest == !s.applyRequest
    case TimeoutFires => s.caretTimeout.Due? && s.caretTimeout.micros <= s.now.InMicros()
    case _ => true
  }

  function BroadcastNow(s: State): State {
    s.(log := s.log + [Broadcast(s.selection, s.now)], lastCaretUpdate := s.now, caretTimeout := NoTimeout)
  }

  function Step(s: State, e: Event): State
    requires Possible(s, e) && NotBefore(s.now, s.lastCaretUpdate)
  {
    match e
    case ClockMoves(to) => s.(now := to)
    case SelectionChanges(sel, byRequest) =>
      var t := s.(selection := sel, log := s.log + [if byRequest then Requested(sel, s.now) else Moved(sel)]);
      if s.applyRequest then t
      else
        var diff := TimevalDiff(s.now, s.lastCaretUpdate);
        if diff >= s.interval then BroadcastNow(t)
        else if s.caretTimeout.Due? then t
        else t.(caretTimeout := Due(s.now.InMicros() + (s.interval - diff) * 1000))
    case TextChanges(sel) => s.(selection := sel, log := s.log + [Moved(sel)])
    case ApplyBegins => s.(applyRequest := true)
    case ApplyEnds => s.(applyRequest := false)
    case TimeoutFires => BroadcastNow(s.(caretTimeout := NoTimeout))
    case Flush => if s.caretTimeout.Due? then BroadcastNow(s) else s
  }

  // ----- what holds over every run -----

  /** Entry i asks for a selection, and none has been broadcast since. */
  predicate Waiting(log: seq<Entry>, i: nat) {
    i < |log| && log[i].Requested? && forall j :: i < j < |log| ==> !log[j].Broadcast?
  }

  /** A broadcast tells the selection that is current. */
  predicate Current(s: State) {
    && (s.log != [] ==> s.log[|s.log| - 1].selection == s.selection)
    && forall i :: 0 <= i < |s.log| && s.log[i].Broadcast? ==> i > 0 && s.log[i].selection == s.log[i - 1].selection
  }

  /** All broadcasts so far happened at the last update or before, the clock is not behind
      that, and a timer runs out as soon as the interval has passed, and no sooner. */
  predicate OnTime(s: State) {
    && NotBefore(s.now, s.lastCaretUpdate)
    && (forall i :: 0 <= i < |s.log| && s.log[i].Broadcast? ==> NotBefore(s.lastCaretUpdate, s.log[i].at))
    && (s.caretTimeout.Due? ==>
          && Rounded(s.caretTimeout.micros) == Rounded(s.lastCaretUpdate.InMicros()) + s.interval
          && s.caretTimeout.micros <= s.now.InMicros() + s.interval * 1000
          && s.log != [])
  }

  /** A timer runs exactly if a selection waits.  It was not overdue when the selection was
      asked for, and is due at the latest when the interval has passed since then. */
  ghost predicate InTime(s: State) {
    && (s.caretTimeout.Due? ==> exists i: nat :: Waiting(s.log, i))
    && forall i: nat :: Waiting(s.log, i) ==>
        && s.caretTimeout.Due?
        && s.log[i].at.InMicros() < s.caretTimeout.micros <= s.log[i].at.InMicros() + s.interval * 1000
  }

  ghost predicate Invariant(s: State) {
    Current(s) && OnTime(s) && InTime(s)
  }

  /** From a time on, that time and the broadcasts are at least the interval apart. */
  predicate Spaced(s: State, since: Time) {
    && NotBefore(s.lastCaretUpdate, since)
    && (forall i :: 0 <= i < |s.log| && s.log[i].Broadcast? ==>
          NotBefore(s.log[i].at, since) && TimevalDiff(s.log[i].at, since) >= s.interval)
    && forall i, j :: 0 <= i < j < |s.log| && s.log[i].Broadcast? && s.log[j].Broadcast? ==>
        NotBefore(s.log[j].at, s.log[i].at) && TimevalDiff(s.log[j].at, s.log[i].at) >= s.interval
  }

  /** What waits when one thing more has happened. */
  lemma WaitingAfter(log: seq<Entry>, e: Entry)
    ensures forall i: nat ::
      Waiting(log + [e], i) <==> (i == |log| && e.Requested?) || (Waiting(log, i) && !e.Broadcast?)
  {
    forall i: nat
      ensures Waiting(log + [e], i) <==> (i == |log| && e.Requested?) || (Waiting(log, i) && !e.Broadcast?)
    {
      var after := log + [e];
      if i < |log| {
        assert forall j :: i < j < |log| ==> after[j] == log[j];
        assert after[i] == log[i] && after[|log|] == e;
      }
    }
  }

  lemma BroadcastKeeps(s: State, since: Time)
    requires Current(s) && OnTime(s) && s.log != []
    ensures Invariant(BroadcastNow(s))
    ensures Spaced(s, since) && TimevalDiff(s.now, s.lastCaretUpdate) >= s.interval ==> Spaced(BroadcastNow(s), since)
  {
    hide TimevalDiff, Waiting;
    WaitingAfter(s.log, Broadcast(s.selection, s.now));
    BroadcastLater(s);
    var t := BroadcastNow(s);
    if Spaced(s, since) && TimevalDiff(s.now, s.lastCaretUpdate) >= s.interval {
      FurtherApart(s.now, s.lastCaretUpdate, since);
      forall i, j | 0 <= i < j < |t.log| && t.log[i].Broadcast? && t.log[j].Broadcast?
        ensures NotBefore(t.log[j].at, t.log[i].at) && TimevalDiff(t.log[j].at, t.log[i].at) >= t.interval
      {
        if j == |s.log| {
          FurtherApart(s.now, s.lastCaretUpdate, t.log[i].at);
        }
      }
    }
  }

  lemma BroadcastLater(s: State)
    requires OnTime(s)
    ensures OnTime(BroadcastNow(s))
  {
    forall i | 0 <= i < |s.log| && s.log[i].Broadcast?
      ensures NotBefore(s.now, s.log[i].at)
    {
      InOrder(s.now, s.lastCaretUpdate);
      InOrder(s.lastCaretUpdate, s.log[i].at);
    }
  }

  lemma FurtherApart(a: Time, b: Time, c: Time)
    requires NotBefore(a, b) && NotBefore(b, c)
    ensures NotBefore(a, c) && TimevalDiff(a, c) >= TimevalDiff(a, b)
  {
    RoundedGrows(c.InMicros(), b.InMicros());
  }

  /** Another entry that is no broadcast. */
  lemma EntryKeeps(s: State, e: Entry, since: Time)
    requires Current(s) && OnTime(s) && !e.Broadcast?
    ensures var t := s.(selection := e.selection, log := s.log + [e]);
      Current(t) && OnTime(t) && (Spaced(s, since) ==> Spaced(t, since))
  {
    hide TimevalDiff;
  }

  /** A selection that has moved waits no less and no more. */
  lemma MoveKeeps(s: State, sel: Selection, since: Time)
    requires Invariant(s)
    ensures var t := s.(selection := sel, log := s.log + [Moved(sel)]);
      Invariant(t) && (Spaced(s, since) ==> Spaced(t, since))
  {
    hide TimevalDiff, Rounded, Current, OnTime, Spaced;
    EntryKeeps(s, Moved(sel), since);
    WaitingAfter(s.log, Moved(sel));
    if i: nat :| Waiting(s.log, i) {
      assert Waiting(s.log + [Moved(sel)], i);
    }
  }

  lemma ClockKeeps(s: State, to: Time, since: Time)
    requires Invariant(s) && NotBefore(to, s.now)
    ensures Invariant(s.(now := to)) && (Spaced(s, since) ==> Spaced(s.(now := to), since))
  {
    hide TimevalDiff, Waiting, Rounded;
    InOrder(to, s.now);
    InOrder(s.now, s.lastCaretUpdate);
    InOrder(to, s.lastCaretUpdate);
  }

  /** Every event keeps the invariant, and every one but an explicit flush keeps the
      broadcasts apart. */
  lemma StepKeeps(s: State, e: Event, since: Time)
    requires Invariant(s) && Possible(s, e)
    ensures Invariant(Step(s, e))
    ensures Spaced(s, since) && e != Flush ==> Spaced(Step(s, e), since)
  {
    hide TimevalDiff, Rounded, Current, InTime, Spaced;
    match e
    case ClockMoves(to) => ClockKeeps(s, to, since);
    case SelectionChanges(sel, byRequest) =>
      if byRequest { RequestKeeps(s, sel, since); } else { MoveKeeps(s, sel, since); }
    case TextChanges(sel) => MoveKeeps(s, sel, since);
    case ApplyBegins => FlagKeeps(s, true, since);
    case ApplyEnds => FlagKeeps(s, false, since);
    case TimeoutFires => TimeoutKeeps(s, since);
    case Flush =>
      if s.caretTimeout.Due? {
        BroadcastKeeps(s, since);
      }
  }

  lemma FlagKeeps(s: State, applying: bool, since: Time)
    requires Invariant(s)
    ensures Invariant(s.(applyRequest := applying))
    ensures Spaced(s, since) ==> Spaced(s.(applyRequest := applying), since)
  {
    hide TimevalDiff, Rounded, Waiting;
  }

  lemma TimeoutKeeps(s: State, since: Time)
    requires Invariant(s) && Possible(s, TimeoutFires)
    ensures var t := Step(s, TimeoutFires); Invariant(t) && (Spaced(s, since) ==> Spaced(t, since))
  {
    hide Rounded, InTime, Waiting;
    RoundedGrows(s.caretTimeout.micros, s.now.InMicros());
    BroadcastKeeps(s.(caretTimeout := NoTimeout), since);
  }

  lemma RequestKeeps(s: State, sel: Selection, since: Time)
    requires Invariant(s) && Possible(s, SelectionChanges(sel, true))
    ensures var t := Step(s, SelectionChanges(sel, true)); Invariant(t) && (Spaced(s, since) ==> Spaced(t, since))
  {
    hide Waiting, Rounded;
    var t := s.(selection := sel, log := s.log + [Requested(sel, s.now)]);
    EntryKeeps(s, Requested(sel, s.now), since);
    WaitingAfter(s.log, Requested(sel, s.now));
    var diff := TimevalDiff(s.now, s.lastCaretUpdate);
    if diff >= s.interval {
      BroadcastKeeps(t, since);
    } else {
      if s.caretTimeout.Due? { NotOverdue(s); } else { RoundedPlus(s.now.InMicros(), s.interval - diff); }
      StillInTime(s, sel);
    }
  }

  /** A selection that is asked for waits for the timer that runs, or for a new one. */
  lemma StillInTime(s: State, sel: Selection)
    requires InTime(s) && !s.applyRequest && OnTime(s)
    requires s.caretTimeout.Due? ==> s.now.InMicros() < s.caretTimeout.micros
    requires TimevalDiff(s.now, s.lastCaretUpdate) < s.interval
    ensures InTime(Step(s, SelectionChanges(sel, true)))
  {
    hide Rounded;
    WaitingAfter(s.log, Requested(sel, s.now));
    assert Waiting(s.log + [Requested(sel, s.now)], |s.log|);
  }

  /** As long as the interval has not passed, no timer is overdue. */
  lemma NotOverdue(s: State)
    requires OnTime(s) && s.caretTimeout.Due? && TimevalDiff(s.now, s.lastCaretUpdate) < s.interval
    ensures s.now.InMicros() < s.caretTimeout.micros
  {
    if s.caretTimeout.micros <= s.now.InMicros() {
      RoundedGrows(s.caretTimeout.micros, s.now.InMicros());
    }
  }

  /** Rounding does not care about whole milliseconds. */
  lemma RoundedPlus(micros: nat, ms: nat)
    ensures Rounded(micros + ms * 1000) == Rounded(micros) + ms
  {
  }

  /** The state in which a local user joins. */
  function Joined(interval: nat, now: Time, selection: Selection): State {
    State(interval, now, false, selection, now, NoTimeout, [])
  }

  ghost predicate Run(s: State, events: seq<Event>)
    requires Invariant(s)
    decreases |events|
  {
    events == [] || (Possible(s, events[0]) && (StepKeeps(s, events[0], s.now); Run(Step(s, events[0]), events[1..])))
  }

  ghost function After(s: State, events: seq<Event>): State
    requires Invariant(s) && Run(s, events)
    decreases |events|
  {
    if events == [] then s else StepKeeps(s, events[0], s.now); After(Step(s, events[0]), events[1..])
  }

  /** The selection a user has after some events, and the clock. */
  function LatestSelection(selection: Selection, events: seq<Event>): Selection
    decreases |events|
  {
    if events == [] then selection
    else
      var sel := match events[0]
        case SelectionChanges(sel, _) => sel
        case TextChanges(sel) => sel
        case _ => selection;
      LatestSelection(sel, events[1..])
  }

  function LatestTime(now: Time, events: seq<Event>): Time
    decreases |events|
  {
    if events == [] then now
    else LatestTime(if events[0].ClockMoves? then events[0].to else now, events[1..])
  }

  lemma {:induction false} RunKeeps(s: State, events: seq<Event>, since: Time)
    requires Invariant(s) && Run(s, events)
    ensures var t := After(s, events);
      && Invariant(t) && t.interval == s.interval
      && t.selection == LatestSelection(s.selection, events) && t.now == LatestTime(s.now, events)
      && (Spaced(s, since) && Flush !in events ==> Spaced(t, since))
    decreases |events|
  {
    hide Spaced, Waiting, Current, InTime;
    if events != [] {
      StepKeeps(s, events[0], s.now);
      StepKeeps(s, events[0], since);
      RunKeeps(Step(s, events[0]), events[1..], since);
    }
  }

  /** Whatever happens once a local user has joined: every broadcast tells the selection of its
      time; a timer runs exactly if a selection waits that was asked for, and it was set to run
      out after that, as soon as the interval is over; and without flushes the broadcasts and
      the time of joining are at least the interval apart. */
  lemma Throttled(interval: nat, now: Time, selection: Selection, events: seq<Event>)
    requires Run(Joined(interval, now, selection), events)
    ensures var t := After(Joined(interval, now, selection), events);
      && Current(t) && t.selection == LatestSelection(selection, events) && t.now == LatestTime(now, events)
      && (t.caretTimeout.Due? <==> exists i: nat :: Waiting(t.log, i))
      && (forall i: nat :: Waiting(t.log, i) ==>
            && t.log[i].at.InMicros() < t.caretTimeout.micros <= t.log[i].at.InMicros() + interval * 1000
            && Rounded(t.caretTimeout.micros) == Rounded(t.lastCaretUpdate.InMicros()) + interval)
      && (Flush !in events ==> t.interval == interval && Spaced(t, now))
  {
    hide Rounded;
    RunKeeps(Joined(interval, now, selection), events, now);
  }

  /** A selection that is asked for is broadcast at once exactly if the interval is over;
      otherwise a timer runs from then on. */
  lemma SentAtOnce(s: State, sel: Selection)
    requires Invariant(s) && !s.applyRequest
    ensures var t := Step(s, SelectionChanges(sel, true));
      var over := Rounded(s.now.InMicros()) >= Rounded(s.lastCaretUpdate.InMicros()) + s.interval;
      && t.log == s.log + [Requested(sel, s.now)] + (if over then [Broadcast(sel, s.now)] else [])
      && (t.caretTimeout.NoTimeout? <==> over) && (over ==> t.lastCaretUpdate == s.now)
  {
    hide Rounded;
  }

  /** A flush broadcasts exactly if a selection waits. */
  lemma FlushSendsWhatWaits(s: State)
    requires Invariant(s)
    ensures var t := Step(s, Flush);
      && ((exists i: nat :: Waiting(s.log, i)) ==> t.log == s.log + [Broadcast(s.selection, s.now)])
      && ((forall i: nat :: !Waiting(s.log, i)) ==> t == s)
      && forall i: nat :: !Waiting(t.log, i)
  {
    hide Waiting, Rounded;
    WaitingAfter(s.log, Broadcast(s.selection, s.now));
  }

  /** What the application of a request does to selections: they move, and that is all. */
  predicate OnlyMoves(events: seq<Event>) {
    forall e :: e in events ==> e.ClockMoves? || e.SelectionChanges? || e.TextChanges?
  }

  lemma {:induction false} MovesSendNothing(s: State, events: seq<Event>)
    requires Invariant(s) && s.applyRequest && Run(s, events) && OnlyMoves(events)
    ensures var t := After(s, events);
      && t.caretTimeout == s.caretTimeout && t.lastCaretUpdate == s.lastCaretUpdate
      && s.log <= t.log && forall i :: |s.log| <= i < |t.log| ==> t.log[i].Moved?
    decreases |events|
  {
    hide Current, InTime;
    if events != [] {
      StepKeeps(s, events[0], s.now);
      MovesSendNothing(Step(s, events[0]), events[1..]);
    }
  }

  /** While a request is applied nothing is broadcast for it, nor is a timer started; once it has
      been, selections can be asked for. */
  lemma ApplyingSendsNothing(s: State, events: seq<Event>)
    requires Invariant(s) && Run(s, [ApplyBegins] + events) && OnlyMoves(events)
    ensures var t := After(s, [ApplyBegins] + events);
      && t.caretTimeout == s.caretTimeout && t.lastCaretUpdate == s.lastCaretUpdate
      && (s.log <= t.log && forall i :: |s.log| <= i < |t.log| ==> t.log[i].Moved?)
      && Invariant(t) && forall sel :: Possible(Step(t, ApplyEnds), SelectionChanges(sel, true))
  {
    hide Current, InTime;
    OneEvent(s, ApplyBegins, events);
    MovesSendNothing(Step(s, ApplyBegins), events);
    RunKeeps(Step(s, ApplyBegins), events, s.now);
  }

  lemma OneEvent(s: State, e: Event, events: seq<Event>)
    requires Invariant(s) && Possible(s, e)
    ensures Invariant(Step(s, e))
    ensures Run(s, [e] + events) <==> Run(Step(s, e), events)
    ensures Run(Step(s, e), events) ==> After(s, [e] + events) == After(Step(s, e), events)
  {
    hide Invariant, Step, Possible;
    StepKeeps(s, e, s.now);
    assert ([e] + events)[1..] == events;
  }

  /** A flush does not wait for the interval to pass. */
  lemma FlushComesEarly(sel: Selection) returns (events: seq<Event>)
    ensures var s := Joined(500, Time(0, 0), sel); Run(s, events) && !Spaced(After(s, events), s.now)
  {
    hide Run, After;
    var clock, request := ClockMoves(Time(1, 0)), SelectionChanges(sel, true);
    var flushed := [Flush] + [];
    var again := [request] + flushed;
    var requested := [request] + again;
    events := [clock] + requested;
    var s0 := Joined(500, Time(0, 0), sel);
    var s1 := Step(s0, clock);
    var s2 := Step(s1, request);
    var s3 := Step(s2, request);
    var s4 := Step(s3, Flush);
    OneEvent(s0, clock, requested);
    OneEvent(s1, request, again);
    OneEvent(s2, request, flushed);
    OneEvent(s3, Flush, []);
    NoEvents(s4);
    assert s4.log[1] == Broadcast(sel, Time(1, 0)) == s4.log[3];
  }

  lemma NoEvents(s: State)
    requires Invariant(s)
    ensures Run(s, []) && After(s, []) == s
  {
  }

  // ----- the session -----

  /** The session as far as it goes for one local user: his selection, when it was broadcast
      last, and the timer that waits to broadcast it again. */
  class Session {
    const interval: nat
    var now: Time
    var applyRequest: bool
    var selection: Selection
    var lastCaretUpdate: Time
    var caretTimeout: Timeout
    var log: seq<Entry>

    function Value(): State
      reads this
    {
      State(interval, now, applyRequest, selection, lastCaretUpdate, caretTimeout, log)
    }

    constructor AddLocalUser(interval: nat, now: Time, selection: Selection)
      ensures Value() == Joined(interval, now, selection)
    {
      this.interval, this.now, this.applyRequest, this.selection := interval, now, false, selection;
      lastCaretUpdate, caretTimeout, log := now, NoTimeout, [];
    }

    method BroadcastCaretSelection()
      modifies this
      ensures Value() == BroadcastNow(old(Value()))
    {
      log := log + [Broadcast(selection, now)];
      lastCaretUpdate := now;
      if caretTimeout != NoTimeout {
        caretTimeout := NoTimeout;
      }
    }

    method CaretUpdateTimeout()
      requires Possible(Value(), TimeoutFires) && NotBefore(now, lastCaretUpdate)
      modifies this
      ensures Value() == Step(old(Value()), TimeoutFires)
    {
      caretTimeout := NoTimeout;
      BroadcastCaretSelection();
    }

    /** The user's selection is changed first, and the session hears of it then. */
    method SelectionChanged(selection: Selection, byRequest: bool)
      requires NotBefore(now, lastCaretUpdate) && Possible(Value(), SelectionChanges(selection, byRequest))
      modifies this
      ensures Value() == Step(old(Value()), SelectionChanges(selection, byRequest))
    {
      this.selection := selection;
      log := log + [if byRequest then Requested(selection, now) else Moved(selection)];
      assert (applyRequest && !byRequest) || (!applyRequest && byRequest);
      if !applyRequest {
        var diff := TimevalDiff(now, lastCaretUpdate);
        if diff < interval {
          if caretTimeout == NoTimeout {
            caretTimeout := Due(now.InMicros() + (interval - diff) * 1000);
          }
        } else {
          BroadcastCaretSelection();
        }
      }
    }

    method FlushRequests()
      requires NotBefore(now, lastCaretUpdate)
      modifies this
      ensures Value() == Step(old(Value()), Flush)
    {
      if caretTimeout != NoTimeout {
        BroadcastCaretSelection();
      }
    }
  }
}
