/**
 The race tracker of src/raceTracker.ts: a single slot for the current race
 (the src/Race.ts variant). A race command creates a race only when the slot
 is empty; direct messages and button presses go to the current race; the
 race's completion callback empties the slot. The race's own interval ticks
 are delivered here too, to the race in the slot, since only that race has a
 live interval.
 */
module Tracker {

  import opened Wrappers
  import opened Types
  import opened Chat
  import opened MonoRace
  import MonoRaceLifecycle

  const AlreadyActiveText: string := "A race is already active"
  const NoRaceText: string := "No active race"

  datatype Tracker = Tracker(current: Option<Race>)

  /** The tracker after one request, and what it sent, in order. */
  datatype Outcome = Outcome(tracker: Tracker, out: seq<Effect>)

  datatype Request =
    | Create(quote: string)  // the race command, with the quote the race draws
    | Inbound(e: Event)      // a direct message, a button press, or the current race's tick

  const Idle: Tracker := Tracker(None)

  /**
   What holds of the slot between requests: the race in it is valid, has
   been gathered and not ended, keeps its interval live and is not a debug race.
   */
  predicate TrackerValid(t: Tracker) {
    t.current.Some? ==>
      var r := t.current.value;
      Valid(r) && (r.phase == Countdown || r.phase == InProgress) && r.ticking && !r.debugMode
  }

  /** `createRace`: refused while a race is current; otherwise a new race is gathered and becomes current. */
  function CreateRace(t: Tracker, quote: string): (o: Outcome)
    ensures t.current.Some? ==> o == Outcome(t, [Reply(Show(AlreadyActiveText, []), true)])
    ensures t.current.None? ==>
      && o.tracker.current.Some?
      && o.tracker.current.value.phrase == quote
      && o.tracker.current.value.phase == Countdown
      && o.tracker.current.value.participants == []
      && o.tracker.current.value.countdownTicks == 20
      && o.out == [Reply(Render(o.tracker.current.value), false)]
  {
    if t.current.Some? then Outcome(t, [Reply(Show(AlreadyActiveText, []), true)])
    else
      var gathered := Gather(NewRace(false, quote));
      Outcome(Tracker(Some(gathered.race)), gathered.out)
  }

  /** Hand one step's result back to the slot: a step that ran the completion callback empties it. */
  function Keep(s: Step): (o: Outcome)
    ensures o.out == s.out
    ensures o.tracker.current.None? <==> RaceOver in s.out
  {
    Outcome(Tracker(if RaceOver in s.out then None else Some(s.race)), s.out)
  }

  /** `consumeMessage`: with no current race the author is told so; otherwise the race consumes it. */
  function ConsumeMessage(t: Tracker, author: User, text: string, now: nat): Outcome {
    match t.current
    case None => Outcome(t, [Send(author, NoRaceText)])
    case Some(r) => Keep(OnPost(r, author, text, now))
  }

  /** `consumeButtonInteraction`: ignored with no current race; otherwise the race consumes it. */
  function ConsumeButton(t: Tracker, user: User, customId: string): Outcome {
    match t.current
    case None => Outcome(t, [])
    case Some(r) => Keep(OnPress(r, user, customId))
  }

  /** One firing of the current race's interval; with no current race there is no interval. */
  function TimerTick(t: Tracker, now: nat): Outcome {
    match t.current
    case None => Outcome(t, [])
    case Some(r) => Keep(OnTick(r, now))
  }

  function Handle(t: Tracker, req: Request): Outcome {
    match req
    case Create(quote) => CreateRace(t, quote)
    case Inbound(Post(author, text, now)) => ConsumeMessage(t, author, text, now)
    case Inbound(Press(user, customId)) => ConsumeButton(t, user, customId)
    case Inbound(Tick(now)) => TimerTick(t, now)
  }

  function RunTracker(t: Tracker, reqs: seq<Request>): Outcome
    decreases |reqs|
  {
    if |reqs| == 0 then Outcome(t, [])
    else
      var first := Handle(t, reqs[0]);
      var rest := RunTracker(first.tracker, reqs[1..]);
      Outcome(rest.tracker, first.out + rest.out)
  }

  /** An inbound event reaches the current race exactly as the race alone would take it. */
  lemma InboundGoesToCurrent(t: Tracker, e: Event)
    requires t.current.Some?
    ensures Handle(t, Inbound(e)).out == Apply(t.current.value, e).out
    ensures RaceOver !in Apply(t.current.value, e).out ==> Handle(t, Inbound(e)).tracker.current == Some(Apply(t.current.value, e).race)
  {
  }

  /**
   Inbound events with the slot holding a live race: the race stays current
   and valid until the step that ends it, and that step, and only that one,
   runs the callback and empties the slot.
   */
  lemma InboundKeepsValid(t: Tracker, e: Event)
    requires TrackerValid(t) && t.current.Some?
    ensures TrackerValid(Handle(t, Inbound(e)).tracker)
    ensures Handle(t, Inbound(e)).tracker.current.None? <==> Terminal(Apply(t.current.value, e).race.phase)
    ensures CountFired(Handle(t, Inbound(e)).out) == if Handle(t, Inbound(e)).tracker.current.None? then 1 else 0
  {
    var r := t.current.value;
    var s := Apply(r, e);
    MonoRaceLifecycle.StepFiresOnEnd(r, e);
    MonoRaceLifecycle.StepKeepsValid(r, e);
    MonoRaceLifecycle.StepMoves(r, e);
    assert Handle(t, Inbound(e)) == Keep(s);
    assert RaceOver in s.out <==> CountFired(s.out) > 0;
  }

  /** Every request keeps the slot invariant. */
  lemma HandleKeepsValid(t: Tracker, req: Request)
    requires TrackerValid(t)
    ensures TrackerValid(Handle(t, req).tracker)
  {
    match req
    case Create(quote) =>
    case Inbound(e) =>
      if t.current.Some? {
        InboundKeepsValid(t, e);
      }
  }

  /**
   The single-race guard: a race command while a race is current changes
   nothing and only answers, privately, that a race is already active; with
   the slot empty it always creates a race.
   */
  lemma CreateOnlyWhenIdle(t: Tracker, quote: string)
    ensures var o := Handle(t, Create(quote));
      && (t.current.Some? <==> o.tracker == t)
      && (t.current.Some? ==> o.out == [Reply(Show(AlreadyActiveText, []), true)])
      && CountFired(o.out) == 0
  {
    var o := Handle(t, Create(quote));
    assert RaceOver !in o.out;
  }

  /**
   A request with the slot empty never runs a callback; a message is answered
   that no race is active, and a button press is ignored.
   */
  lemma IdleTrackerAnswers(t: Tracker, req: Request)
    requires t == Idle
    ensures CountFired(Handle(t, req).out) == 0
    ensures req.Inbound? ==> Handle(t, req).tracker == t
    ensures req.Inbound? && req.e.Post? ==> Handle(t, req).out == [Send(req.e.author, NoRaceText)]
    ensures req.Inbound? && req.e.Press? ==> Handle(t, req).out == []
  {
    assert RaceOver !in Handle(t, req).out;
  }

  /**
   Over any series of requests from a valid tracker, the slot stays valid and
   every race that was current at some point and left the slot ran its
   callback exactly once: the callbacks counted in the log equal the races
   that entered the slot minus those still in it.
   */
  lemma {:induction false} RunTrackerAccounts(t: Tracker, reqs: seq<Request>)
    requires TrackerValid(t)
    ensures TrackerValid(RunTracker(t, reqs).tracker)
    ensures CountFired(RunTracker(t, reqs).out) + Active(RunTracker(t, reqs).tracker)
      == Active(t) + Admitted(t, reqs)
    decreases |reqs|
  {
    if |reqs| > 0 {
      var first := Handle(t, reqs[0]);
      HandleKeepsValid(t, reqs[0]);
      RunTrackerAccounts(first.tracker, reqs[1..]);
      FiredConcat(first.out, RunTracker(first.tracker, reqs[1..]).out);
      match reqs[0]
      case Create(quote) => CreateOnlyWhenIdle(t, quote);
      case Inbound(e) =>
        if t.current.Some? {
          InboundKeepsValid(t, e);
        } else {
          IdleTrackerAnswers(t, reqs[0]);
        }
    }
  }

  function Active(t: Tracker): nat {
    if t.current.Some? then 1 else 0
  }

  /** How many of the requests are race commands that find the slot empty, so a race is created. */
  function Admitted(t: Tracker, reqs: seq<Request>): nat
    decreases |reqs|
  {
    if |reqs| == 0 then 0
    else
      (if reqs[0].Create? && t.current.None? then 1 else 0) + Admitted(Handle(t, reqs[0]).tracker, reqs[1..])
  }
}
