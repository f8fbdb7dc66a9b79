/**
 The race of src/Race/: a `Race` whose behaviour depends on its current state
 object (Initialized, Countdown, InProgress, Complete, Aborted), each state
 holding its own tick counter. Here the state is a `Phase` value carrying its
 counter, the race is an immutable record, and every event is a function from
 the race to the next race and the effects it sends, in sending order.
 */
module SplitRace {

  import opened Wrappers
  import opened Text
  import opened Types
  import opened ParticipantList
  import opened Roster
  import opened Chat

  const CountdownTicks: int := 20
  const DebugCountdownTicks: int := 5
  const BroadcastThreshold: int := 5
  const AutocompleteTicks: int := 30
  const DebugAutocompleteTicks: int := 10
  const DebugPhrase: string := "test string"

  /** The notice to unfinished participants, opened by U+274C CROSS MARK and two spaces. */
  const EndedText: string := "\U{274C}  The race has ended."

  datatype Phase =
    | Initialized
    | Countdown(remainingTicks: int)
    | InProgress(remainingTicks: int)
    | Complete
    | Aborted

  /**
   The race's fields: the phrase to type, the debug flag, the current phase,
   the joined users in join order, the completion times, the start instant
   (milliseconds) once stamped, and whether the one-second interval is live.
   */
  datatype Race = Race(
    phrase: string,
    debugMode: bool,
    phase: Phase,
    participants: seq<User>,
    completionTimes: CompletionTimes,
    startTime: Option<nat>,
    ticking: bool)

  /** The race after one event, and what the event sent, in order. */
  datatype Step = Step(race: Race, out: seq<Effect>)

  predicate Terminal(p: Phase) {
    p.Complete? || p.Aborted?
  }

  /**
   What holds of a race in each phase, from creation on: who may be listed,
   whether a start time exists, whether the interval is live, and that the
   counter of the current phase is still positive.
   */
  predicate Valid(r: Race) {
    && DistinctIds(r.participants)
    && match r.phase
       case Initialized =>
         r.participants == [] && r.completionTimes == map[] && r.startTime.None? && !r.ticking
       case Countdown(n) =>
         1 <= n && r.completionTimes == map[] && r.startTime.None? && r.ticking
       case InProgress(n) =>
         1 <= n && r.participants != [] && r.startTime.Some? && r.ticking
       case Complete =>
         r.participants != [] && r.startTime.Some? && !r.ticking
       case Aborted =>
         r.participants == [] && r.completionTimes == map[] && r.startTime.None? && !r.ticking
  }

  /** The constructor: Initialized, nobody joined, no times, no start, no interval. */
  function NewRace(debugMode: bool, quote: string): (r: Race)
    ensures Valid(r) && r.phase.Initialized?
    ensures r.debugMode == debugMode
    ensures r.phrase == if debugMode then DebugPhrase else quote
  {
    Race(if debugMode then DebugPhrase else quote, debugMode, Initialized, [], map[], None, false)
  }

  function List(r: Race): string {
    RenderList(r.participants, r.completionTimes)
  }

  /** `renderPublicMessage` of the current state. */
  function Render(r: Race): View {
    match r.phase
    case Initialized => NoChange
    case Countdown(n) => CountdownView(n, List(r))
    case InProgress(n) => InProgressView(n, List(r))
    case Complete => CompleteView(r.phrase, List(r))
    case Aborted => AbortedView
  }

  function InitialCountdown(debugMode: bool): int {
    if debugMode then DebugCountdownTicks else CountdownTicks
  }

  function InitialAutocomplete(debugMode: bool): int {
    if debugMode then DebugAutocompleteTicks else AutocompleteTicks
  }

  /**
   `gatherParticipants`: enter Countdown (its counter set, the join view sent
   as the command's reply, private in debug mode), then start the interval.
   */
  function Gather(r: Race): (s: Step)
    ensures s.race.phase == Countdown(InitialCountdown(r.debugMode))
    ensures s.race.ticking
    ensures s.out == [Reply(Render(s.race), r.debugMode)]
    ensures Valid(r) && r.phase.Initialized? ==> Valid(s.race)
  {
    var entered := r.(phase := Countdown(InitialCountdown(r.debugMode)));
    Step(entered.(ticking := true), [Reply(Render(entered), r.debugMode)])
  }

  /** `cleanup`: show the current state's view, then clear the interval if one is live. */
  function Cleanup(r: Race): Step {
    Step(r.(ticking := false), [EditReply(Render(r))] + (if r.ticking then [StopTicking] else []))
  }

  /** `complete`: enter Complete, run the callback, then clean up. */
  function Finish(r: Race): (s: Step)
    ensures s.race == r.(phase := Complete, ticking := false)
    ensures s.out == [RaceOver, EditReply(Render(s.race))] + (if r.ticking then [StopTicking] else [])
  {
    var done := Cleanup(r.(phase := Complete));
    Step(done.race, [RaceOver] + done.out)
  }

  /** Entering Aborted: clean up, then run the callback. */
  function EnterAborted(r: Race): Step {
    var done := Cleanup(r.(phase := Aborted));
    Step(done.race, done.out + [RaceOver])
  }

  /** Entering InProgress: set its counter, stamp the start, send the phrase to everyone in join order. */
  function EnterInProgress(r: Race, now: nat): Step {
    Step(r.(phase := InProgress(InitialAutocomplete(r.debugMode)), startTime := Some(now)),
         SendAll(r.participants, StartMessage(r.phrase)))
  }

  /** Countdown's `start`: Aborted when nobody joined, InProgress otherwise. */
  function Start(r: Race, now: nat): Step {
    if |r.participants| == 0 then EnterAborted(r) else EnterInProgress(r, now)
  }

  /**
   Countdown's `tick`: the pre-decrement count goes to every participant when
   it is at most the threshold; the counter drops by one; at zero or below the
   race starts.
   */
  function CountdownTick(r: Race, n: int, now: nat): Step {
    var notices := if n <= BroadcastThreshold then SendAll(r.participants, CountdownNotice(n)) else [];
    if n - 1 <= 0 then
      var started := Start(r, now);
      Step(started.race, notices + started.out)
    else Step(r.(phase := Countdown(n - 1)), notices)
  }

  /** `autocomplete`: tell each participant without a truthy time that the race ended, then complete. */
  function Autocomplete(r: Race): Step {
    var done := Finish(r);
    Step(done.race, SendAll(Unfinished(r.participants, r.completionTimes), EndedText) + done.out)
  }

  /** InProgress's `tick`: the counter drops by one; at zero or below the race autocompletes. */
  function InProgressTick(r: Race, n: int): Step {
    var counted := r.(phase := InProgress(n - 1));
    if n - 1 <= 0 then Autocomplete(counted) else Step(counted, [])
  }

  /** The current state's `tick`; Initialized, Complete and Aborted keep the no-op default. */
  function StateTick(r: Race, now: nat): Step {
    match r.phase
    case Countdown(n) => CountdownTick(r, n, now)
    case InProgress(n) => InProgressTick(r, n)
    case _ => Step(r, [])
  }

  /** `Race.tick`: the state's tick, then an edit showing the resulting state. */
  function OnTick(r: Race, now: nat): (s: Step)
    ensures |s.out| >= 1 && s.out[|s.out| - 1] == EditReply(Render(s.race))
    ensures !r.phase.Countdown? && !r.phase.InProgress? ==> s == Step(r, [EditReply(Render(r))])
    ensures r.phase.Countdown? && r.phase.remainingTicks > 1 ==>
      && s.race == r.(phase := Countdown(r.phase.remainingTicks - 1))
      && s.out == (if r.phase.remainingTicks <= BroadcastThreshold then SendAll(r.participants, CountdownNotice(r.phase.remainingTicks)) else [])
                  + [EditReply(Render(s.race))]
    ensures r.phase.InProgress? && r.phase.remainingTicks > 1 ==>
      s == Step(r.(phase := InProgress(r.phase.remainingTicks - 1)), [EditReply(Render(s.race))])
  {
    var ticked := StateTick(r, now);
    Step(ticked.race, ticked.out + [EditReply(Render(ticked.race))])
  }

  /** `addParticipant`: a known user changes nothing; a new one is appended, welcomed, acknowledged and shown. */
  function AddUser(r: Race, user: User): Step {
    if HasParticipant(r.participants, user) then Step(r, [])
    else
      var joined := r.(participants := AddParticipant(r.participants, user));
      Step(joined, [Send(user, JoinedText), Acknowledge, EditReply(Render(joined))])
  }

  /** `consumeButtonInteraction`: only Countdown reacts, and only to the join button. */
  function OnPress(r: Race, user: User, customId: string): (s: Step)
    ensures !r.phase.Countdown? || customId != JoinRaceId ==> s == Step(r, [])
    ensures r.phase.Countdown? && customId == JoinRaceId ==>
      && s.race.participants == AddParticipant(r.participants, user)
      && (HasParticipant(r.participants, user) ==> s.out == [])
      && (!HasParticipant(r.participants, user) ==> s.out == [Send(user, JoinedText), Acknowledge, EditReply(Render(s.race))])
    ensures s.race.phrase == r.phrase && s.race.phase == r.phase && s.race.startTime == r.startTime
    ensures s.race.completionTimes == r.completionTimes && s.race.ticking == r.ticking
  {
    if r.phase.Countdown? && customId == JoinRaceId then AddUser(r, user) else Step(r, [])
  }

  /**
   `consumeMessage`: outside InProgress the author is told the race is not
   active; in InProgress a text other than the phrase gets a notice, the
   phrase itself gets "Completed", a recorded time and the completion check.
   */
  function OnPost(r: Race, author: User, text: string, now: nat): (s: Step)
    ensures !r.phase.InProgress? ==> s == Step(r, [Send(author, InactiveText)])
    ensures r.phase.InProgress? && text != r.phrase ==> s == Step(r, [Send(author, MismatchText)])
    ensures r.phase.InProgress? && text == r.phrase ==>
      && |s.out| >= 1 && s.out[0] == Send(author, CompletedText)
      && s.race.completionTimes == MarkComplete(r.completionTimes, r.startTime, author, now)
      && (s.race.phase == Complete <==> AllFinished(r.participants, s.race.completionTimes))
      && (s.race.phase != Complete ==> s.race.phase == r.phase && s.out == [Send(author, CompletedText)])
      && (s.race.phase == Complete ==>
            && s.race == r.(completionTimes := s.race.completionTimes, phase := Complete, ticking := false)
            && s.out == [Send(author, CompletedText), RaceOver, EditReply(Render(s.race))] + (if r.ticking then [StopTicking] else []))
    ensures s.race.participants == r.participants && s.race.startTime == r.startTime
    ensures s.race.phrase == r.phrase
  {
    match r.phase
    case InProgress(_) =>
      if text != r.phrase then Step(r, [Send(author, MismatchText)])
      else
        var marked := r.(completionTimes := MarkComplete(r.completionTimes, r.startTime, author, now));
        if AllFinished(marked.participants, marked.completionTimes) then
          var done := Finish(marked);
          Step(done.race, [Send(author, CompletedText)] + done.out)
        else Step(marked, [Send(author, CompletedText)])
    case _ => Step(r, [Send(author, InactiveText)])
  }

  /** One inbound event. */
  function Apply(r: Race, e: Event): Step {
    match e
    case Tick(now) => OnTick(r, now)
    case Press(user, customId) => OnPress(r, user, customId)
    case Post(author, text, now) => OnPost(r, author, text, now)
  }

  /** A series of events, one at a time in arrival order; the effects are concatenated. */
  function Run(r: Race, events: seq<Event>): Step
    decreases |events|
  {
    if |events| == 0 then Step(r, [])
    else
      var first := Apply(r, events[0]);
      var rest := Run(first.race, events[1..]);
      Step(rest.race, first.out + rest.out)
  }
}
