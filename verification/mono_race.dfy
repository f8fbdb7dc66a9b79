/**
 The race of src/Race.ts, the variant the tracker uses: the same states as
 src/Race/, but both tick counters live on the race itself and are set once,
 by the constructor. The autocomplete counter starts at the countdown budget
 plus the autocomplete budget and only counts down in InProgress. The start
 time is stamped by Countdown's `start` before InProgress is entered.
 */
module MonoRace {

  import opened Wrappers
  import opened Text
  import opened Types
  import opened ParticipantList
  import opened Roster
  import opened Chat

  const CountdownTicks: int := 20
  const DebugCountdownTicks: int := 5
  const BroadcastThreshold: int := 5
  const AutocompleteTicks: int := 30
  const DebugAutocompleteTicks: int := 5
  const DebugPhrase: string := "test string"

  /**
   The notice to unfinished participants as this file spells it: the UTF-8
   bytes of U+274C read back as Latin text, U+00E2 and U+0152, then two spaces.
   */
  const EndedText: string := "\U{E2}\U{152}  The race has ended."

  datatype Phase = Initialized | Countdown | InProgress | Complete | Aborted

  /**
   The race's fields: the phrase, the debug flag, the current state, the
   joined users in join order, the completion times, the start instant once
   stamped, whether the interval is live, and the two tick counters.
   */
  datatype Race = Race(
    phrase: string,
    debugMode: bool,
    phase: Phase,
    participants: seq<User>,
    completionTimes: CompletionTimes,
    startTime: Option<nat>,
    ticking: bool,
    countdownTicks: int,
    autocompleteTicks: int)

  datatype Step = Step(race: Race, out: seq<Effect>)

  predicate Terminal(p: Phase) {
    p == Complete || p == Aborted
  }

  function InitialCountdown(debugMode: bool): int {
    if debugMode then DebugCountdownTicks else CountdownTicks
  }

  /** The constructor's autocomplete counter: the countdown budget plus the autocomplete budget. */
  function InitialAutocomplete(debugMode: bool): int {
    if debugMode then DebugCountdownTicks + DebugAutocompleteTicks else CountdownTicks + AutocompleteTicks
  }

  /**
   What holds of a race in each state: who may be listed, whether a start
   time exists, whether the interval is live, and which counters are still
   at their initial value or positive.
   */
  predicate Valid(r: Race) {
    && DistinctIds(r.participants)
    && match r.phase
       case Initialized =>
         && r.participants == [] && r.completionTimes == map[] && r.startTime.None? && !r.ticking
         && r.countdownTicks == InitialCountdown(r.debugMode)
         && r.autocompleteTicks == InitialAutocomplete(r.debugMode)
       case Countdown =>
         && 1 <= r.countdownTicks && r.completionTimes == map[] && r.startTime.None? && r.ticking
         && r.autocompleteTicks == InitialAutocomplete(r.debugMode)
       case InProgress =>
         1 <= r.autocompleteTicks && r.participants != [] && r.startTime.Some? && r.ticking
       case Complete =>
         r.participants != [] && r.startTime.Some? && !r.ticking
       case Aborted =>
         r.participants == [] && r.completionTimes == map[] && r.startTime.None? && !r.ticking
  }

  /** The constructor: Initialized, both counters at their budgets, nothing else set. */
  function NewRace(debugMode: bool, quote: string): (r: Race)
    ensures Valid(r) && r.phase == Initialized
    ensures r.debugMode == debugMode
    ensures r.phrase == if debugMode then DebugPhrase else quote
    ensures r.countdownTicks == (if debugMode then 5 else 20)
    ensures r.autocompleteTicks == (if debugMode then 10 else 50)
  {
    Race(if debugMode then DebugPhrase else quote, debugMode, Initialized, [], map[], None, false,
         InitialCountdown(debugMode), InitialAutocomplete(debugMode))
  }

  function List(r: Race): string {
    RenderList(r.participants, r.completionTimes)
  }

  /** `renderPublicMessage` of the current state; the counters shown are the race's own. */
  function Render(r: Race): View {
    match r.phase
    case Initialized => NoChange
    case Countdown => CountdownView(r.countdownTicks, List(r))
    case InProgress => InProgressView(r.autocompleteTicks, List(r))
    case Complete => CompleteView(r.phrase, List(r))
    case Aborted => AbortedView
  }

  /** `gatherParticipants`: enter Countdown, whose entry sends the join view as the reply, then start the interval. */
  function Gather(r: Race): (s: Step)
    ensures s.race.phase == Countdown && s.race.ticking
    ensures s.race.countdownTicks == r.countdownTicks
    ensures s.out == [Reply(Render(s.race), r.debugMode)]
    ensures Valid(r) && r.phase == Initialized ==> Valid(s.race)
  {
    var entered := r.(phase := Countdown);
    Step(entered.(ticking := true), [Reply(Render(entered), r.debugMode)])
  }

  function Cleanup(r: Race): Step {
    Step(r.(ticking := false), [EditReply(Render(r))] + (if r.ticking then [StopTicking] else []))
  }

  /** `complete`: enter Complete, run the callback, then clean up. */
  function Finish(r: Race): (s: Step)
    ensures s.race == r.(phase := Complete, ticking := false)
    ensures s.out == [RaceOver, EditReply(Render(s.race))] + (if r.ticking then [StopTicking] else [])
  {
    var done := Cleanup(r.(phase := Complete));
    Step(done.race, [RaceOver] + done.out)
  }

  /**
   Countdown's `start`: with nobody joined, enter Aborted, clean up and run the
   callback; otherwise stamp the start and enter InProgress, whose entry sends
   the phrase to every participant in join order.
   */
  function Start(r: Race, now: nat): Step {
    if |r.participants| == 0 then
      var done := Cleanup(r.(phase := Aborted));
      Step(done.race, done.out + [RaceOver])
    else
      Step(r.(startTime := Some(now), phase := InProgress), SendAll(r.participants, StartMessage(r.phrase)))
  }

  /** Countdown's `tick`: notices with the pre-decrement count at or under the threshold, one tick off, start at zero or below. */
  function CountdownTick(r: Race, now: nat): Step {
    var n := r.countdownTicks;
    var notices := if n <= BroadcastThreshold then SendAll(r.participants, CountdownNotice(n)) else [];
    var counted := r.(countdownTicks := n - 1);
    if n - 1 <= 0 then
      var started := Start(counted, now);
      Step(started.race, notices + started.out)
    else Step(counted, notices)
  }

  /** `autocomplete`: tell each participant without a truthy time that the race ended, then complete. */
  function Autocomplete(r: Race): Step {
    var done := Finish(r);
    Step(done.race, SendAll(Unfinished(r.participants, r.completionTimes), EndedText) + done.out)
  }

  /** InProgress's `tick`: the autocomplete counter drops by one; at zero or below the race autocompletes. */
  function InProgressTick(r: Race): Step {
    var counted := r.(autocompleteTicks := r.autocompleteTicks - 1);
    if counted.autocompleteTicks <= 0 then Autocomplete(counted) else Step(counted, [])
  }

  function StateTick(r: Race, now: nat): Step {
    match r.phase
    case Countdown => CountdownTick(r, now)
    case InProgress => InProgressTick(r)
    case _ => Step(r, [])
  }

  /** `Race.tick`: the state's tick, then an edit showing the resulting state. */
  function OnTick(r: Race, now: nat): (s: Step)
    ensures |s.out| >= 1 && s.out[|s.out| - 1] == EditReply(Render(s.race))
    ensures r.phase != Countdown && r.phase != InProgress ==> s == Step(r, [EditReply(Render(r))])
    ensures r.phase == Countdown && r.countdownTicks > 1 ==>
      && s.race == r.(countdownTicks := r.countdownTicks - 1)
      && s.out == (if r.countdownTicks <= BroadcastThreshold then SendAll(r.participants, CountdownNotice(r.countdownTicks)) else [])
                  + [EditReply(Render(s.race))]
    ensures r.phase == InProgress && r.autocompleteTicks > 1 ==>
      s == Step(r.(autocompleteTicks := r.autocompleteTicks - 1), [EditReply(Render(s.race))])
  {
    var ticked := StateTick(r, now);
    Step(ticked.race, ticked.out + [EditReply(Render(ticked.race))])
  }

  /** `addParticipant`: a known user changes nothing; a new one is appended, welcomed, acknowledged and shown. */
  function AddUser(r: Race, user: User): Step {
    if HasParticipant(r.participants, user) then Step(r, [])
    else
      var joined := r.(participants := AddParticipant(r.participants, user));
      Step(joined, [Send(user, JoinedText), Acknowledge, EditReply(Render(joined))])
  }

  /** `consumeButtonInteraction`: only Countdown reacts, and only to the join button. */
  function OnPress(r: Race, user: User, customId: string): (s: Step)
    ensures r.phase != Countdown || customId != JoinRaceId ==> s == Step(r, [])
    ensures r.phase == Countdown && customId == JoinRaceId ==>
      && s.race.participants == AddParticipant(r.participants, user)
      && (HasParticipant(r.participants, user) ==> s.out == [])
      && (!HasParticipant(r.participants, user) ==> s.out == [Send(user, JoinedText), Acknowledge, EditReply(Render(s.race))])
    ensures s.race.phrase == r.phrase && s.race.phase == r.phase && s.race.startTime == r.startTime
    ensures s.race.completionTimes == r.completionTimes && s.race.ticking == r.ticking
    ensures s.race.countdownTicks == r.countdownTicks && s.race.autocompleteTicks == r.autocompleteTicks
  {
    if r.phase == Countdown && customId == JoinRaceId then AddUser(r, user) else Step(r, [])
  }

  /** `consumeMessage`: as in src/Race/, only InProgress accepts submissions. */
  function OnPost(r: Race, author: User, text: string, now: nat): (s: Step)
    ensures r.phase != InProgress ==> s == Step(r, [Send(author, InactiveText)])
    ensures r.phase == InProgress && text != r.phrase ==> s == Step(r, [Send(author, MismatchText)])
    ensures r.phase == InProgress && text == r.phrase ==>
      && |s.out| >= 1 && s.out[0] == Send(author, CompletedText)
      && s.race.completionTimes == MarkComplete(r.completionTimes, r.startTime, author, now)
      && (s.race.phase == Complete <==> AllFinished(r.participants, s.race.completionTimes))
      && (s.race.phase != Complete ==> s.race.phase == r.phase && s.out == [Send(author, CompletedText)])
      && (s.race.phase == Complete ==>
            && s.race == r.(completionTimes := s.race.completionTimes, phase := Complete, ticking := false)
            && s.out == [Send(author, CompletedText), RaceOver, EditReply(Render(s.race))] + (if r.ticking then [StopTicking] else []))
    ensures s.race.participants == r.participants && s.race.startTime == r.startTime
    ensures s.race.phrase == r.phrase && s.race.autocompleteTicks == r.autocompleteTicks
  {
    if r.phase != InProgress then Step(r, [Send(author, InactiveText)])
    else if text != r.phrase then Step(r, [Send(author, MismatchText)])
    else
      var marked := r.(completionTimes := MarkComplete(r.completionTimes, r.startTime, author, now));
      if AllFinished(marked.participants, marked.completionTimes) then
        var done := Finish(marked);
        Step(done.race, [Send(author, CompletedText)] + done.out)
      else Step(marked, [Send(author, CompletedText)])
  }

  function Apply(r: Race, e: Event): Step {
    match e
    case Tick(now) => OnTick(r, now)
    case Press(user, customId) => OnPress(r, user, customId)
    case Post(author, text, now) => OnPost(r, author, text, now)
  }

  function Run(r: Race, events: seq<Event>): Step
    decreases |events|
  {
    if |events| == 0 then Step(r, [])
    else
      var first := Apply(r, events[0]);
      var rest := Run(first.race, events[1..]);
      Step(rest.race, first.out + rest.out)
  }
}
