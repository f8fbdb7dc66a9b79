/**
 Properties of the src/Race.ts race: the state invariant, the order of the
 states, the single completion callback, the lengths of Countdown and
 InProgress as the race's own counters give them, and the abort path.
 */
module MonoRaceLifecycle {

  import opened Wrappers
  import opened Types
  import opened ParticipantList
  import opened Roster
  import opened Chat
  import opened MonoRace

  function Order(p: Phase): nat {
    match p
    case Initialized => 0
    case Countdown => 1
    case InProgress => 2
    case Aborted => 3
    case Complete => 4
  }

  predicate Edge(p: Phase, q: Phase) {
    || (p == Initialized && q == Countdown)
    || (p == Countdown && (q == Aborted || q == InProgress))
    || (p == InProgress && q == Complete)
  }

  /** Every event stays in its state or takes one transition; an ended race does not change. */
  lemma StepMoves(r: Race, e: Event)
    ensures var q := Apply(r, e).race.phase;
      q == r.phase || (Edge(r.phase, q) && Order(r.phase) < Order(q))
    ensures Terminal(r.phase) ==> Apply(r, e).race == r
  {
  }

  lemma TickKeepsValid(r: Race, now: nat)
    requires Valid(r)
    ensures Valid(OnTick(r, now).race)
  {
  }

  lemma PressKeepsValid(r: Race, user: User, customId: string)
    requires Valid(r)
    ensures Valid(OnPress(r, user, customId).race)
  {
  }

  lemma PostKeepsValid(r: Race, author: User, text: string, now: nat)
    requires Valid(r)
    ensures Valid(OnPost(r, author, text, now).race)
  {
  }

  lemma StepKeepsValid(r: Race, e: Event)
    requires Valid(r)
    ensures Valid(Apply(r, e).race)
  {
    match e
    case Tick(now) => TickKeepsValid(r, now);
    case Press(user, customId) => PressKeepsValid(r, user, customId);
    case Post(author, text, now) => PostKeepsValid(r, author, text, now);
  }

  lemma {:induction false} RunKeepsValid(r: Race, events: seq<Event>)
    requires Valid(r)
    ensures Valid(Run(r, events).race)
    decreases |events|
  {
    if |events| > 0 {
      StepKeepsValid(r, events[0]);
      RunKeepsValid(Apply(r, events[0]).race, events[1..]);
    }
  }

  /** Along any series of events the state never goes back in the lifecycle. */
  lemma {:induction false} RunOrderMonotone(r: Race, events: seq<Event>)
    ensures Order(r.phase) <= Order(Run(r, events).race.phase)
    decreases |events|
  {
    if |events| > 0 {
      StepMoves(r, events[0]);
      RunOrderMonotone(Apply(r, events[0]).race, events[1..]);
    }
  }

  lemma CleanupFiresNothing(r: Race)
    ensures CountFired(Cleanup(r).out) == 0
  {
    assert RaceOver !in Cleanup(r).out;
  }

  lemma FinishFiresOnce(r: Race)
    ensures CountFired(Finish(r).out) == 1 && Finish(r).race.phase == Complete
  {
    CleanupFiresNothing(r.(phase := Complete));
    FiredConcat([RaceOver], Cleanup(r.(phase := Complete)).out);
  }

  lemma StartFiresOnEnd(r: Race, now: nat)
    ensures CountFired(Start(r, now).out) == if Terminal(Start(r, now).race.phase) then 1 else 0
  {
    if |r.participants| == 0 {
      CleanupFiresNothing(r.(phase := Aborted));
      FiredConcat(Cleanup(r.(phase := Aborted)).out, [RaceOver]);
    } else {
      SendAllFiresNothing(r.participants, StartMessage(r.phrase));
    }
  }

  lemma CountdownNoticesFireNothing(r: Race)
    ensures var n := r.countdownTicks;
      CountFired(if n <= BroadcastThreshold then SendAll(r.participants, CountdownNotice(n)) else []) == 0
  {
    SendAllFiresNothing(r.participants, CountdownNotice(r.countdownTicks));
  }

  lemma CountdownTickFiresOnEnd(r: Race, now: nat)
    requires r.phase == Countdown
    ensures CountFired(CountdownTick(r, now).out) == if Terminal(CountdownTick(r, now).race.phase) then 1 else 0
  {
    var n := r.countdownTicks;
    var notices := if n <= BroadcastThreshold then SendAll(r.participants, CountdownNotice(n)) else [];
    var counted := r.(countdownTicks := n - 1);
    CountdownNoticesFireNothing(r);
    if n - 1 <= 0 {
      StartFiresOnEnd(counted, now);
      FiredConcat(notices, Start(counted, now).out);
    }
  }

  lemma InProgressTickFiresOnEnd(r: Race)
    requires r.phase == InProgress
    ensures CountFired(InProgressTick(r).out) == if Terminal(InProgressTick(r).race.phase) then 1 else 0
  {
    var counted := r.(autocompleteTicks := r.autocompleteTicks - 1);
    if counted.autocompleteTicks <= 0 {
      var told := SendAll(Unfinished(counted.participants, counted.completionTimes), EndedText);
      FinishFiresOnce(counted);
      SendAllFiresNothing(Unfinished(counted.participants, counted.completionTimes), EndedText);
      FiredConcat(told, Finish(counted).out);
    }
  }

  lemma OnTickUnfolds(r: Race, now: nat)
    ensures OnTick(r, now).race == StateTick(r, now).race
    ensures OnTick(r, now).out == StateTick(r, now).out + [EditReply(Render(StateTick(r, now).race))]
  {
  }

  lemma StateTickFiresOnEnd(r: Race, now: nat)
    ensures CountFired(StateTick(r, now).out)
      == if !Terminal(r.phase) && Terminal(StateTick(r, now).race.phase) then 1 else 0
  {
    match r.phase
    case Countdown => CountdownTickFiresOnEnd(r, now);
    case InProgress => InProgressTickFiresOnEnd(r);
    case _ =>
  }

  lemma TickFiresOnEnd(r: Race, now: nat)
    ensures CountFired(OnTick(r, now).out)
      == if !Terminal(r.phase) && Terminal(OnTick(r, now).race.phase) then 1 else 0
  {
    var ticked := StateTick(r, now);
    var render := [EditReply(Render(ticked.race))];
    OnTickUnfolds(r, now);
    StateTickFiresOnEnd(r, now);
    FiredConcat(ticked.out, render);
    assert CountFired(render) == 0 by {
      assert RaceOver !in render;
    }
  }

  /** The effects of the submission that completes a race: the thanks, the callback, then the cleanup. */
  lemma CompletingPostFiresOnce(author: User, v: View, ticking: bool)
    ensures CountFired([Send(author, CompletedText), RaceOver, EditReply(v)] + (if ticking then [StopTicking] else [])) == 1
  {
    var head := [Send(author, CompletedText), RaceOver];
    var tail := [EditReply(v)] + (if ticking then [StopTicking] else []);
    assert [Send(author, CompletedText), RaceOver, EditReply(v)] + (if ticking then [StopTicking] else []) == head + tail;
    FiredConcat(head, tail);
    assert RaceOver !in tail;
    assert multiset(head)[RaceOver] == 1;
  }

  lemma RefusedPostFiresNothing(r: Race, author: User, text: string, now: nat)
    requires !(r.phase == InProgress) || text != r.phrase
    ensures OnPost(r, author, text, now).race == r
    ensures CountFired(OnPost(r, author, text, now).out) == 0
  {
    assert RaceOver !in OnPost(r, author, text, now).out;
  }

  lemma MatchingPostFiresOnEnd(r: Race, author: User, now: nat)
    requires r.phase == InProgress
    ensures CountFired(OnPost(r, author, r.phrase, now).out)
      == if Terminal(OnPost(r, author, r.phrase, now).race.phase) then 1 else 0
  {
    var s := OnPost(r, author, r.phrase, now);
    if s.race.phase == Complete {
      CompletingPostFiresOnce(author, Render(s.race), r.ticking);
    } else {
      assert RaceOver !in s.out;
    }
  }

  lemma PostFiresOnEnd(r: Race, author: User, text: string, now: nat)
    ensures CountFired(OnPost(r, author, text, now).out)
      == if !Terminal(r.phase) && Terminal(OnPost(r, author, text, now).race.phase) then 1 else 0
  {
    if r.phase == InProgress && text == r.phrase {
      MatchingPostFiresOnEnd(r, author, now);
    } else {
      RefusedPostFiresNothing(r, author, text, now);
    }
  }

  /** The callback runs in a step exactly when the step ends the race. */
  lemma StepFiresOnEnd(r: Race, e: Event)
    ensures CountFired(Apply(r, e).out)
      == if !Terminal(r.phase) && Terminal(Apply(r, e).race.phase) then 1 else 0
  {
    match e
    case Tick(now) => TickFiresOnEnd(r, now);
    case Press(user, customId) =>
    case Post(author, text, now) => PostFiresOnEnd(r, author, text, now);
  }

  /** An ended race ignores everything and never runs the callback again. */
  lemma {:induction false} TerminalIsFinal(r: Race, events: seq<Event>)
    requires Terminal(r.phase)
    ensures Run(r, events).race == r
    ensures CountFired(Run(r, events).out) == 0
    decreases |events|
  {
    if |events| > 0 {
      StepMoves(r, events[0]);
      StepFiresOnEnd(r, events[0]);
      TerminalIsFinal(r, events[1..]);
    }
  }

  /** The callback runs once along a series of events if the race ends during it, and never otherwise. */
  lemma {:induction false} CallbackFiresOnce(r: Race, events: seq<Event>)
    ensures CountFired(Run(r, events).out)
      == if !Terminal(r.phase) && Terminal(Run(r, events).race.phase) then 1 else 0
    decreases |events|
  {
    if |events| > 0 {
      var first := Apply(r, events[0]);
      StepFiresOnEnd(r, events[0]);
      StepMoves(r, events[0]);
      if Terminal(first.race.phase) {
        TerminalIsFinal(first.race, events[1..]);
      } else {
        CallbackFiresOnce(first.race, events[1..]);
      }
      FiredConcat(first.out, Run(first.race, events[1..]).out);
    }
  }

  /**
   Countdown counts the race's countdown counter down exactly: before that
   many ticks the race is still in Countdown with the ticks so far taken off,
   and from that tick on it has left Countdown.
   */
  lemma {:induction false} CountdownLastsExactly(r: Race, events: seq<Event>)
    requires r.phase == Countdown && 1 <= r.countdownTicks
    ensures var s := Run(r, events).race;
      && (TickCount(events) < r.countdownTicks ==>
            s.phase == Countdown && s.countdownTicks == r.countdownTicks - TickCount(events)
            && s.autocompleteTicks == r.autocompleteTicks)
      && (TickCount(events) >= r.countdownTicks ==> Order(s.phase) > Order(Countdown))
    decreases |events|
  {
    if |events| > 0 {
      var first := Apply(r, events[0]).race;
      if events[0].Tick? && r.countdownTicks == 1 {
        assert Order(first.phase) > 1;
        RunOrderMonotone(first, events[1..]);
      } else {
        assert first.phase == Countdown && first.autocompleteTicks == r.autocompleteTicks;
        assert first.countdownTicks == if events[0].Tick? then r.countdownTicks - 1 else r.countdownTicks;
        CountdownLastsExactly(first, events[1..]);
      }
    }
  }

  /**
   InProgress ends by the autocomplete counter's tick at the latest: before
   it the race is in InProgress with the ticks so far taken off, or Complete;
   from it on it is Complete.
   */
  lemma {:induction false} InProgressEndsInTime(r: Race, events: seq<Event>)
    requires r.phase == InProgress && 1 <= r.autocompleteTicks
    ensures var s := Run(r, events).race;
      && (TickCount(events) < r.autocompleteTicks ==>
            (s.phase == InProgress && s.autocompleteTicks == r.autocompleteTicks - TickCount(events))
            || s.phase == Complete)
      && (TickCount(events) >= r.autocompleteTicks ==> s.phase == Complete)
    decreases |events|
  {
    if |events| > 0 {
      var first := Apply(r, events[0]).race;
      if first.phase == Complete {
        TerminalIsFinal(first, events[1..]);
      } else {
        assert first.phase == InProgress;
        assert first.autocompleteTicks == if events[0].Tick? then r.autocompleteTicks - 1 else r.autocompleteTicks;
        InProgressEndsInTime(first, events[1..]);
      }
    }
  }

  /**
   The tick that ends Countdown with someone joined stamps the start and
   enters InProgress with the autocomplete counter still at its constructor
   value, 50 ticks (10 in debug mode), not the 30 (5) of the autocomplete
   budget alone. Participants, times and phrase are carried over as they
   were; the last notice, the phrase to every participant in join order and
   the InProgress view are sent.
   */
  lemma StartedRaceKeepsConstructorBudget(r: Race, now: nat)
    requires Valid(r) && r.phase == Countdown && r.countdownTicks == 1 && r.participants != []
    ensures var s := OnTick(r, now);
      && s.race == r.(phase := InProgress, startTime := Some(now), countdownTicks := 0)
      && s.race.autocompleteTicks == (if r.debugMode then 10 else 50)
      && s.out == SendAll(r.participants, CountdownNotice(1)) + SendAll(r.participants, StartMessage(r.phrase))
                  + [EditReply(Render(s.race))]
  {
  }

  /**
   The tick that ends Countdown with nobody joined aborts: Aborted with no
   start time; the aborted view is shown, the interval cleared, the callback
   run, and the aborted view shown again by the tick.
   */
  lemma CountdownAbortsWhenEmpty(r: Race, now: nat)
    requires r.phase == Countdown && r.countdownTicks <= 1 && r.participants == []
    ensures var s := OnTick(r, now);
      && s.race == r.(phase := Aborted, ticking := false, countdownTicks := r.countdownTicks - 1)
      && s.race.startTime == r.startTime
      && s.out == [EditReply(AbortedView)] + (if r.ticking then [StopTicking] else []) + [RaceOver, EditReply(AbortedView)]
  {
    assert SendAll([], CountdownNotice(r.countdownTicks)) == [];
  }

  /** The exhausting tick, effect by effect: the notices, the callback and the cleanup render, the timer release, the tick's render. */
  lemma AutocompleteTick(r: Race, now: nat)
    requires r.phase == InProgress && r.autocompleteTicks == 1 && r.ticking
    ensures OnTick(r, now).race == r.(phase := Complete, ticking := false, autocompleteTicks := 0)
    ensures OnTick(r, now).out == SendAll(Unfinished(r.participants, r.completionTimes), EndedText)
      + [RaceOver, EditReply(Render(OnTick(r, now).race)), StopTicking, EditReply(Render(OnTick(r, now).race))]
  {
    var counted := r.(autocompleteTicks := 0);
    var ended := counted.(phase := Complete);
    var done := ended.(ticking := false);
    assert InProgressTick(r) == Autocomplete(counted);
    assert Finish(counted).race == done;
    assert Finish(counted).out == [RaceOver, EditReply(Render(ended)), StopTicking];
    assert Render(ended) == Render(done);
  }

  /**
   The tick that exhausts the autocomplete counter completes the race and
   tells exactly the participants without a truthy time, each once and in
   join order, that the race has ended, before the callback and the renders.
   */
  lemma AutocompleteNotifiesUnfinished(r: Race, now: nat)
    requires Valid(r) && r.phase == InProgress && r.autocompleteTicks == 1
    ensures var s := OnTick(r, now);
      var told := Unfinished(r.participants, r.completionTimes);
      && s.race == r.(phase := Complete, ticking := false, autocompleteTicks := 0)
      && s.out[..|told|] == SendAll(told, EndedText)
      && (forall u :: Send(u, EndedText) in s.out <==> u in r.participants && !HasTime(r.completionTimes, u.id))
      && DistinctIds(told)
      && s.out[|told|..] == [RaceOver, EditReply(Render(s.race)), StopTicking, EditReply(Render(s.race))]
  {
    var s := OnTick(r, now);
    var told := Unfinished(r.participants, r.completionTimes);
    var tail := [RaceOver, EditReply(Render(s.race)), StopTicking, EditReply(Render(s.race))];
    AutocompleteTick(r, now);
    assert s.out == SendAll(told, EndedText) + tail;
    BroadcastThen(told, EndedText, tail);
    UnfinishedDistinct(r.participants, r.completionTimes);
  }

  /** The start time is stamped once, by the tick that starts the race, and never changed afterwards. */
  lemma StartStampedOnce(r: Race, e: Event)
    requires Valid(r)
    ensures var s := Apply(r, e).race;
      && (r.startTime.Some? ==> s.startTime == r.startTime)
      && (s.startTime != r.startTime ==> r.phase == Countdown && s.phase == InProgress && e.Tick? && s.startTime == Some(e.now))
  {
  }

  /**
   A correct submission in InProgress thanks the author, records `now` minus
   the start under the author's id, and completes the race exactly when the
   completion keys are at least as many as the participants.
   */
  lemma MatchingPostRecords(r: Race, author: User, now: nat)
    requires r.phase == InProgress && r.startTime.Some?
    ensures var s := OnPost(r, author, r.phrase, now);
      && s.out[0] == Send(author, CompletedText)
      && author.id in s.race.completionTimes
      && s.race.completionTimes[author.id] == now - r.startTime.value
      && (s.race.phase == Complete <==> |s.race.completionTimes.Keys| >= |r.participants|)
      && (s.race.phase != Complete ==> s.race.phase == r.phase && s.out == [Send(author, CompletedText)])
      && (s.race.phase == Complete ==>
            s.out == [Send(author, CompletedText), RaceOver, EditReply(Render(s.race))] + (if r.ticking then [StopTicking] else []))
  {
  }

  /**
   When the author's correct submission is the last one missing, the race
   completes at once, whatever is left on the autocomplete counter.
   */
  lemma LastFinisherCompletes(r: Race, author: User, now: nat)
    requires Valid(r) && r.phase == InProgress
    requires forall i :: 0 <= i < |r.participants| ==> r.participants[i].id in r.completionTimes || r.participants[i].id == author.id
    ensures OnPost(r, author, r.phrase, now).race.phase == Complete
  {
    var times := MarkComplete(r.completionTimes, r.startTime, author, now);
    assert Ids(r.participants) <= times.Keys;
    DistinctIdsCount(r.participants);
    SubsetCount(Ids(r.participants), times.Keys);
  }
}
