/**
 Properties of the src/Race/ race over single events and over whole event
 series: the phase invariant, the order in which phases are visited, the
 single completion callback, the length of each timed phase, and what each
 phase sends.
 */
module SplitRaceLifecycle {

  import opened Wrappers
  import opened Text
  import opened Types
  import opened ParticipantList
  import opened Roster
  import opened Chat
  import opened SplitRace

  /** Position of a phase in the lifecycle; every allowed transition goes up. */
  function Order(p: Phase): nat {
    match p
    case Initialized => 0
    case Countdown(_) => 1
    case InProgress(_) => 2
    case Aborted => 3
    case Complete => 4
  }

  /** The transitions of the lifecycle: Initialized to Countdown, Countdown to Aborted or InProgress, InProgress to Complete. */
  predicate Edge(p: Phase, q: Phase) {
    || (p.Initialized? && q.Countdown?)
    || (p.Countdown? && (q.Aborted? || q.InProgress?))
    || (p.InProgress? && q.Complete?)
  }

  /** One event either stays in the phase or takes one transition. */
  predicate Moves(p: Phase, q: Phase) {
    Order(p) == Order(q) || Edge(p, q)
  }

  lemma EdgeGoesUp(p: Phase, q: Phase)
    requires Edge(p, q)
    ensures Order(p) < Order(q)
  {
  }

  /** Every event stays in its phase or takes one lifecycle transition; a terminal race does not change. */
  lemma StepMoves(r: Race, e: Event)
    ensures Moves(r.phase, Apply(r, e).race.phase)
    ensures Terminal(r.phase) ==> Apply(r, e).race == r
  {
  }

  /** Every event keeps the phase invariant. */
  lemma TickKeepsValid(r: Race, now: nat)
    requires Valid(r)
    ensures Valid(OnTick(r, now).race)
  {
  }

  lemma PressKeepsValid(r: Race, user: User, customId: string)
    requires Valid(r)
    ensures Valid(OnPress(r, user, customId).race)
  {
  }

  lemma PostKeepsValid(r: Race, author: User, text: string, now: nat)
    requires Valid(r)
    ensures Valid(OnPost(r, author, text, now).race)
  {
  }

  lemma StepKeepsValid(r: Race, e: Event)
    requires Valid(r)
    ensures Valid(Apply(r, e).race)
  {
    match e
    case Tick(now) => TickKeepsValid(r, now);
    case Press(user, customId) => PressKeepsValid(r, user, customId);
    case Post(author, text, now) => PostKeepsValid(r, author, text, now);
  }

  lemma CleanupFiresNothing(r: Race)
    ensures CountFired(Cleanup(r).out) == 0
  {
    assert RaceOver !in Cleanup(r).out;
  }

  lemma StartFiresOnEnd(r: Race, now: nat)
    ensures CountFired(Start(r, now).out) == if Terminal(Start(r, now).race.phase) then 1 else 0
  {
    if |r.participants| == 0 {
      var done := Cleanup(r.(phase := Aborted));
      CleanupFiresNothing(r.(phase := Aborted));
      FiredConcat(done.out, [RaceOver]);
    } else {
      SendAllFiresNothing(r.participants, StartMessage(r.phrase));
    }
  }

  lemma FinishFiresOnce(r: Race)
    ensures CountFired(Finish(r).out) == 1 && Finish(r).race.phase == Complete
  {
    CleanupFiresNothing(r.(phase := Complete));
    FiredConcat([RaceOver], Cleanup(r.(phase := Complete)).out);
  }

  lemma CountdownTickFiresOnEnd(r: Race, n: int, now: nat)
    ensures CountFired(CountdownTick(r, n, now).out) == if Terminal(CountdownTick(r, n, now).race.phase) then 1 else 0
  {
    var notices := if n <= BroadcastThreshold then SendAll(r.participants, CountdownNotice(n)) else [];
    SendAllFiresNothing(r.participants, CountdownNotice(n));
    assert CountFired(notices) == 0;
    if n - 1 <= 0 {
      StartFiresOnEnd(r, now);
      FiredConcat(notices, Start(r, now).out);
    }
  }

  lemma InProgressTickFiresOnEnd(r: Race, n: int)
    ensures CountFired(InProgressTick(r, n).out) == if Terminal(InProgressTick(r, n).race.phase) then 1 else 0
  {
    var counted := r.(phase := InProgress(n - 1));
    if n - 1 <= 0 {
      var done := Finish(counted);
      FinishFiresOnce(counted);
      SendAllFiresNothing(Unfinished(counted.participants, counted.completionTimes), EndedText);
      FiredConcat(SendAll(Unfinished(counted.participants, counted.completionTimes), EndedText), done.out);
    }
  }

  lemma OnTickUnfolds(r: Race, now: nat)
    ensures OnTick(r, now).race == StateTick(r, now).race
    ensures OnTick(r, now).out == StateTick(r, now).out + [EditReply(Render(StateTick(r, now).race))]
  {
  }

  lemma StateTickFiresOnEnd(r: Race, now: nat)
    ensures CountFired(StateTick(r, now).out)
      == if !Terminal(r.phase) && Terminal(StateTick(r, now).race.phase) then 1 else 0
  {
    match r.phase
    case Countdown(n) => CountdownTickFiresOnEnd(r, n, now);
    case InProgress(n) => InProgressTickFiresOnEnd(r, n);
    case _ =>
  }

  lemma TickFiresOnEnd(r: Race, now: nat)
    ensures CountFired(OnTick(r, now).out)
      == if !Terminal(r.phase) && Terminal(OnTick(r, now).race.phase) then 1 else 0
  {
    var ticked := StateTick(r, now);
    var render := [EditReply(Render(ticked.race))];
    OnTickUnfolds(r, now);
    StateTickFiresOnEnd(r, now);
    FiredConcat(ticked.out, render);
    assert CountFired(render) == 0 by {
      assert RaceOver !in render;
    }
  }

  /** The effects of the submission that completes a race: the thanks, the callback, then the cleanup. */
  lemma CompletingPostFiresOnce(author: User, v: View, ticking: bool)
    ensures CountFired([Send(author, CompletedText), RaceOver, EditReply(v)] + (if ticking then [StopTicking] else [])) == 1
  {
    var head := [Send(author, CompletedText), RaceOver];
    var tail := [EditReply(v)] + (if ticking then [StopTicking] else []);
    assert [Send(author, CompletedText), RaceOver, EditReply(v)] + (if ticking then [StopTicking] else []) == head + tail;
    FiredConcat(head, tail);
    assert RaceOver !in tail;
    assert multiset(head)[RaceOver] == 1;
  }

  lemma RefusedPostFiresNothing(r: Race, author: User, text: string, now: nat)
    requires !(r.phase.InProgress?) || text != r.phrase
    ensures OnPost(r, author, text, now).race == r
    ensures CountFired(OnPost(r, author, text, now).out) == 0
  {
    assert RaceOver !in OnPost(r, author, text, now).out;
  }

  lemma MatchingPostFiresOnEnd(r: Race, author: User, now: nat)
    requires r.phase.InProgress?
    ensures CountFired(OnPost(r, author, r.phrase, now).out)
      == if Terminal(OnPost(r, author, r.phrase, now).race.phase) then 1 else 0
  {
    var s := OnPost(r, author, r.phrase, now);
    if s.race.phase == Complete {
      CompletingPostFiresOnce(author, Render(s.race), r.ticking);
    } else {
      assert RaceOver !in s.out;
    }
  }

  lemma PostFiresOnEnd(r: Race, author: User, text: string, now: nat)
    ensures CountFired(OnPost(r, author, text, now).out)
      == if !Terminal(r.phase) && Terminal(OnPost(r, author, text, now).race.phase) then 1 else 0
  {
    match r.phase
    case InProgress(_) =>
      if text == r.phrase {
        MatchingPostFiresOnEnd(r, author, now);
      } else {
        RefusedPostFiresNothing(r, author, text, now);
      }
    case _ => RefusedPostFiresNothing(r, author, text, now);
  }

  /** The callback runs in a step exactly when the step ends the race. */
  lemma StepFiresOnEnd(r: Race, e: Event)
    ensures CountFired(Apply(r, e).out)
      == if !Terminal(r.phase) && Terminal(Apply(r, e).race.phase) then 1 else 0
  {
    match e
    case Tick(now) => TickFiresOnEnd(r, now);
    case Press(user, customId) =>
    case Post(author, text, now) => PostFiresOnEnd(r, author, text, now);
  }

  /** The phases a race passes through: its own, then the one after each event. */
  function Trace(r: Race, events: seq<Event>): (t: seq<Phase>)
    ensures |t| == |events| + 1 && t[0] == r.phase
    decreases |events|
  {
    if |events| == 0 then [r.phase]
    else [r.phase] + Trace(Apply(r, events[0]).race, events[1..])
  }

  lemma {:induction false} RunEndsOnTrace(r: Race, events: seq<Event>)
    ensures Trace(r, events)[|events|] == Run(r, events).race.phase
    decreases |events|
  {
    if |events| > 0 {
      var next, rest := Apply(r, events[0]).race, events[1..];
      RunEndsOnTrace(next, rest);
      assert Trace(r, events) == [r.phase] + Trace(next, rest);
      assert Run(r, events).race == Run(next, rest).race;
    }
  }

  /** In a phase series where each step stays or takes one transition, the position never goes down. */
  lemma {:induction false} MovesKeepOrder(t: seq<Phase>)
    requires forall i :: 0 <= i < |t| - 1 ==> Moves(t[i], t[i + 1])
    ensures forall i, j :: 0 <= i <= j < |t| ==> Order(t[i]) <= Order(t[j])
    decreases |t|
  {
    if |t| > 1 {
      var front := t[..|t| - 1];
      assert forall i :: 0 <= i < |front| - 1 ==> Moves(front[i], front[i + 1]) by {
        forall i | 0 <= i < |front| - 1 ensures Moves(front[i], front[i + 1]) {
          assert front[i] == t[i] && front[i + 1] == t[i + 1];
        }
      }
      MovesKeepOrder(front);
      var last := |t| - 1;
      assert Moves(t[last - 1], t[last]);
      if Edge(t[last - 1], t[last]) {
        EdgeGoesUp(t[last - 1], t[last]);
      }
      forall i, j | 0 <= i <= j < |t| ensures Order(t[i]) <= Order(t[j]) {
        if j < last {
          assert t[i] == front[i] && t[j] == front[j];
        } else if i < last {
          assert t[i] == front[i] && t[last - 1] == front[last - 1];
        }
      }
    }
  }

  /** Along any series of events, each step stays in its phase or takes one lifecycle transition. */
  lemma {:induction false} TraceMoves(r: Race, events: seq<Event>)
    ensures forall i :: 0 <= i < |events| ==> Moves(Trace(r, events)[i], Trace(r, events)[i + 1])
    decreases |events|
  {
    if |events| > 0 {
      var next := Apply(r, events[0]).race;
      StepMoves(r, events[0]);
      TraceMoves(next, events[1..]);
      var t, tail := Trace(r, events), Trace(next, events[1..]);
      assert t == [r.phase] + tail;
      forall i | 0 <= i < |events| ensures Moves(t[i], t[i + 1]) {
        if i == 0 {
          assert t[0] == r.phase && t[1] == tail[0] == next.phase;
        } else {
          assert t[i] == tail[i - 1] && t[i + 1] == tail[i];
        }
      }
    }
  }

  /** Along any series of events the position in the lifecycle never goes down. */
  lemma TraceMonotone(r: Race, events: seq<Event>)
    ensures forall i, j :: 0 <= i <= j <= |events| ==> Order(Trace(r, events)[i]) <= Order(Trace(r, events)[j])
  {
    TraceMoves(r, events);
    MovesKeepOrder(Trace(r, events));
  }

  /** No phase is visited twice: once a race leaves a phase it never comes back to it. */
  lemma NoPhaseRevisited(r: Race, events: seq<Event>, i: nat, j: nat, k: nat)
    requires i <= j <= k <= |events|
    requires Order(Trace(r, events)[i]) == Order(Trace(r, events)[k])
    ensures Order(Trace(r, events)[j]) == Order(Trace(r, events)[i])
  {
    TraceMonotone(r, events);
  }

  lemma RunOrderMonotone(r: Race, events: seq<Event>)
    ensures Order(r.phase) <= Order(Run(r, events).race.phase)
  {
    TraceMonotone(r, events);
    RunEndsOnTrace(r, events);
  }

  /** Whatever arrives, a race that has ended stays exactly as it is and never runs the callback again. */
  lemma {:induction false} TerminalIsFinal(r: Race, events: seq<Event>)
    requires Terminal(r.phase)
    ensures Run(r, events).race == r
    ensures CountFired(Run(r, events).out) == 0
    decreases |events|
  {
    if |events| > 0 {
      StepMoves(r, events[0]);
      StepFiresOnEnd(r, events[0]);
      TerminalIsFinal(r, events[1..]);
    }
  }

  /** The invariant holds after any series of events. */
  lemma {:induction false} RunKeepsValid(r: Race, events: seq<Event>)
    requires Valid(r)
    ensures Valid(Run(r, events).race)
    decreases |events|
  {
    if |events| > 0 {
      StepKeepsValid(r, events[0]);
      RunKeepsValid(Apply(r, events[0]).race, events[1..]);
    }
  }

  /**
   Along any series of events the completion callback runs once if the race
   ends during it and never otherwise; in particular at most once.
   */
  lemma {:induction false} CallbackFiresOnce(r: Race, events: seq<Event>)
    ensures CountFired(Run(r, events).out)
      == if !Terminal(r.phase) && Terminal(Run(r, events).race.phase) then 1 else 0
    decreases |events|
  {
    if |events| > 0 {
      var first := Apply(r, events[0]);
      StepFiresOnEnd(r, events[0]);
      StepMoves(r, events[0]);
      if Terminal(first.race.phase) {
        TerminalIsFinal(first.race, events[1..]);
      } else {
        CallbackFiresOnce(first.race, events[1..]);
      }
      assert multiset(Run(r, events).out) == multiset(first.out) + multiset(Run(first.race, events[1..]).out);
    }
  }

  /**
   Countdown counts ticks exactly: before its n-th tick the race is still in
   Countdown with n minus the ticks so far remaining (joins and messages do not
   count), and from the n-th tick on it has left Countdown for good.
   */
  lemma {:induction false} CountdownLastsExactly(r: Race, n: int, events: seq<Event>)
    requires r.phase == Countdown(n) && 1 <= n
    ensures TickCount(events) < n ==> Run(r, events).race.phase == Countdown(n - TickCount(events))
    ensures TickCount(events) >= n ==> Order(Run(r, events).race.phase) > Order(r.phase)
    decreases |events|
  {
    if |events| > 0 {
      var first := Apply(r, events[0]).race;
      if events[0].Tick? && n == 1 {
        assert Order(first.phase) > 1;
        RunOrderMonotone(first, events[1..]);
      } else {
        var m := if events[0].Tick? then n - 1 else n;
        assert first.phase == Countdown(m);
        CountdownLastsExactly(first, m, events[1..]);
      }
    }
  }

  /**
   InProgress ends by its n-th tick at the latest: before it the race is in
   InProgress with n minus the ticks so far remaining, or already Complete;
   from the n-th tick on it is Complete.
   */
  lemma {:induction false} InProgressEndsInTime(r: Race, n: int, events: seq<Event>)
    requires r.phase == InProgress(n) && 1 <= n
    ensures var p := Run(r, events).race.phase;
      && (TickCount(events) < n ==> p == InProgress(n - TickCount(events)) || p == Complete)
      && (TickCount(events) >= n ==> p == Complete)
    decreases |events|
  {
    if |events| > 0 {
      var first := Apply(r, events[0]).race;
      if first.phase == Complete {
        TerminalIsFinal(first, events[1..]);
      } else {
        var m := if events[0].Tick? then n - 1 else n;
        assert first.phase == InProgress(m);
        InProgressEndsInTime(first, m, events[1..]);
      }
    }
  }

  /** A freshly gathered race counts down 20 ticks (5 in debug mode) before leaving Countdown. */
  lemma GatheredCountdownLength(debugMode: bool, quote: string, events: seq<Event>)
    ensures var g := Gather(NewRace(debugMode, quote)).race;
      var budget := if debugMode then 5 else 20;
      && (TickCount(events) < budget ==> Run(g, events).race.phase == Countdown(budget - TickCount(events)))
      && (TickCount(events) >= budget ==> Order(Run(g, events).race.phase) >= 2)
  {
    var g := Gather(NewRace(debugMode, quote)).race;
    CountdownLastsExactly(g, InitialCountdown(debugMode), events);
  }

  /**
   A Countdown tick sends the pre-decrement count followed by "..." to every
   participant, in join order, exactly when that count is at most 5; while
   the count stays positive it only decrements and re-renders.
   */
  lemma CountdownTickNotices(r: Race, n: int, now: nat)
    requires r.phase == Countdown(n)
    ensures var s := OnTick(r, now);
      var notices := if n <= 5 then SendAll(r.participants, CountdownNotice(n)) else [];
      && |notices| <= |s.out| && s.out[..|notices|] == notices
      && (n > 5 ==> forall k :: 0 <= k < |s.out| ==> s.out[k] !in SendAll(r.participants, CountdownNotice(n)))
      && (n - 1 > 0 ==> s.race == r.(phase := Countdown(n - 1)) && s.out == notices + [EditReply(Render(s.race))])
  {
    var s := OnTick(r, now);
    if n > 5 && n - 1 <= 0 {
      assert false;
    }
    if n > 5 {
      forall k | 0 <= k < |s.out| ensures s.out[k] !in SendAll(r.participants, CountdownNotice(n)) {
        assert s.out[k] == EditReply(Render(s.race));
      }
    }
  }

  /**
   The tick that ends Countdown with nobody joined aborts: Aborted, no start
   time, nothing else touched; the aborted view is shown, the interval
   cleared, the callback run, and the aborted view shown again by the tick.
   */
  lemma CountdownAbortsWhenEmpty(r: Race, n: int, now: nat)
    requires r.phase == Countdown(n) && n <= 1 && r.participants == []
    ensures var s := OnTick(r, now);
      && s.race == r.(phase := Aborted, ticking := false)
      && s.out == [EditReply(AbortedView)] + (if r.ticking then [StopTicking] else []) + [RaceOver, EditReply(AbortedView)]
  {
    assert SendAll([], CountdownNotice(n)) == [];
  }

  /**
   The tick that ends Countdown with someone joined starts the race: the
   InProgress counter set to 30 (10 in debug mode), the start stamped now, and
   the phrase sent to every participant in join order, after any countdown notices.
   */
  lemma CountdownStartsWhenJoined(r: Race, n: int, now: nat)
    requires r.phase == Countdown(n) && n <= 1 && r.participants != []
    ensures var s := OnTick(r, now);
      var notices := if n <= 5 then SendAll(r.participants, CountdownNotice(n)) else [];
      && s.race == r.(phase := InProgress(if r.debugMode then 10 else 30), startTime := Some(now))
      && s.out == notices + SendAll(r.participants, StartMessage(r.phrase)) + [EditReply(Render(s.race))]
  {
  }

  /** The exhausting tick, effect by effect: the notices, the callback and the cleanup render, the timer release, the tick's render. */
  lemma AutocompleteTick(r: Race, now: nat)
    requires r.phase == InProgress(1) && r.ticking
    ensures OnTick(r, now).race == r.(phase := Complete, ticking := false)
    ensures OnTick(r, now).out == SendAll(Unfinished(r.participants, r.completionTimes), EndedText)
      + [RaceOver, EditReply(Render(OnTick(r, now).race)), StopTicking, EditReply(Render(OnTick(r, now).race))]
  {
    var counted := r.(phase := InProgress(0));
    var ended := counted.(phase := Complete);
    var done := ended.(ticking := false);
    assert InProgressTick(r, 1) == Autocomplete(counted);
    assert Finish(counted).race == done;
    assert Finish(counted).out == [RaceOver, EditReply(Render(ended)), StopTicking];
    assert Render(ended) == Render(done);
  }

  /**
   The tick that exhausts InProgress completes the race and tells exactly the
   participants without a truthy time, each once and in join order, that the
   race has ended, before the callback and the final render.
   */
  lemma AutocompleteNotifiesUnfinished(r: Race, now: nat)
    requires Valid(r) && r.phase == InProgress(1)
    ensures var s := OnTick(r, now);
      var told := Unfinished(r.participants, r.completionTimes);
      && s.race == r.(phase := Complete, ticking := false)
      && s.out[..|told|] == SendAll(told, EndedText)
      && (forall u :: Send(u, EndedText) in s.out <==> u in r.participants && !HasTime(r.completionTimes, u.id))
      && DistinctIds(told)
      && s.out[|told|..] == [RaceOver, EditReply(Render(s.race)), StopTicking, EditReply(Render(s.race))]
  {
    var s := OnTick(r, now);
    var told := Unfinished(r.participants, r.completionTimes);
    var tail := [RaceOver, EditReply(Render(s.race)), StopTicking, EditReply(Render(s.race))];
    AutocompleteTick(r, now);
    assert s.out == SendAll(told, EndedText) + tail;
    BroadcastThen(told, EndedText, tail);
    UnfinishedDistinct(r.participants, r.completionTimes);
  }

  /**
   A correct submission in InProgress thanks the author, records `now` minus
   the start under the author's id, and completes the race exactly when the
   completion keys are at least as many as the participants.
   */
  lemma MatchingPostRecords(r: Race, author: User, now: nat)
    requires r.phase.InProgress? && r.startTime.Some?
    ensures var s := OnPost(r, author, r.phrase, now);
      && s.out[0] == Send(author, CompletedText)
      && author.id in s.race.completionTimes
      && s.race.completionTimes[author.id] == now - r.startTime.value
      && (s.race.phase == Complete <==> |s.race.completionTimes.Keys| >= |r.participants|)
      && (s.race.phase != Complete ==> s.race.phase == r.phase && s.out == [Send(author, CompletedText)])
      && (s.race.phase == Complete ==>
            s.out == [Send(author, CompletedText), RaceOver, EditReply(Render(s.race))] + (if r.ticking then [StopTicking] else []))
  {
  }

  /**
   When the author's correct submission is the last one missing, the race
   completes at once, whatever ticks remain.
   */
  lemma LastFinisherCompletes(r: Race, author: User, now: nat)
    requires Valid(r) && r.phase.InProgress?
    requires forall i :: 0 <= i < |r.participants| ==> r.participants[i].id in r.completionTimes || r.participants[i].id == author.id
    ensures OnPost(r, author, r.phrase, now).race.phase == Complete
  {
    var times := MarkComplete(r.completionTimes, r.startTime, author, now);
    assert Ids(r.participants) <= times.Keys;
    DistinctIdsCount(r.participants);
    SubsetCount(Ids(r.participants), times.Keys);
  }

  /** The start time is stamped once, by the tick that enters InProgress, and never changed afterwards. */
  lemma StartStampedOnce(r: Race, e: Event)
    requires Valid(r)
    ensures var s := Apply(r, e).race;
      && (r.startTime.Some? ==> s.startTime == r.startTime)
      && (s.startTime != r.startTime ==> r.phase.Countdown? && s.phase.InProgress? && e.Tick? && s.startTime == Some(e.now))
  {
  }

  /** Only the Countdown view carries a button, the join button; every later view has none. */
  lemma OnlyCountdownShowsJoin(r: Race)
    ensures Render(r).Show? && Render(r).buttons != [] <==> r.phase.Countdown?
    ensures r.phase.Countdown? ==> Render(r).buttons == [JoinButton]
  {
  }

  /**
   The count comparison lets a stranger end the race early: someone who never
   joined sends the phrase, a participant does too, and the race completes
   while the other participant has no time.
   */
  lemma StrangerEndsRaceEarly()
    ensures var a, b, c := User("1", "ann"), User("2", "bob"), User("3", "cat");
      var r := Race("go fast", false, InProgress(30), [a, b], map[], Some(1000), true);
      var s := Run(r, [Post(c, "go fast", 4000), Post(a, "go fast", 5000)]);
      && s.race.phase == Complete
      && b.id !in s.race.completionTimes
  {
    var a, b, c := User("1", "ann"), User("2", "bob"), User("3", "cat");
    var r := Race("go fast", false, InProgress(30), [a, b], map[], Some(1000), true);
    var s1 := OnPost(r, c, "go fast", 4000);
    assert s1.race.completionTimes == map["3" := 3000];
    assert s1.race.phase == InProgress(30);
    var s2 := OnPost(s1.race, a, "go fast", 5000);
    assert s2.race.completionTimes == map["3" := 3000, "1" := 4000];
    assert |s2.race.completionTimes.Keys| == 2;
    assert s2.race.phase == Complete;
    var events := [Post(c, "go fast", 4000), Post(a, "go fast", 5000)];
    assert events[1..] == [Post(a, "go fast", 5000)];
    assert Run(s1.race, events[1..]).race == Run(s2.race, []).race;
  }

  /** `consumeMessage` in InProgress with the completion time recorded only for participants. */
  function OnPostMembersOnly(r: Race, author: User, text: string, now: nat): (s: Step)
    ensures !r.phase.InProgress? || text != r.phrase ==> s == OnPost(r, author, text, now)
    ensures HasParticipant(r.participants, author) ==> s == OnPost(r, author, text, now)
  {
    match r.phase
    case InProgress(_) =>
      if text != r.phrase then Step(r, [Send(author, MismatchText)])
      else
        var marked := r.(completionTimes := MarkMemberComplete(r.participants, r.completionTimes, r.startTime, author, now));
        if AllFinished(marked.participants, marked.completionTimes) then
          var done := Finish(marked);
          Step(done.race, [Send(author, CompletedText)] + done.out)
        else Step(marked, [Send(author, CompletedText)])
    case _ => Step(r, [Send(author, InactiveText)])
  }

  /**
   With member-only recording every key stays a participant's id, and a
   submission completes the race only when every participant has a time.
   */
  lemma MembersOnlyCompletionIsExact(r: Race, author: User, text: string, now: nat)
    requires Valid(r) && r.phase.InProgress?
    requires r.completionTimes.Keys <= Ids(r.participants)
    ensures var s := OnPostMembersOnly(r, author, text, now);
      && s.race.completionTimes.Keys <= Ids(r.participants)
      && (s.race.phase == Complete <==> text == r.phrase && forall i :: 0 <= i < |r.participants| ==> r.participants[i].id in s.race.completionTimes)
  {
    MemberTimesKeepCountExact(r.participants, r.completionTimes, r.startTime, author, now);
    if text != r.phrase {
      AllFinishedMeansEveryone(r.participants, r.completionTimes);
    }
  }
}
