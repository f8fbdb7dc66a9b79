/**
 The two race variants side by side. Until a race starts they are the same
 machine: from corresponding races, every event sends the same effects and
 leads to corresponding races. They part at the start: src/Race/ gives
 InProgress a fresh counter of 30 (10 in debug mode), while src/Race.ts keeps
 the counter its constructor set, 50 (10).
 */
module Variants {

  import opened Wrappers
  import opened Types
  import opened Chat
  import SplitRace
  import MonoRace

  /** Same fields, and a Countdown counter held by the state in one variant and by the race in the other. */
  predicate Corresponds(m: MonoRace.Race, s: SplitRace.Race) {
    && m.phrase == s.phrase && m.debugMode == s.debugMode
    && m.participants == s.participants && m.completionTimes == s.completionTimes
    && m.startTime == s.startTime && m.ticking == s.ticking
    && match m.phase
       case Initialized => s.phase == SplitRace.Initialized
       case Countdown => s.phase == SplitRace.Countdown(m.countdownTicks)
       case Aborted => s.phase == SplitRace.Aborted
       case _ => false
  }

  /** Corresponding races show the same view. */
  lemma SameRender(m: MonoRace.Race, s: SplitRace.Race)
    requires Corresponds(m, s)
    ensures MonoRace.Render(m) == SplitRace.Render(s)
  {
  }

  /** Both constructors and both `gatherParticipants` agree: the same reply, and corresponding races. */
  lemma GatherAgrees(debugMode: bool, quote: string)
    ensures Corresponds(MonoRace.NewRace(debugMode, quote), SplitRace.NewRace(debugMode, quote))
    ensures var m, s := MonoRace.Gather(MonoRace.NewRace(debugMode, quote)), SplitRace.Gather(SplitRace.NewRace(debugMode, quote));
      Corresponds(m.race, s.race) && m.out == s.out
  {
    var m0, s0 := MonoRace.NewRace(debugMode, quote), SplitRace.NewRace(debugMode, quote);
    var m, s := MonoRace.Gather(m0), SplitRace.Gather(s0);
    assert Corresponds(m.race, s.race);
    SameRender(m.race, s.race);
  }

  /** A Countdown tick that does not start the race: the same notices and render, corresponding races. */
  lemma CountdownTickAgrees(m: MonoRace.Race, s: SplitRace.Race, now: nat)
    requires Corresponds(m, s) && m.phase == MonoRace.Countdown
    requires m.countdownTicks > 1 || m.participants == []
    ensures var a, b := MonoRace.OnTick(m, now), SplitRace.OnTick(s, now);
      Corresponds(a.race, b.race) && a.out == b.out
  {
    var n := m.countdownTicks;
    var a, b := MonoRace.OnTick(m, now), SplitRace.OnTick(s, now);
    assert Corresponds(a.race, b.race);
    SameRender(a.race, b.race);
    if n - 1 <= 0 {
      var cm, cs := m.(countdownTicks := n - 1).(phase := MonoRace.Aborted), s.(phase := SplitRace.Aborted);
      SameRender(cm, cs);
    }
  }

  /** A button press is handled the same way by corresponding races. */
  lemma PressAgrees(m: MonoRace.Race, s: SplitRace.Race, user: User, customId: string)
    requires Corresponds(m, s)
    ensures var a, b := MonoRace.OnPress(m, user, customId), SplitRace.OnPress(s, user, customId);
      Corresponds(a.race, b.race) && a.out == b.out
  {
    var a, b := MonoRace.OnPress(m, user, customId), SplitRace.OnPress(s, user, customId);
    assert Corresponds(a.race, b.race);
    SameRender(a.race, b.race);
  }

  /** A direct message before the start is refused the same way by corresponding races. */
  lemma PostAgrees(m: MonoRace.Race, s: SplitRace.Race, author: User, text: string, now: nat)
    requires Corresponds(m, s)
    ensures var a, b := MonoRace.OnPost(m, author, text, now), SplitRace.OnPost(s, author, text, now);
      Corresponds(a.race, b.race) && a.out == b.out
  {
  }

  /**
   The starting tick: both variants send the same notices and start messages
   and stamp the same start; only the final render differs, through the
   InProgress counter, 30 against 50 (10 against 10 in debug mode).
   */
  lemma StartDiverges(m: MonoRace.Race, s: SplitRace.Race, now: nat)
    requires Corresponds(m, s) && m.phase == MonoRace.Countdown && MonoRace.Valid(m)
    requires m.countdownTicks == 1 && m.participants != []
    ensures var a, b := MonoRace.OnTick(m, now), SplitRace.OnTick(s, now);
      && |a.out| == |b.out|
      && a.out[..|a.out| - 1] == b.out[..|b.out| - 1]
      && a.race.startTime == b.race.startTime == Some(now)
      && a.race.participants == b.race.participants == m.participants
      && a.race.completionTimes == b.race.completionTimes == m.completionTimes
      && a.race.phrase == b.race.phrase == m.phrase
      && a.race.phase == MonoRace.InProgress
      && b.race.phase == SplitRace.InProgress(if m.debugMode then 10 else 30)
      && a.race.autocompleteTicks == (if m.debugMode then 10 else 50)
  {
  }

  /**
   Along any series of events with fewer ticks than the countdown has left,
   so that the race does not start during it, corresponding
   races stay corresponding and send the same log.
   */
  lemma {:induction false} AgreeUntilStart(m: MonoRace.Race, s: SplitRace.Race, events: seq<Event>)
    requires Corresponds(m, s)
    requires m.phase == MonoRace.Countdown ==> TickCount(events) < m.countdownTicks
    ensures var a, b := MonoRace.Run(m, events), SplitRace.Run(s, events);
      Corresponds(a.race, b.race) && a.out == b.out
    decreases |events|
  {
    if |events| > 0 {
      var e := events[0];
      match e {
        case Tick(now) =>
          if m.phase == MonoRace.Countdown {
            CountdownTickAgrees(m, s, now);
          } else {
            SameRender(m, s);
          }
        case Press(user, customId) => PressAgrees(m, s, user, customId);
        case Post(author, text, now) => PostAgrees(m, s, author, text, now);
      }
      var a, b := MonoRace.Apply(m, e), SplitRace.Apply(s, e);
      assert a.race.phase == MonoRace.Countdown ==> TickCount(events[1..]) < a.race.countdownTicks;
      AgreeUntilStart(a.race, b.race, events[1..]);
    }
  }
}
