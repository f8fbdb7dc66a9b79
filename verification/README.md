# Typing race lifecycle, modelled in Dafny

This project models the core of a chat bot that runs typing races. A race
command posts a public message with a Join button and starts a one-second
timer. Users who press Join during the countdown become participants. When
the countdown runs out, the race is aborted if nobody joined. Otherwise every
participant receives the phrase by direct message, and a correct reply
records that participant's completion time. The race completes when the
count of recorded times reaches the count of participants, or when the
InProgress timer runs out. The public message is re-rendered on every tick.
It shows the participant list: one row per participant, with the time in
seconds once that participant has finished.

The repository holds the race twice:
- `src/Race/` splits it into state classes, and each state owns its counter;
- `src/Race.ts` is one file, whose two counters live on the race.

The tracker `src/raceTracker.ts` uses the `src/Race.ts` variant and allows one
race at a time. All three are modelled.

Modelling choices:
- A race is an immutable record, and the current state is a `Phase`.
- Every inbound event is a function from a race to the next race plus the
  list of effects it sends, in sending order.
- Inbound events are timer ticks, button presses and direct messages.
- Effects are direct messages, the command reply and its edits, the
  interaction acknowledgement, clearing the timer, and the owner's completion
  callback (`RaceOver`).
- The timer is a `ticking` flag. The clock is a `now` parameter in
  milliseconds.

| file | module | models |
|---|---|---|
| `wrappers.dfy` | `Wrappers` | `Option` |
| `types.dfy` | `Types` | `src/types.ts`: the participant record and the completion-time map |
| `text.dfy` | `Text` | decimal rendering of counters, `join("\n")`/`split("\n")`, the space-to-en-space substitution, the seconds display of a millisecond time, each with a reader that inverts it |
| `participant_list.dfy` | `ParticipantList` | `src/renderParticipantList.ts` |
| `roster.dfy` | `Roster` | the participant list, completion bookkeeping and "all finished" test shared by both variants |
| `chat.dfy` | `Chat` | events, effects, views and the texts both variants send |
| `split_race.dfy`, `split_race_lifecycle.dfy` | `SplitRace`, `SplitRaceLifecycle` | `src/Race/*.ts` and its properties |
| `mono_race.dfy`, `mono_race_lifecycle.dfy` | `MonoRace`, `MonoRaceLifecycle` | `src/Race.ts` and its properties |
| `variants.dfy` | `Variants` | where the two variants agree and where they part |
| `tracker.dfy` | `Tracker` | `src/raceTracker.ts` |

Behaviours of the code that the model keeps as written:
- The participant list has no ranking, medals, words-per-minute or "not
  finished" cross. Those appear only in `src/renderParticipantList.spec.ts`,
  whose expectations the code does not meet, apart from the empty list.
- Completion times are overwritten by a repeated correct message
  (`src/Race/Race.ts:116-123`).
- A completion time is recorded for any author, joined or not
  (`src/Race/InProgressState.ts:36-46`; see Findings).
- Joining is possible only during the countdown
  (`src/Race/CountdownState.ts:62-67`).
- A phase ends when its counter reaches zero or below
  (`src/Race/CountdownState.ts:29-40`, `src/Race/InProgressState.ts:17-22`).
- In `src/Race.ts` the InProgress counter is the constructor's sum of both
  budgets: 50 ticks, or 10 in debug mode. It is not reset when the race
  starts (`src/Race.ts:196-198`).
- The end notice in `src/Race.ts` is spelled with U+00E2 U+0152 where
  `src/Race/Race.ts` has U+274C. Each variant keeps its own spelling.

## Model

| member | source | states |
|---|---|---|
| Text.ParseIntToString | src/Race/CountdownState.ts:42-44 | the counter text sent as a countdown notice reads back as exactly the counter, negative values included |
| Text.IntToStringInjective | src/Race/CountdownState.ts:54 | two different counters never render as the same text |
| Text.SplitJoinLines | src/renderParticipantList.ts:25-27 | joining rows with "\n" and splitting on "\n" gives the rows back when no row holds a newline |
| Text.SpreadSpaces | src/Race/Race.ts:90-92 | every plain space of the phrase becomes U+2002, every other character is kept in place, and no plain space remains |
| Text.GatherSpreadSpaces | src/Race/Race.ts:90-92 | the substitution is undone by mapping en spaces back, for a phrase without en spaces of its own |
| Text.SpreadSpacesChangesSpacedText | src/Race/Race.ts:168-170 | for a phrase with a space, the text sent differs from the phrase, so pasting the sent text back is not an exact match |
| Text.FormatSeconds | src/renderParticipantList.ts:17 | the seconds display is nonempty, made of digits, "." and "-", and starts with "-" exactly for a negative time |
| Text.ParseFormatSeconds | src/renderParticipantList.ts:17 | the seconds display of a millisecond time reads back as exactly that time, so no two times display alike |
| ParticipantList.RenderRow | src/renderParticipantList.ts:12-19 | a row starts with the car marker and the username, and extends beyond them exactly when the participant's time is truthy (present and nonzero) |
| ParticipantList.RowShowsSeconds | src/renderParticipantList.ts:16-18 | a finished row ends with " ✅ (", the time in seconds and ")", and those seconds read back as the recorded time |
| ParticipantList.RenderList | src/renderParticipantList.spec.ts:5-7 | the list is empty exactly when there are no participants |
| ParticipantList.RenderListRows | src/renderParticipantList.ts:21-28 | the list splits back into one row per participant, in join order |
| ParticipantList.RenderListIgnoresOtherIds | src/renderParticipantList.ts:16 | completion entries matter only through the participants' own ids |
| ParticipantList.RenderListOnlyParticipants | src/renderParticipantList.ts:12-19 | dropping every entry whose id is not a participant's leaves the list unchanged |
| Roster.AddParticipant | src/Race/Race.ts:102-114 | a user already present leaves the list exactly as it was; a new user is appended at the end; either way the user is then present and ids stay distinct |
| Roster.JoinAllBound | src/Race/Race.ts:102-114 | after any series of join presses nobody is listed twice, and the list is as long as the number of distinct users who pressed |
| Roster.MarkComplete | src/Race/Race.ts:116-123 | before a start time nothing is recorded; afterwards the author's entry is now minus start, whether or not the author joined, and other entries are kept |
| Roster.AllFinishedMeansEveryone | src/Race/Race.ts:177-179 | if every key is a participant's id, the count comparison holds exactly when every participant has a time |
| Roster.Unfinished | src/Race/Race.ts:136-146 | a user is selected exactly when that user is a participant without a truthy time |
| Roster.UnfinishedDistinct | src/Race/Race.ts:136-146 | nobody is selected twice, so nobody is told twice that the race ended |
| Roster.MemberTimesKeepCountExact | src/Race/Race.ts:177-179 | if only participants' times are recorded, the count comparison stays exact after any submission |
| Chat.SendAll | src/Race/InProgressState.ts:14 | one direct message per user, in list order, each with the same text |
| SplitRace.NewRace | src/Race/Race.ts:43-53 | a new race is Initialized and valid; the phrase is "test string" in debug mode and the quote otherwise |
| SplitRace.Gather | src/Race/CountdownState.ts:19-27 | gathering enters Countdown with 20 ticks (5 in debug mode), starts the timer, and replies with the countdown view, privately in debug mode |
| SplitRace.OnTick | src/Race/Race.ts:71-75 | the last effect of every tick is an edit showing the resulting state; states without a tick only re-render; a countdown tick that does not start the race only lowers the counter and sends the notices; an InProgress tick that does not end the race only lowers the counter, keeping participants and times, and sends nothing but the edit |
| SplitRace.OnPress | src/Race/CountdownState.ts:62-67 | only the Join button during Countdown has any effect: a new user is appended, then welcomed by direct message, acknowledged and shown in an edit; a known user gets nothing; the phase, the times and the timer never change |
| SplitRace.OnPost | src/Race/InProgressState.ts:36-46 | outside InProgress the author is told the race is not active; a wrong text gets a notice and changes nothing; the phrase is thanked first, recorded, and completes the race exactly when the count comparison holds; a completing message is followed by the callback, the cleanup edit and the timer release, and changes nothing else; participants and start are never changed |
| SplitRaceLifecycle.StepMoves | src/Race/CountdownState.ts:69-74 | every event keeps the phase or takes one transition of the lifecycle; an ended race is unchanged by every event |
| SplitRaceLifecycle.StepKeepsValid | src/Race/InProgressState.ts:9-15 | every event preserves the phase invariant (counter positive, start time only from InProgress on, timer live exactly while running) |
| SplitRaceLifecycle.RunKeepsValid | src/Race/Race.ts:65-75 | the phase invariant holds after any series of events |
| SplitRaceLifecycle.StepFiresOnEnd | src/Race/Race.ts:148-152 | one event runs the completion callback once if it ends the race and never otherwise |
| SplitRaceLifecycle.TerminalIsFinal | src/Race/RaceState.ts:13-21 | an ended race stays exactly as it is, and never runs the callback again, whatever arrives |
| SplitRaceLifecycle.CallbackFiresOnce | src/Race/AbortedState.ts:5-8 | along any series of events the callback runs once if the race ends during it and never otherwise |
| SplitRaceLifecycle.TraceMoves | src/Race/CountdownState.ts:69-74 | along any series of events each step keeps its phase or takes one transition |
| SplitRaceLifecycle.TraceMonotone | src/Race/CountdownState.ts:69-74 | along any series of events the position in the lifecycle never goes down |
| SplitRaceLifecycle.NoPhaseRevisited | src/Race/CountdownState.ts:69-74 | a phase that has been left is never entered again |
| SplitRaceLifecycle.RunOrderMonotone | src/Race/Race.ts:71-75 | the final phase of any run is no earlier than the first |
| SplitRaceLifecycle.CountdownLastsExactly | src/Race/CountdownState.ts:29-40 | Countdown lasts exactly its counter's number of ticks; joins and messages do not count |
| SplitRaceLifecycle.GatheredCountdownLength | src/Race/CountdownState.ts:19-22 | a gathered race leaves Countdown on its 20th tick (5th in debug mode), not before |
| SplitRaceLifecycle.InProgressEndsInTime | src/Race/InProgressState.ts:17-22 | InProgress ends by its counter's tick at the latest, and only by completing |
| SplitRaceLifecycle.CountdownTickNotices | src/Race/CountdownState.ts:29-44 | a tick sends the pre-decrement count and "..." to each participant exactly when that count is at most 5, ahead of anything else |
| SplitRaceLifecycle.CountdownAbortsWhenEmpty | src/Race/AbortedState.ts:5-8 | with nobody joined, the last countdown tick aborts: aborted view, timer cleared, callback, aborted view again |
| SplitRaceLifecycle.CountdownStartsWhenJoined | src/Race/InProgressState.ts:9-15 | with someone joined, the last countdown tick stamps the start, sets 30 ticks (10 in debug mode) and sends the phrase to each participant in join order |
| SplitRaceLifecycle.AutocompleteNotifiesUnfinished | src/Race/Race.ts:131-146 | the tick that exhausts InProgress tells exactly the unfinished participants, each once in join order, that the race ended, then completes |
| SplitRaceLifecycle.MatchingPostRecords | src/Race/InProgressState.ts:36-46 | a correct message thanks the author, records now minus start, and completes the race exactly when the keys reach the participant count, then runs the callback, edits the view and clears a live timer |
| SplitRaceLifecycle.LastFinisherCompletes | src/Race/Race.ts:125-129 | the correct message that supplies the last missing time completes the race at once |
| SplitRaceLifecycle.StartStampedOnce | src/Race/InProgressState.ts:9-15 | the start time is set only by the tick that enters InProgress, and is never changed afterwards |
| SplitRaceLifecycle.OnlyCountdownShowsJoin | src/Race/CountdownState.ts:46-60 | a view carries a button exactly in Countdown, and that button is Join |
| SplitRaceLifecycle.StrangerEndsRaceEarly | src/Race/Race.ts:177-179 | a user who never joined can end the race while a participant has no time |
| SplitRaceLifecycle.OnPostMembersOnly | src/Race/InProgressState.ts:36-46 | the corrected submission handling matches the original for members and for every text other than the phrase |
| SplitRaceLifecycle.MembersOnlyCompletionIsExact | src/Race/Race.ts:116-129 | with member-only recording the race completes exactly when every participant has a time |
| MonoRace.NewRace | src/Race.ts:186-202 | a new race is valid, with countdown 20 and InProgress counter 50 (5 and 10 in debug mode) |
| MonoRace.Gather | src/Race.ts:214-218 | gathering enters Countdown, starts the timer and replies with the countdown view |
| MonoRace.OnTick | src/Race.ts:220-224 | the last effect of every tick is an edit showing the resulting state; a countdown tick that does not start the race only lowers the countdown counter and sends the notices; an InProgress tick that does not end the race only lowers the autocomplete counter, keeping participants and times, and sends nothing but the edit |
| MonoRace.OnPress | src/Race.ts:95-100 | only the Join button during Countdown has any effect: a new user is appended, then welcomed by direct message, acknowledged and shown in an edit; a known user gets nothing; counters, phase and times are kept |
| MonoRace.OnPost | src/Race.ts:141-151 | outside InProgress the author is told the race is not active; a wrong text gets a notice; the phrase is thanked first, recorded, and completes the race exactly when the count comparison holds; a completing message is followed by the callback, the cleanup edit and the timer release, and changes nothing else; participants and start are never changed |
| MonoRaceLifecycle.StepMoves | src/Race.ts:102-114 | every event keeps the state or takes one transition that goes up the lifecycle; an ended race is unchanged |
| MonoRaceLifecycle.StepKeepsValid | src/Race.ts:102-127 | every event preserves the state invariant, including the untouched InProgress counter during Countdown |
| MonoRaceLifecycle.RunKeepsValid | src/Race.ts:214-224 | the invariant holds after any series of events |
| MonoRaceLifecycle.RunOrderMonotone | src/Race.ts:102-114 | the state never goes back in the lifecycle |
| MonoRaceLifecycle.StepFiresOnEnd | src/Race.ts:296-300 | one event runs the callback once if it ends the race and never otherwise |
| MonoRaceLifecycle.TerminalIsFinal | src/Race.ts:37-51 | an ended race ignores everything and never runs the callback again |
| MonoRaceLifecycle.CallbackFiresOnce | src/Race.ts:104-109 | along any series of events the callback runs once if the race ends during it and never otherwise |
| MonoRaceLifecycle.CountdownLastsExactly | src/Race.ts:62-73 | Countdown lasts exactly the race's countdown counter in ticks, and leaves the InProgress counter alone |
| MonoRaceLifecycle.InProgressEndsInTime | src/Race.ts:122-127 | InProgress ends by its counter's tick at the latest, and only by completing |
| MonoRaceLifecycle.StartedRaceKeepsConstructorBudget | src/Race.ts:102-114 | the starting tick keeps participants, times and phrase, stamps the start and has 50 InProgress ticks (10 in debug mode), the constructor's sum from src/Race.ts:196-198; it sends the last notice, the phrase to each participant in join order, and the InProgress view |
| MonoRaceLifecycle.CountdownAbortsWhenEmpty | src/Race.ts:104-109 | with nobody joined the last tick aborts, leaves the start unset, and sends aborted view, timer clear, callback, aborted view |
| MonoRaceLifecycle.AutocompleteNotifiesUnfinished | src/Race.ts:279-294 | the tick that exhausts InProgress tells exactly the unfinished participants, each once in join order, then completes |
| MonoRaceLifecycle.MatchingPostRecords | src/Race.ts:265-277 | a correct message thanks the author, records now minus start, and completes the race exactly when the keys reach the participant count, then runs the callback, edits the view and clears a live timer |
| MonoRaceLifecycle.LastFinisherCompletes | src/Race.ts:337-339 | the correct message that supplies the last missing time completes the race at once, whatever is left on the counter |
| MonoRaceLifecycle.StartStampedOnce | src/Race.ts:111-113 | the start time is set only by the tick that starts the race, and is never changed afterwards |
| Variants.SameRender | src/Race.ts:79-93 | corresponding races of the two variants show the same view |
| Variants.GatherAgrees | src/Race.ts:186-218 | both constructors and both gatherings give corresponding races and the same reply |
| Variants.CountdownTickAgrees | src/Race.ts:62-73 | a countdown tick that does not start the race sends the same effects in both variants |
| Variants.PressAgrees | src/Race.ts:95-100 | a button press is handled the same way by corresponding races |
| Variants.PostAgrees | src/Race.ts:47-49 | a message before the start is refused the same way by corresponding races |
| Variants.StartDiverges | src/Race.ts:196-198 | at the start both variants send the same notices and phrase and keep the same participants, times and phrase, but InProgress gets 30 ticks in one and 50 in the other |
| Variants.AgreeUntilStart | src/Race.ts:62-114 | along any series of events that does not start the race, both variants send the same log |
| Tracker.CreateRace | src/raceTracker.ts:21-40 | with a race current, the command only gets a private "already active" reply; otherwise a non-debug race with the quote is gathered and becomes current |
| Tracker.InboundGoesToCurrent | src/raceTracker.ts:42-62 | messages, presses and ticks reach the current race exactly as the race alone would take them |
| Tracker.InboundKeepsValid | src/raceTracker.ts:51-53 | the slot is emptied exactly by the event that ends its race, and that event runs the callback once |
| Tracker.HandleKeepsValid | src/raceTracker.ts:21-62 | every request keeps the slot holding nothing, or a valid, live, ticking race |
| Tracker.CreateOnlyWhenIdle | src/raceTracker.ts:22-28 | a race command leaves the tracker unchanged exactly when a race is current |
| Tracker.IdleTrackerAnswers | src/raceTracker.ts:42-62 | with no race current, a message is answered "No active race", a button press gets no answer, and the slot stays empty |
| Tracker.RunTrackerAccounts | src/raceTracker.ts:21-53 | over any series of requests, callbacks run equals races admitted minus races still current, so there is never more than one live race |

## Left out

- The chat transport is left out: interaction objects, promises and `await`. Effects are recorded in call order, and the asynchronous sends are assumed to be issued in that order.
- The one-second interval is left out. `setInterval` and `clearInterval` become the `ticking` flag, a `StopTicking` effect and `Tick` events.
- `new Date()` becomes the `now` parameter, in milliseconds.
- The random quote from `quotes.json` becomes the `quote` parameter. The quotes file is not part of this model.
- The `string` option that the tracker passes to the race is ignored by `src/Race.ts`, so the model passes only the quote the race draws.
- `console.log` calls are left out.
- `src/Race/InitializedState.ts` is not part of this model. Its state is modelled with the base state's defaults: no tick, empty view, "Race isn't active." for messages.
- User identity is modelled by id. The source compares `User` objects with `includes`, and the client keeps one object per id.
- Text.FormatSeconds: exact decimal seconds of an integer millisecond time. It agrees with JavaScript's number-to-string for magnitudes below 10^15 ms (about 31 700 years), where the quotient has at most 15 significant digits and so survives double precision. From 10^15 ms the double-precision quotient may round, and from 10^24 ms JavaScript writes exponent notation; neither is modelled.
- The extra arguments that both race variants pass to `renderParticipantList` (the "complete" flag and the phrase) are ignored by that function, and so by the model.
- The tracker's `consumeMessage` result (`false` with no race, otherwise nothing) is left out. Only its effects are modelled.
- The "already active" reply carries no buttons. It is modelled as a view with an empty button list.
- The debug commands, command registration, persistence of results and the `ping` command are outside the race lifecycle.
- SplitRace.OnTick, MonoRace.OnTick: the button style ("PRIMARY") is not modelled. A view carries only each button's id and caption.

## Findings

| source | as written | input that shows it | evidently intended | confidence | as-written member | corrected member |
|---|---|---|---|---|---|---|
| src/Race/Race.ts:177-179 | a correct message records a time under any author's id, and the race completes when the number of recorded ids reaches the number of participants | participants ann and bob; cat, who never joined, sends the phrase, then ann does; the race completes while bob has no time | complete only when every participant has a time, by recording times only for participants | not executed | SplitRaceLifecycle.StrangerEndsRaceEarly | SplitRaceLifecycle.MembersOnlyCompletionIsExact |

The race functions model the code as written. `SplitRaceLifecycle.OnPostMembersOnly`
is the corrected submission handling. It uses `Roster.MarkMemberComplete`, and the
exactness of its completion test is proved for it. `src/Race.ts:337-339`
repeats the same comparison, and so has the same defect.
