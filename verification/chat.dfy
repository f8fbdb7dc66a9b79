/**
 What passes between a race and the chat application: the inbound events
 (timer ticks, button presses, direct messages), the outbound effects (direct
 messages, the public status message and its edits, the interaction
 acknowledgement, the timer release, the completion callback), and the texts
 and views both race variants share.
 */
module Chat {

  import opened Text
  import opened Types

  /** A message button; the race only ever shows the join button. */
  datatype Button = Button(customId: string, caption: string)

  const JoinRaceId: string := "JOIN_RACE"
  const JoinButton: Button := Button(JoinRaceId, "Join")

  /** Public message options: `{}` (nothing to change) or a content with its buttons. */
  datatype View = NoChange | Show(content: string, buttons: seq<Button>)

  datatype Effect =
    | Send(to: User, text: string)        // a direct message to one user
    | Reply(view: View, ephemeral: bool)  // the first answer to the race command
    | EditReply(view: View)               // an edit of that answer
    | Acknowledge                         // the empty update that answers a button press
    | StopTicking                         // the periodic tick is cleared
    | RaceOver                            // the owner's onComplete callback runs

  datatype Event =
    | Tick(now: nat)                      // one firing of the one-second interval
    | Press(user: User, customId: string) // a button interaction
    | Post(author: User, text: string, now: nat) // a direct message to the bot

  const JoinedText: string := "Race joined, prepare to type."
  const CompletedText: string := "Completed"
  const MismatchText: string := "Oops, something wasn't quite right."
  const InactiveText: string := "Race isn't active."
  const AbortedText: string := "Race aborted, no participants"

  /** The same direct message to every user, in list order. */
  function SendAll(ps: seq<User>, text: string): (out: seq<Effect>)
    ensures |out| == |ps|
    ensures forall i :: 0 <= i < |ps| ==> out[i] == Send(ps[i], text)
    decreases |ps|
  {
    if |ps| == 0 then [] else [Send(ps[0], text)] + SendAll(ps[1..], text)
  }

  /** `sendStartMessage`: the phrase between code fences with its spaces spread to en spaces. */
  function StartMessage(phrase: string): string {
    "Go! \n```" + SpreadSpaces(phrase) + "```"
  }

  /** `sendCountdownMessage`: the remaining tick count followed by "...". */
  function CountdownNotice(n: int): string {
    IntToString(n) + "..."
  }

  function CountdownView(remaining: int, list: string): View {
    Show("Race starting in " + IntToString(remaining) + " seconds...\n" + list, [JoinButton])
  }

  function InProgressView(remaining: int, list: string): View {
    Show("Race in progress\n" + list + "\nRace ending in " + IntToString(remaining) + " seconds", [])
  }

  function CompleteView(phrase: string, list: string): View {
    Show("```" + phrase + "```\n" + list, [])
  }

  const AbortedView: View := Show(AbortedText, [])

  /** How many times the completion callback runs in a log. */
  function CountFired(out: seq<Effect>): nat {
    multiset(out)[RaceOver]
  }

  lemma FiredConcat(a: seq<Effect>, b: seq<Effect>)
    ensures CountFired(a + b) == CountFired(a) + CountFired(b)
  {
    assert multiset(a + b) == multiset(a) + multiset(b);
  }

  lemma SendAllFiresNothing(ps: seq<User>, text: string)
    ensures CountFired(SendAll(ps, text)) == 0
  {
    assert RaceOver !in SendAll(ps, text);
  }

  /**
   A broadcast followed by effects that are not direct messages: the broadcast
   is the prefix of the log, and its addressees are exactly the listed users.
   */
  lemma BroadcastThen(ps: seq<User>, text: string, tail: seq<Effect>)
    requires forall k :: 0 <= k < |tail| ==> !tail[k].Send?
    ensures (SendAll(ps, text) + tail)[..|ps|] == SendAll(ps, text)
    ensures (SendAll(ps, text) + tail)[|ps|..] == tail
    ensures forall u :: Send(u, text) in SendAll(ps, text) + tail <==> u in ps
  {
    var out := SendAll(ps, text) + tail;
    forall u ensures Send(u, text) in out <==> u in ps {
      if Send(u, text) in out {
        var k :| 0 <= k < |out| && out[k] == Send(u, text);
        assert ps[k] == u;
      }
      if u in ps {
        var k :| 0 <= k < |ps| && ps[k] == u;
        assert out[k] == Send(u, text);
      }
    }
  }

  /** How many of the events are timer ticks. */
  function TickCount(events: seq<Event>): nat
    decreases |events|
  {
    if |events| == 0 then 0 else (if events[0].Tick? then 1 else 0) + TickCount(events[1..])
  }
}
