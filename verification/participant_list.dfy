/**
 The status list shown under every public race message: one row per joined
 participant, in join order, each row the car marker and the username, with a
 check mark and the completion time in seconds once that participant's time is
 truthy.
 */
module ParticipantList {

  import opened Wrappers
  import opened Text
  import opened Types

  /** `completionTimes[id]` is truthy: present and not zero. */
  predicate HasTime(times: CompletionTimes, id: UserId) {
    id in times && times[id] != 0
  }

  /** The racing car U+1F3CE and two spaces that open every row. */
  const RowMarker: string := "\U{1F3CE}  "

  /** The text between the username and the seconds: a space, U+2705, a space and "(". */
  const DoneMarker: string := " \U{2705} ("

  function RowHead(p: User): string {
    RowMarker + p.username
  }

  function RenderRow(p: User, times: CompletionTimes): (row: string)
    ensures |RowHead(p)| <= |row| && row[..|RowHead(p)|] == RowHead(p)
    ensures HasTime(times, p.id) <==> |row| > |RowHead(p)|
    ensures '\n' !in p.username ==> '\n' !in row
  {
    var mark := if HasTime(times, p.id) then DoneMarker + FormatSeconds(times[p.id]) + ")" else "";
    assert '\n' !in mark by {
      if HasTime(times, p.id) {
        var sec := FormatSeconds(times[p.id]);
        assert forall i :: 0 <= i < |sec| ==> IsNumeral(sec[i]);
      }
    }
    RowHead(p) + mark
  }

  /** A finished row ends with the completion time as seconds, between the marker and ")", exactly. */
  lemma RowShowsSeconds(p: User, times: CompletionTimes)
    requires HasTime(times, p.id)
    ensures var row := RenderRow(p, times);
      var start := |RowHead(p)| + |DoneMarker|;
      && start < |row| && row[|row| - 1] == ')'
      && row[|RowHead(p)|..start] == DoneMarker
      && ParseSeconds(row[start..|row| - 1]) == Some(times[p.id])
  {
    var sec := FormatSeconds(times[p.id]);
    var row := RenderRow(p, times);
    assert row == RowHead(p) + DoneMarker + sec + ")";
    var start := |RowHead(p)| + |DoneMarker|;
    assert row[start..|row| - 1] == sec;
    assert row[|RowHead(p)|..start] == DoneMarker;
    ParseFormatSeconds(times[p.id]);
  }

  /** The rows of the list, one per participant, in the participants' order. */
  function Rows(ps: seq<User>, times: CompletionTimes): (rows: seq<string>)
    ensures |rows| == |ps|
  {
    seq(|ps|, i requires 0 <= i < |ps| => RenderRow(ps[i], times))
  }

  /** `renderParticipantList`: the rows joined by "\n". */
  function RenderList(ps: seq<User>, times: CompletionTimes): (list: string)
    ensures list == "" <==> |ps| == 0
  {
    var rows := Rows(ps, times);
    assert |rows| > 0 ==> |RowHead(ps[0])| <= |rows[0]|;
    JoinLines(rows)
  }

  predicate NoNewlineNames(ps: seq<User>) {
    forall i :: 0 <= i < |ps| ==> '\n' !in ps[i].username
  }

  /**
   The list splits back into exactly one row per participant, in join order,
   so the row of the i-th participant is the i-th line whatever the times are.
   */
  lemma RenderListRows(ps: seq<User>, times: CompletionTimes)
    requires 1 <= |ps|
    requires NoNewlineNames(ps)
    ensures SplitLines(RenderList(ps, times)) == Rows(ps, times)
    ensures forall i :: 0 <= i < |ps| ==>
      SplitLines(RenderList(ps, times))[i] == RenderRow(ps[i], times)
  {
    var rows := Rows(ps, times);
    forall k | 0 <= k < |rows|
      ensures '\n' !in rows[k]
    {
      assert rows[k] == RenderRow(ps[k], times);
    }
    SplitJoinLines(rows);
  }

  /** Two completion maps show the same for `id`: both untruthy, or both the same time. */
  predicate SameShown(t1: CompletionTimes, t2: CompletionTimes, id: UserId) {
    HasTime(t1, id) == HasTime(t2, id) && (HasTime(t1, id) ==> t1[id] == t2[id])
  }

  /** Completion entries matter only through the participants' own ids. */
  lemma RenderListIgnoresOtherIds(ps: seq<User>, t1: CompletionTimes, t2: CompletionTimes)
    requires forall i :: 0 <= i < |ps| ==> SameShown(t1, t2, ps[i].id)
    ensures RenderList(ps, t1) == RenderList(ps, t2)
  {
    assert Rows(ps, t1) == Rows(ps, t2) by {
      forall i | 0 <= i < |ps|
        ensures Rows(ps, t1)[i] == Rows(ps, t2)[i]
      {
        assert SameShown(t1, t2, ps[i].id);
      }
    }
  }

  /** Dropping every entry whose id is not a participant's leaves the list as it was. */
  lemma RenderListOnlyParticipants(ps: seq<User>, times: CompletionTimes)
    ensures RenderList(ps, times) == RenderList(ps, map id | id in times && exists i :: 0 <= i < |ps| && ps[i].id == id :: times[id])
  {
    var kept := map id | id in times && exists i :: 0 <= i < |ps| && ps[i].id == id :: times[id];
    forall i | 0 <= i < |ps|
      ensures SameShown(times, kept, ps[i].id)
    {
      if ps[i].id in times {
        assert ps[i].id in kept;
      }
    }
    RenderListIgnoresOtherIds(ps, times, kept);
  }
}
