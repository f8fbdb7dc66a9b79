/**
 The participant registry and completion bookkeeping of `Race`, written the
 same way in both variants (src/Race/Race.ts and src/Race.ts): joining, the
 recording of a completion time, the "all finished" count comparison and the
 list of participants still without a time.
 */
module Roster {

  import opened Wrappers
  import opened Types
  import opened ParticipantList

  /** `participants.includes(user)`: a user is identified by its id. */
  predicate HasParticipant(ps: seq<User>, u: User) {
    exists i :: 0 <= i < |ps| && ps[i].id == u.id
  }

  function Ids(ps: seq<User>): set<UserId> {
    set i | 0 <= i < |ps| :: ps[i].id
  }

  predicate DistinctIds(ps: seq<User>) {
    forall i, j :: 0 <= i < j < |ps| ==> ps[i].id != ps[j].id
  }

  /** `addParticipant`: a user already present is ignored, anyone else is appended. */
  function AddParticipant(ps: seq<User>, u: User): (r: seq<User>)
    ensures HasParticipant(ps, u) ==> r == ps
    ensures !HasParticipant(ps, u) ==> r == ps + [u]
    ensures HasParticipant(r, u)
    ensures |ps| <= |r| <= |ps| + 1 && r[..|ps|] == ps
    ensures |r| == |ps| + 1 <==> !HasParticipant(ps, u)
    ensures Ids(r) == Ids(ps) + {u.id}
    ensures DistinctIds(ps) ==> DistinctIds(r)
  {
    if HasParticipant(ps, u) then ps
    else
      var r := ps + [u];
      assert r[|ps|].id == u.id;
      r
  }

  /** The registry after a series of join requests, in arrival order. */
  function JoinAll(ps: seq<User>, us: seq<User>): seq<User>
    decreases |us|
  {
    if |us| == 0 then ps else JoinAll(AddParticipant(ps, us[0]), us[1..])
  }

  lemma {:induction false} DistinctIdsCount(ps: seq<User>)
    requires DistinctIds(ps)
    ensures |Ids(ps)| == |ps|
    decreases |ps|
  {
    if |ps| > 0 {
      var front := ps[..|ps| - 1];
      assert DistinctIds(front);
      DistinctIdsCount(front);
      assert Ids(ps) == Ids(front) + {ps[|ps| - 1].id} by {
        forall id | id in Ids(ps) ensures id in Ids(front) + {ps[|ps| - 1].id} {
          var i :| 0 <= i < |ps| && ps[i].id == id;
          if i < |ps| - 1 {
            assert front[i].id == id;
          }
        }
      }
      assert ps[|ps| - 1].id !in Ids(front);
    }
  }

  lemma IdsCount(ps: seq<User>)
    ensures |Ids(ps)| <= |ps|
    decreases |ps|
  {
    if |ps| > 0 {
      var front := ps[..|ps| - 1];
      IdsCount(front);
      var last := {ps[|ps| - 1].id};
      assert |Ids(front) + last| <= |Ids(front)| + 1;
      assert Ids(ps) <= Ids(front) + last by {
        forall id | id in Ids(ps) ensures id in Ids(front) + {ps[|ps| - 1].id} {
          var i :| 0 <= i < |ps| && ps[i].id == id;
          if i < |ps| - 1 {
            assert front[i].id == id;
          }
        }
      }
      SubsetCount(Ids(ps), Ids(front) + last);
    }
  }

  lemma IdsFirst(us: seq<User>)
    requires |us| > 0
    ensures Ids(us) == {us[0].id} + Ids(us[1..])
  {
    forall id | id in Ids(us) ensures id in {us[0].id} + Ids(us[1..]) {
      var i :| 0 <= i < |us| && us[i].id == id;
      if i > 0 {
        assert us[1..][i - 1].id == id;
      }
    }
    forall id | id in Ids(us[1..]) ensures id in Ids(us) {
      var i :| 0 <= i < |us[1..]| && us[1..][i].id == id;
      assert us[i + 1].id == id;
    }
  }

  lemma {:induction false} JoinAllIds(ps: seq<User>, us: seq<User>)
    requires DistinctIds(ps)
    ensures DistinctIds(JoinAll(ps, us))
    ensures Ids(JoinAll(ps, us)) == Ids(ps) + Ids(us)
    decreases |us|
  {
    if |us| > 0 {
      var next := AddParticipant(ps, us[0]);
      JoinAllIds(next, us[1..]);
      IdsFirst(us);
      assert JoinAll(ps, us) == JoinAll(next, us[1..]);
    }
  }

  /**
   Whatever join requests arrive, nobody is listed twice and the list is as
   long as the number of distinct requesting ids, never longer than the requests.
   */
  lemma JoinAllBound(us: seq<User>)
    ensures DistinctIds(JoinAll([], us))
    ensures |JoinAll([], us)| == |Ids(us)| <= |us|
  {
    JoinAllIds([], us);
    assert Ids([]) == {};
    DistinctIdsCount(JoinAll([], us));
    IdsCount(us);
  }

  /**
   `markParticipantAsComplete`: nothing before the start time is stamped;
   afterwards the author's entry is set (or overwritten) to `now - startTime`,
   whether or not the author joined, and every other entry is kept.
   */
  function MarkComplete(times: CompletionTimes, startTime: Option<nat>, author: User, now: nat): (r: CompletionTimes)
    ensures startTime.None? ==> r == times
    ensures startTime.Some? ==> r.Keys == times.Keys + {author.id} && r[author.id] == now - startTime.value
    ensures forall id :: id in times && id != author.id ==> id in r && r[id] == times[id]
  {
    match startTime
    case None => times
    case Some(start) => times[author.id := now - start]
  }

  /** `allParticipantsAreFinished`: at least as many completion keys as participants. */
  predicate AllFinished(ps: seq<User>, times: CompletionTimes) {
    |times.Keys| >= |ps|
  }

  lemma SubsetCount<T>(a: set<T>, b: set<T>)
    requires a <= b
    ensures |a| <= |b|
    ensures |a| == |b| ==> a == b
    decreases |b|
  {
    if a != b {
      var x :| x in b && x !in a;
      SubsetCount(a, b - {x});
    }
  }

  /**
   When every completion key belongs to a distinct participant, the count
   comparison says exactly that every participant has a recorded time.
   */
  lemma AllFinishedMeansEveryone(ps: seq<User>, times: CompletionTimes)
    requires DistinctIds(ps)
    requires times.Keys <= Ids(ps)
    ensures AllFinished(ps, times) <==> forall i :: 0 <= i < |ps| ==> ps[i].id in times
  {
    DistinctIdsCount(ps);
    SubsetCount(times.Keys, Ids(ps));
    if forall i :: 0 <= i < |ps| ==> ps[i].id in times {
      forall id | id in Ids(ps) ensures id in times.Keys {
        var i :| 0 <= i < |ps| && ps[i].id == id;
      }
      SubsetCount(Ids(ps), times.Keys);
    }
    if AllFinished(ps, times) {
      assert times.Keys == Ids(ps);
      forall i | 0 <= i < |ps| ensures ps[i].id in times {
        assert ps[i].id in Ids(ps);
      }
    }
  }

  /** `notifyUnfinishedParticipants`' filter: participants whose time is missing or 0, in join order. */
  function Unfinished(ps: seq<User>, times: CompletionTimes): (r: seq<User>)
    ensures forall u :: u in r <==> u in ps && !HasTime(times, u.id)
    ensures |r| <= |ps|
    decreases |ps|
  {
    if |ps| == 0 then []
    else
      var rest := Unfinished(ps[1..], times);
      assert forall u :: u in ps <==> u == ps[0] || u in ps[1..];
      if HasTime(times, ps[0].id) then rest else [ps[0]] + rest
  }

  /** Nobody on the unfinished list appears twice, so nobody is told twice that the race ended. */
  lemma {:induction false} UnfinishedDistinct(ps: seq<User>, times: CompletionTimes)
    requires DistinctIds(ps)
    ensures DistinctIds(Unfinished(ps, times))
    decreases |ps|
  {
    if |ps| > 0 {
      var rest := Unfinished(ps[1..], times);
      UnfinishedDistinct(ps[1..], times);
      forall k | 0 <= k < |rest| ensures rest[k].id != ps[0].id {
        assert rest[k] in ps[1..];
        var j :| 0 <= j < |ps[1..]| && ps[1..][j] == rest[k];
        assert ps[j + 1] == rest[k];
      }
    }
  }

  /**
   The completion bookkeeping as the "all finished" comparison needs it: a
   time is recorded only for a user who joined, so every key stays a
   participant's id.
   */
  function MarkMemberComplete(ps: seq<User>, times: CompletionTimes, startTime: Option<nat>, author: User, now: nat): (r: CompletionTimes)
    ensures HasParticipant(ps, author) ==> r == MarkComplete(times, startTime, author, now)
    ensures !HasParticipant(ps, author) ==> r == times
  {
    if HasParticipant(ps, author) then MarkComplete(times, startTime, author, now) else times
  }

  /**
   With member-only recording, the count comparison is true exactly when
   every participant has a recorded time, after any submission.
   */
  lemma MemberTimesKeepCountExact(ps: seq<User>, times: CompletionTimes, startTime: Option<nat>, author: User, now: nat)
    requires DistinctIds(ps)
    requires times.Keys <= Ids(ps)
    ensures var r := MarkMemberComplete(ps, times, startTime, author, now);
      && r.Keys <= Ids(ps)
      && (AllFinished(ps, r) <==> forall i :: 0 <= i < |ps| ==> ps[i].id in r)
  {
    var r := MarkMemberComplete(ps, times, startTime, author, now);
    if HasParticipant(ps, author) {
      var i :| 0 <= i < |ps| && ps[i].id == author.id;
      assert author.id in Ids(ps);
    }
    AllFinishedMeansEveryone(ps, r);
  }
}
