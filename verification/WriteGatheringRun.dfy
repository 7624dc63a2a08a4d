/**
  Whole runs of write gathering: whatever is submitted, by events or by callbacks, and
  however the database answers, every request is answered exactly once, in order.
 */
module WriteGatheringRuns {
  import opened Keys
  import opened WriteGathering

  /** What may happen; callbacks submit the given requests at once. */
  datatype Event =
    | SubmitEvent(request: Request)
    | TimerEvent
    | CommittedEvent(err: Option<CommitError>, during: nat -> seq<Request>, duringPending: nat -> seq<Request>)

  /** The requests that events submit, in order. */
  function Submitted(events: seq<Event>): seq<Request> {
    if events == [] then []
    else
      var n := |events| - 1;
      Submitted(events[..n]) + (if events[n].SubmitEvent? then [events[n].request] else [])
  }

  /** The first sequence can be picked from the second, in order. */
  ghost predicate IsPicked<T>(a: seq<T>, b: seq<T>)
    decreases |b|
  {
    a == [] || (b != [] && (IsPicked(a, b[..|b|-1]) || (a[|a|-1] == b[|b|-1] && IsPicked(a[..|a|-1], b[..|b|-1]))))
  }

  lemma {:induction false} PickedFromMore<T>(a: seq<T>, b: seq<T>, c: seq<T>)
    requires IsPicked(a, b) && b <= c
    ensures IsPicked(a, c)
    decreases |c|
  {
    if |b| < |c| {
      PickedFromMore(a, b, c[..|c|-1]);
    } else {
      assert b == c;
    }
  }

  lemma PickedNext<T>(a: seq<T>, b: seq<T>, x: T)
    requires IsPicked(a, b)
    ensures IsPicked(a + [x], b + [x])
  {
    assert (a + [x])[..|a|] == a && (b + [x])[..|b|] == b;
  }

  lemma {:induction false} PickedAreIn<T>(a: seq<T>, b: seq<T>)
    requires IsPicked(a, b)
    ensures forall x :: x in a ==> x in b
    decreases |b|
  {
    if a != [] {
      var b', n := b[..|b|-1], |a| - 1;
      assert forall x :: x in a ==> x in a[..n] || x == a[n];
      if IsPicked(a, b') {
        PickedAreIn(a, b');
      } else {
        PickedAreIn(a[..n], b');
      }
    }
  }

  lemma {:induction false} SubmittedAre(events: seq<Event>)
    ensures forall i :: 0 <= i < |events| && events[i].SubmitEvent? ==> events[i].request in Submitted(events)
  {
    if events != [] {
      SubmittedAre(events[..|events|-1]);
    }
  }

  lemma SubmittedAreIn(events: seq<Event>, requests: seq<Request>)
    requires IsPicked(Submitted(events), requests)
    ensures forall i :: 0 <= i < |events| && events[i].SubmitEvent? ==> events[i].request in requests
  {
    hide IsPicked;
    hide Submitted;
    SubmittedAre(events);
    PickedAreIn(Submitted(events), requests);
  }

  /** Lets one event happen; a timer that is not set and a commit that is not in progress
      have none. */
  method Handle(m: WriteGatheringManager, e: Event)
    requires m.Valid()
    modifies m
    ensures m.Valid() && old(m.requests) <= m.requests && old(m.answers) <= m.answers
    ensures e.SubmitEvent? ==> m.requests == old(m.requests) + [e.request]
  {
    hide AnswerIds;
    hide Ids;
    hide Asking;
    hide Writes;
    match e {
      case SubmitEvent(request) =>
        m.Batch(request, []);
      case TimerEvent =>
        if m.batchCache.Some? && m.batchCache.value.timer {
          m.OnTimer();
        }
      case CommittedEvent(err, during, duringPending) =>
        if m.committing.Some? {
          m.OnCommitted(err, during, duringPending);
        }
    }
  }

  function NothingMore(i: nat): seq<Request> {
    []
  }

  /** Without further requests, the timer and the answers of the database come to an end. */
  method Settle(m: WriteGatheringManager, first: Option<CommitError>, second: Option<CommitError>)
    requires m.Valid()
    modifies m
    ensures m.Valid() && m.committing.None? && m.batchCache.None?
    ensures m.requests == old(m.requests) && old(m.answers) <= m.answers
  {
    hide AnswerIds;
    hide Ids;
    hide Asking;
    hide Writes;
    if m.committing.Some? {
      m.OnCommitted(first, NothingMore, NothingMore);
    }
    if m.batchCache.Some? && m.batchCache.value.timer {
      m.OnTimer();
    }
    if m.committing.Some? {
      m.OnCommitted(second, NothingMore, NothingMore);
    }
  }

  /** Each of the requests with an entry is answered exactly once. */
  ghost predicate AreAnsweredOnce(requests: seq<Request>, answers: seq<Answer>) {
    forall r :: r in requests && r.entries != [] ==>
      exists i :: 0 <= i < |answers| && answers[i].id == r.id
                  && forall j :: 0 <= j < |answers| && answers[j].id == r.id ==> j == i
  }

  ghost predicate AreDistinct(requests: seq<Request>) {
    forall i, j :: 0 <= i < j < |requests| ==> requests[i].id != requests[j].id
  }

  lemma {:induction false} AnswerIdAt(answers: seq<Answer>, i: nat)
    requires i < |answers|
    ensures |AnswerIds(answers)| == |answers| && AnswerIds(answers)[i] == answers[i].id
    decreases |answers|
  {
    var n := |answers| - 1;
    if n > 0 {
      AnswerIdAt(answers[..n], if i < n then i else 0);
    }
  }

  /** The requests that can be answered are those with an entry. */
  lemma {:induction false} AskingAt(requests: seq<Request>)
    ensures forall r :: r in requests && r.entries != [] ==> r.id in Asking(requests)
    ensures forall id :: id in Asking(requests) ==> exists r :: r in requests && r.entries != [] && r.id == id
  {
    if requests != [] {
      var n := |requests| - 1;
      AskingAt(requests[..n]);
      assert requests == requests[..n] + [requests[n]];
    }
  }

  lemma {:induction false} AskingIsDistinct(requests: seq<Request>)
    requires AreDistinct(requests)
    ensures forall i, j :: 0 <= i < j < |Asking(requests)| ==> Asking(requests)[i] != Asking(requests)[j]
  {
    if requests != [] {
      var n := |requests| - 1;
      var before, last := requests[..n], requests[n];
      AskingIsDistinct(before);
      AskingAt(before);
      LastIsDistinct(requests);
      forall j | 0 <= j < |Asking(before)|
        ensures Asking(before)[j] != last.id
      {
        assert Asking(before)[j] in Asking(before);
      }
    }
  }

  lemma LastIsDistinct(requests: seq<Request>)
    requires AreDistinct(requests) && requests != []
    ensures var n := |requests| - 1; forall r :: r in requests[..n] ==> r.id != requests[n].id
  {
  }

  lemma OrderMeansOnce(requests: seq<Request>, answers: seq<Answer>)
    requires AnswerIds(answers) == Asking(requests) && AreDistinct(requests)
    ensures AreAnsweredOnce(requests, answers)
  {
    hide Asking;
    hide AnswerIds;
    hide AreDistinct;
    AskingAt(requests);
    AskingIsDistinct(requests);
    SameLength(answers);
    forall i | 0 <= i < |answers|
      ensures AnswerIds(answers)[i] == answers[i].id
    {
      AnswerIdAt(answers, i);
    }
    forall r | r in requests && r.entries != []
      ensures exists i :: 0 <= i < |answers| && answers[i].id == r.id
                          && forall j :: 0 <= j < |answers| && answers[j].id == r.id ==> j == i
    {
      var ids := AnswerIds(answers);
      var i :| 0 <= i < |ids| && ids[i] == r.id;
      assert answers[i].id == r.id;
    }
  }

  lemma {:induction false} SameLength(answers: seq<Answer>)
    ensures |AnswerIds(answers)| == |answers|
  {
    if answers != [] {
      SameLength(answers[..|answers|-1]);
    }
  }

  /**
    Runs a new manager through events, and lets it settle.  What has been submitted is among
    the requests, in order; all requests with an entry have been answered, in order, and once
    each if they are distinct; and if no commit has failed, all has been committed in order.
   */
  method Run(events: seq<Event>, first: Option<CommitError>, second: Option<CommitError>)
    returns (m: WriteGatheringManager)
    ensures m.Valid() && m.committing.None? && m.batchCache.None?
    ensures IsPicked(Submitted(events), m.requests)
    ensures forall i :: 0 <= i < |events| && events[i].SubmitEvent? ==> events[i].request in m.requests
    ensures AnswerIds(m.answers) == Asking(m.requests)
    ensures AreDistinct(m.requests) ==> AreAnsweredOnce(m.requests, m.answers)
    ensures !m.failed ==> m.committed == Joined(m.sent) == Writes(m.requests)
  {
    hide AnswerIds;
    hide Ids;
    hide Asking;
    hide Writes;
    hide IsPicked;
    hide AreDistinct;
    hide AreAnsweredOnce;
    m := new WriteGatheringManager();
    PickedAtFirst(m.requests);
    for i := 0 to |events|
      invariant fresh(m) && m.Valid() && IsPicked(Submitted(events[..i]), m.requests)
    {
      OneMoreEvent(events, i);
      ghost var before := m.requests;
      Handle(m, events[i]);
      if events[i].SubmitEvent? {
        PickedNext(Submitted(events[..i]), before, events[i].request);
      } else {
        PickedFromMore(Submitted(events[..i]), before, m.requests);
      }
    }
    assert events[..|events|] == events;
    Settle(m, first, second);
    m.IdleIsComplete();
    SubmittedAreIn(events, m.requests);
    if AreDistinct(m.requests) {
      OrderMeansOnce(m.requests, m.answers);
    }
  }

  lemma OneMoreEvent(events: seq<Event>, i: nat)
    requires i < |events|
    ensures var e := events[i];
            Submitted(events[..i+1])
            == if e.SubmitEvent? then Submitted(events[..i]) + [e.request] else Submitted(events[..i])
  {
    assert events[..i+1][..i] == events[..i] && events[..i+1][i] == events[i];
    assert Submitted(events[..i]) + [] == Submitted(events[..i]);
  }

  lemma PickedAtFirst(requests: seq<Request>)
    ensures IsPicked([], requests)
  {
  }
}
