/**
  What becomes of a broadcast over whole runs of the cluster: every worker that was there when
  it was dispatched receives it exactly once, nobody else does, and it is answered with the
  first result of each as soon as all of them have come.
 */
module ClusterBroadcasts {
  import opened Keys
  import opened ClusterRPC

  // ---------------------------------------------------------------------------
  // Dispatch

  /** The message that the arrival of a command puts on its way to a worker. */
  ghost predicate IsSentFor(c: Cluster, w: WorkerId, uids: Uid, target: Target, m: (WorkerId, ToWorker)) {
    match target
    case AllWorkers => m.0 in c.workers && m.1 == Execute(uids)
    case ThePrimary => false
    case Unsupported => m == (w, CommandError(uids, "NotImplemented"))
  }

  /** A command that arrives puts exactly these messages on their way, one of each: a broadcast
      one to every worker, which all have an empty slot then. */
  lemma CommandIsForwarded(c: Cluster, w: WorkerId, uids: Uid, target: Target)
    requires Valid(c) && Allowed(c, PrimaryReceives(w, Command(uids, target)))
    ensures var c' := Step(c, PrimaryReceives(w, Command(uids, target)));
            && (forall m :: c'.toWorkers[m] == c.toWorkers[m] + if IsSentFor(c, w, uids, target, m) then 1 else 0)
            && (target == AllWorkers ==>
                  && uids in c'.dispatched && c'.dispatched[uids] == c.workers
                  && uids in c'.primary.workerIds && c'.primary.workerIds[uids] == w
                  && uids in c'.primary.results && |c'.primary.results[uids]| == |c.workers|
                  && forall i :: 0 <= i < |c.workers| ==> c'.primary.results[uids][i] == Slot(c.workers[i], None))
  {
    hide IsGathering;
    hide IsAnswer;
    hide AnswersValid;
    hide PromisesValid;
    CommandArrives(c, w, uids, target);
    NotStarted(c, w, uids, target);
    var c' := Step(c, PrimaryReceives(w, Command(uids, target)));
    var sent := OnCommand(c.primary, w, target, uids, c.workers).1;
    assert c'.toWorkers == c.toWorkers + multiset(sent);
    forall m
      ensures multiset(sent)[m] == if IsSentFor(c, w, uids, target, m) then 1 else 0
    {
      if target == AllWorkers {
        ForwardedOnce(c.workers, uids, m);
      }
    }
  }

  /** A command that arrives has not been started before. */
  lemma NotStarted(c: Cluster, w: WorkerId, uids: Uid, target: Target)
    requires Valid(c) && (w, Command(uids, target)) in c.toPrimary
    ensures uids !in c.primary.results && uids !in c.primary.workerIds && uids !in c.dispatched
    ensures IsDistinct(c.workers)
  {
  }

  lemma {:induction false} ForwardedOnce(workers: seq<WorkerId>, uids: Uid, m: (WorkerId, ToWorker))
    requires IsDistinct(workers)
    ensures multiset(Forwards(workers, uids))[m] == if m.0 in workers && m.1 == Execute(uids) then 1 else 0
  {
    if workers != [] {
      var rest := workers[1..];
      ForwardedOnce(rest, uids, m);
      assert workers == [workers[0]] + rest;
      assert workers[0] !in rest;
    }
  }

  // ---------------------------------------------------------------------------
  // Every worker receives it once

  ghost function One(b: bool): nat {
    if b then 1 else 0
  }

  ghost predicate IsDue(c: Cluster, w: WorkerId, uids: Uid) {
    uids in c.dispatched && w in c.dispatched[uids]
  }

  /** The command is on its way to a worker or has been received by it, once, exactly if the
      worker was there when it was dispatched; and only who has received it gives results. */
  ghost predicate Delivers(c: Cluster) {
    && (forall w: WorkerId, uids: Uid ::
          c.toWorkers[(w, Execute(uids))] + One((w, uids) in c.received) == One(IsDue(c, w, uids)))
    && (forall x :: x in c.given ==> (x.0, x.1) in c.received)
  }

  /** What the arrival of a command changes about deliveries. */
  lemma ArrivalChanges(c: Cluster, w: WorkerId, uids: Uid, target: Target)
    requires Valid(c) && Allowed(c, PrimaryReceives(w, Command(uids, target)))
    ensures var c' := Step(c, PrimaryReceives(w, Command(uids, target)));
            && (forall m :: c'.toWorkers[m] == c.toWorkers[m] + if IsSentFor(c, w, uids, target, m) then 1 else 0)
            && c'.received == c.received && c'.given == c.given && uids !in c.dispatched
            && c'.dispatched == if target == AllWorkers then c.dispatched[uids := c.workers] else c.dispatched
  {
    hide Valid;
    hide OnCommand;
    hide Step;
    CommandArrives(c, w, uids, target);
    NotStarted(c, w, uids, target);
    CommandIsForwarded(c, w, uids, target);
  }

  lemma ArrivalDelivers(c: Cluster, w: WorkerId, uids: Uid, target: Target)
    requires Valid(c) && Delivers(c) && Allowed(c, PrimaryReceives(w, Command(uids, target)))
    ensures Delivers(Step(c, PrimaryReceives(w, Command(uids, target))))
  {
    hide Valid;
    hide Step;
    ArrivalChanges(c, w, uids, target);
    var c' := Step(c, PrimaryReceives(w, Command(uids, target)));
    forall x: WorkerId, u: Uid
      ensures c'.toWorkers[(x, Execute(u))] + One((x, u) in c'.received) == One(IsDue(c', x, u))
    {
      assert c'.toWorkers[(x, Execute(u))]
          == c.toWorkers[(x, Execute(u))] + if IsSentFor(c, w, uids, target, (x, Execute(u))) then 1 else 0;
      assert c.toWorkers[(x, Execute(u))] + One((x, u) in c.received) == One(IsDue(c, x, u));
    }
  }

  lemma ReceiptDelivers(c: Cluster, w: WorkerId, msg: ToWorker)
    requires Delivers(c) && Allowed(c, WorkerReceives(w, msg))
    ensures Delivers(Step(c, WorkerReceives(w, msg)))
  {
    var c' := Step(c, WorkerReceives(w, msg));
    forall x: WorkerId, u: Uid
      ensures c'.toWorkers[(x, Execute(u))] + One((x, u) in c'.received) == One(IsDue(c', x, u))
    {
      assert c.toWorkers[(x, Execute(u))] + One((x, u) in c.received) == One(IsDue(c, x, u));
    }
  }

  /** Results and errors are no commands. */
  lemma AnswersAreNoCommands(g: Gathering, from: WorkerId, uids: Uid, payload: Marshalled, workers: seq<WorkerId>)
    ensures forall m :: m in OnCommandResult(g, from, uids, payload, workers).1 ==> !m.1.Execute?
  {
  }

  lemma StepDelivers(c: Cluster, e: Event)
    requires Valid(c) && Delivers(c) && Allowed(c, e)
    ensures Delivers(Step(c, e))
  {
    hide IsGathering;
    hide IsAnswer;
    hide Valid;
    hide OnCommand;
    hide OnCommandResult;
    match e {
      case PrimaryReceives(w, msg) =>
        match msg {
          case Command(uids, target) => ArrivalDelivers(c, w, uids, target);
          case CommandResult(uids, payload) => AnswersAreNoCommands(c.primary, w, uids, payload, c.workers);
        }
      case WorkerReceives(w, msg) => ReceiptDelivers(c, w, msg);
      case _ =>
    }
  }

  // ---------------------------------------------------------------------------
  // Which results have come

  /** The first result of a worker that the primary receives. */
  ghost function FirstResult(events: seq<Event>, w: WorkerId, uids: Uid): Option<Marshalled> {
    if events == [] then None
    else
      var before, last := FirstResult(events[..|events|-1], w, uids), events[|events|-1];
      if before.Some? then before
      else if last.PrimaryReceives? && last.worker == w && last.toPrimary.CommandResult? && last.toPrimary.uids == uids
      then Some(last.toPrimary.payload)
      else None
  }

  /** The slots hold the first results that have come, and the command is over exactly if
      there is one of each worker. */
  ghost predicate HasFirst(c: Cluster, events: seq<Event>, uids: Uid) {
    if uids !in c.dispatched then uids !in c.primary.results && forall w :: FirstResult(events, w, uids) == None
    else if uids in c.primary.results then
      forall i :: 0 <= i < |c.primary.results[uids]| ==>
        c.primary.results[uids][i].result == FirstResult(events, c.primary.results[uids][i].worker, uids)
    else forall w :: w in c.dispatched[uids] ==> FirstResult(events, w, uids).Some?
  }

  ghost predicate Keeps(c: Cluster, events: seq<Event>) {
    Valid(c) && Delivers(c) && forall uids :: HasFirst(c, events, uids)
  }

  /** A result that arrives is of a command that was dispatched. */
  lemma ResultIsDue(c: Cluster, w: WorkerId, uids: Uid, payload: Marshalled)
    requires Valid(c) && Delivers(c) && (w, CommandResult(uids, payload)) in c.toPrimary
    ensures IsDue(c, w, uids)
  {
    hide IsGathering;
    hide IsAnswer;
    assert (w, uids, payload) in c.given;
    assert (w, uids) in c.received;
    assert c.toWorkers[(w, Execute(uids))] + One((w, uids) in c.received) == One(IsDue(c, w, uids));
  }

  lemma FirstResultStep(events: seq<Event>, e: Event, w: WorkerId, uids: Uid)
    ensures FirstResult(events + [e], w, uids)
         == if FirstResult(events, w, uids).Some? then FirstResult(events, w, uids)
            else if e.PrimaryReceives? && e.worker == w && e.toPrimary.CommandResult? && e.toPrimary.uids == uids
            then Some(e.toPrimary.payload) else None
  {
    assert (events + [e])[..|events|] == events;
  }

  lemma SlotsAreDistinct(c: Cluster, uids: Uid)
    requires PrimaryValid(c) && uids in c.primary.results
    ensures uids in c.dispatched && DistinctSlots(c.primary.results[uids])
    ensures |c.primary.results[uids]| == |c.dispatched[uids]|
    ensures forall i :: 0 <= i < |c.dispatched[uids]| ==> c.primary.results[uids][i].worker == c.dispatched[uids][i]
  {
    assert IsGathering(c, uids, c.primary.results[uids]);
  }

  /** What a result changes about its command. */
  lemma ResultArrives(c: Cluster, events: seq<Event>, w: WorkerId, uids: Uid, payload: Marshalled)
    requires Keeps(c, events) && Allowed(c, PrimaryReceives(w, CommandResult(uids, payload)))
    ensures var e := PrimaryReceives(w, CommandResult(uids, payload)); HasFirst(Step(c, e), events + [e], uids)
  {
    hide IsGathering;
    hide IsAnswer;
    hide AnswersValid;
    hide PromisesValid;
    hide CommandsValid;
    hide FirstResult;
    var e := PrimaryReceives(w, CommandResult(uids, payload));
    var c' := Step(c, e);
    ResultIsDue(c, w, uids, payload);
    assert HasFirst(c, events, uids);
    forall x
      ensures FirstResult(events + [e], x, uids)
           == if FirstResult(events, x, uids).Some? then FirstResult(events, x, uids)
              else if x == w then Some(payload) else None
    {
      FirstResultStep(events, e, x, uids);
    }
    if uids in c.primary.results {
      SlotsAreDistinct(c, uids);
      var slots := c.primary.results[uids];
      forall i | 0 <= i < |slots| && slots[i].worker == w
        ensures SlotOf(slots, w) == Some(i)
      {
        SlotIsUnique(slots, i);
      }
      if IsAwaited(c.primary, w, uids) {
        var slots' := WithResult(c.primary, w, uids, payload);
        forall i | 0 <= i < |slots|
          ensures slots'[i].worker == slots[i].worker
          ensures slots'[i].result == FirstResult(events + [e], slots[i].worker, uids)
        {
        }
        if AllResponded(slots') {
          forall x | x in c.dispatched[uids]
            ensures FirstResult(events + [e], x, uids).Some?
          {
            var i :| 0 <= i < |slots| && c.dispatched[uids][i] == x;
            assert slots'[i] in slots';
          }
        }
      }
    }
  }

  /** What an event leaves alone has the same first results. */
  lemma OthersKeep(c: Cluster, events: seq<Event>, e: Event, uids: Uid)
    requires HasFirst(c, events, uids) && Allowed(c, e)
    requires var c' := Step(c, e);
             && (uids in c'.dispatched <==> uids in c.dispatched)
             && (uids in c.dispatched ==> c'.dispatched[uids] == c.dispatched[uids])
             && (uids in c'.primary.results <==> uids in c.primary.results)
             && (uids in c.primary.results ==> c'.primary.results[uids] == c.primary.results[uids])
    requires !(e.PrimaryReceives? && e.toPrimary.CommandResult? && e.toPrimary.uids == uids)
    ensures HasFirst(Step(c, e), events + [e], uids)
  {
    hide Step;
    hide Allowed;
    hide FirstResult;
    forall w
      ensures FirstResult(events + [e], w, uids) == FirstResult(events, w, uids)
    {
      FirstResultStep(events, e, w, uids);
    }
  }

  lemma CommandKeeps(c: Cluster, events: seq<Event>, w: WorkerId, u: Uid, target: Target, uids: Uid)
    requires Keeps(c, events) && Allowed(c, PrimaryReceives(w, Command(u, target)))
    ensures var e := PrimaryReceives(w, Command(u, target)); HasFirst(Step(c, e), events + [e], uids)
  {
    hide IsGathering;
    hide IsAnswer;
    hide FirstResult;
    hide Delivers;
    hide AnswersValid;
    hide PromisesValid;
    var e := PrimaryReceives(w, Command(u, target));
    assert HasFirst(c, events, uids);
    CommandArrives(c, w, u, target);
    NotStarted(c, w, u, target);
    hide Step;
    if uids == u && target == AllWorkers {
      forall x
        ensures FirstResult(events + [e], x, uids) == None
      {
        FirstResultStep(events, e, x, uids);
      }
    } else {
      OthersKeep(c, events, e, uids);
    }
  }

  lemma ResultKeeps(c: Cluster, events: seq<Event>, w: WorkerId, u: Uid, payload: Marshalled, uids: Uid)
    requires Keeps(c, events) && Allowed(c, PrimaryReceives(w, CommandResult(u, payload)))
    ensures var e := PrimaryReceives(w, CommandResult(u, payload)); HasFirst(Step(c, e), events + [e], uids)
  {
    hide IsGathering;
    hide IsAnswer;
    hide Delivers;
    hide FirstResult;
    if uids == u {
      ResultArrives(c, events, w, uids, payload);
    } else {
      hide Valid;
      assert HasFirst(c, events, uids);
      OthersKeep(c, events, PrimaryReceives(w, CommandResult(u, payload)), uids);
    }
  }

  lemma StepKeeps(c: Cluster, events: seq<Event>, e: Event)
    requires Keeps(c, events) && Allowed(c, e)
    ensures Keeps(Step(c, e), events + [e])
  {
    hide Valid;
    hide Delivers;
    hide HasFirst;
    hide OnCommand;
    hide OnCommandResult;
    StepIsSafe(c, e);
    StepDelivers(c, e);
    forall uids
      ensures HasFirst(Step(c, e), events + [e], uids)
    {
      match e {
        case PrimaryReceives(w, msg) =>
          match msg {
            case Command(u, target) => CommandKeeps(c, events, w, u, target, uids);
            case CommandResult(u, payload) => ResultKeeps(c, events, w, u, payload, uids);
          }
        case _ =>
          assert HasFirst(c, events, uids);
          OthersKeep(c, events, e, uids);
      }
    }
  }

  lemma StartKeeps()
    ensures Keeps(START, [])
  {
    StartIsSafe();
  }

  lemma {:induction false} RunsKeep(states: seq<Cluster>, events: seq<Event>, n: nat)
    requires IsRun(states, events) && n <= |events|
    ensures Keeps(states[n], events[..n])
    decreases n
  {
    hide Step;
    hide Allowed;
    hide Keeps;
    if n == 0 {
      StartKeeps();
      assert events[..0] == [];
    } else {
      RunsKeep(states, events, n - 1);
      RunStep(states, events, n - 1);
      StepKeeps(states[n-1], events[..n-1], events[n-1]);
      assert events[..n-1] + [events[n-1]] == events[..n];
    }
  }

  lemma RunStep(states: seq<Cluster>, events: seq<Event>, j: nat)
    requires IsRun(states, events) && j < |events|
    ensures Allowed(states[j], events[j]) && states[j+1] == Step(states[j], events[j])
  {
    hide Step;
  }

  /** In every run, the workers that were there when a command was dispatched and no others
      receive it, once each; and who has received it is among those that give results. */
  lemma BroadcastIsDelivered(states: seq<Cluster>, events: seq<Event>, w: WorkerId, uids: Uid)
    requires IsRun(states, events)
    ensures var c := states[|events|];
            && c.toWorkers[(w, Execute(uids))] + One((w, uids) in c.received) == One(IsDue(c, w, uids))
            && forall payload :: (w, uids, payload) in c.given ==> (w, uids) in c.received
  {
    hide IsRun;
    hide Valid;
    RunsAreLong(states, events);
    RunsKeep(states, events, |events|);
  }

  lemma RunsAreLong(states: seq<Cluster>, events: seq<Event>)
    requires IsRun(states, events)
    ensures |states| == |events| + 1 && events[..|events|] == events
  {
  }

  /** A command is in progress exactly while a worker that was there has given no result, and
      the slots hold the first results that have come. */
  lemma InProgressExactly(states: seq<Cluster>, events: seq<Event>, uids: Uid)
    requires IsRun(states, events) && uids in states[|events|].dispatched && states[|events|].dispatched[uids] != []
    ensures var c := states[|events|];
            && (uids in c.primary.results <==>
                  exists w :: w in c.dispatched[uids] && FirstResult(events, w, uids) == None)
            && (uids in c.primary.results ==>
                  && |c.primary.results[uids]| == |c.dispatched[uids]|
                  && forall i :: 0 <= i < |c.dispatched[uids]| ==>
                       c.primary.results[uids][i]
                       == Slot(c.dispatched[uids][i], FirstResult(events, c.dispatched[uids][i], uids)))
  {
    hide IsRun;
    hide FirstResult;
    hide IsAnswer;
    hide Delivers;
    RunsAreLong(states, events);
    RunsKeep(states, events, |events|);
    var c := states[|events|];
    assert HasFirst(c, events, uids);
    if uids in c.primary.results {
      SlotsAreDistinct(c, uids);
      var slots := c.primary.results[uids];
      assert IsGathering(c, uids, slots);
      var s :| s in slots && s.result == None;
      var i :| 0 <= i < |slots| && slots[i] == s;
      assert c.dispatched[uids][i] in c.dispatched[uids];
    }
  }

  // ---------------------------------------------------------------------------
  // Completion

  /** Event `i` completes a command: its last result arrives. */
  ghost predicate Completes(states: seq<Cluster>, events: seq<Event>, i: nat, uids: Uid)
    requires |states| == |events| + 1
  {
    i < |events| && uids in states[i].primary.results && uids !in states[i+1].primary.results
  }

  lemma {:induction false} SomeEventCompletes(states: seq<Cluster>, events: seq<Event>, n: nat, uids: Uid)
    requires IsRun(states, events) && n <= |events|
    requires uids in states[n].dispatched && uids !in states[n].primary.results
    ensures exists i: nat :: i < n && Completes(states, events, i, uids)
    decreases n
  {
    hide Step;
    hide Allowed;
    if n > 0 {
      var c, e := states[n-1], events[n-1];
      RunStep(states, events, n - 1);
      RunsKeep(states, events, n - 1);
      if uids in c.primary.results {
        assert Completes(states, events, n - 1, uids);
      } else {
        if uids !in c.dispatched {
          StartsInProgress(c, e, uids);
        }
        SomeEventCompletes(states, events, n - 1, uids);
        var i: nat :| i < n - 1 && Completes(states, events, i, uids);
      }
    }
  }

  lemma StartsInProgress(c: Cluster, e: Event, uids: Uid)
    requires Valid(c) && Allowed(c, e) && uids !in c.dispatched && uids in Step(c, e).dispatched
    ensures uids in Step(c, e).primary.results
  {
    hide IsGathering;
    hide IsAnswer;
    hide Valid;
    hide OnCommandResult;
  }

  /** The results are the first ones of the workers, in their order. */
  ghost predicate AreFirst(events: seq<Event>, workers: seq<WorkerId>, uids: Uid, results: seq<Marshalled>) {
    && |results| == |workers|
    && forall i :: 0 <= i < |workers| ==> FirstResult(events, workers[i], uids) == Some(results[i])
  }

  /** The primary sends back the first results, if the worker that waits is still there. */
  ghost predicate Answers(c: Cluster, c': Cluster, w: WorkerId, uids: Uid, results: seq<Marshalled>) {
    c'.toWorkers == c.toWorkers + (if w in c.workers then multiset{(w, CommandResults(uids, results))} else multiset{})
  }

  lemma CompletionAnswers(c: Cluster, events: seq<Event>, e: Event, uids: Uid) returns (results: seq<Marshalled>)
    requires Keeps(c, events) && Allowed(c, e)
    requires uids in c.primary.results && uids !in Step(c, e).primary.results
    ensures uids in c.dispatched && uids in c.commands
    ensures AreFirst(events + [e], c.dispatched[uids], uids, results)
    ensures Answers(c, Step(c, e), c.commands[uids].from, uids, results)
  {
    hide IsGathering;
    hide IsAnswer;
    hide AnswersValid;
    hide PromisesValid;
    hide CommandsValid;
    hide FirstResult;
    hide OnCommand;
    assert HasFirst(c, events, uids);
    SlotsAreDistinct(c, uids);
    GatheredIsSent(c, uids);
    assert e.PrimaryReceives? && e.toPrimary.CommandResult? && e.toPrimary.uids == uids by {
      OnlyItsResults(c, e, uids);
    }
    var w, payload, slots := e.worker, e.toPrimary.payload, c.primary.results[uids];
    assert IsAwaited(c.primary, w, uids);
    var slots' := WithResult(c.primary, w, uids, payload);
    results := Results(slots');
    forall i | 0 <= i < |slots|
      ensures FirstResult(events + [e], c.dispatched[uids][i], uids) == Some(results[i])
    {
      FirstResultStep(events, e, slots[i].worker, uids);
      SlotIsUnique(slots, i);
    }
  }

  lemma OthersGoOn(g: Gathering, w: WorkerId, u: Uid, target: Target, payload: Marshalled, workers: seq<WorkerId>)
    ensures forall uids :: uids in g.results ==> uids in OnCommand(g, w, target, u, workers).0.results
    ensures forall uids :: uids in g.results && uids != u ==>
              uids in OnCommandResult(g, w, u, payload, workers).0.results
  {
    hide AllResponded;
    hide Results;
    hide WithResult;
  }

  /** Only a result of a command completes it. */
  lemma OnlyItsResults(c: Cluster, e: Event, uids: Uid)
    requires Allowed(c, e) && uids in c.primary.results && uids !in Step(c, e).primary.results
    ensures e.PrimaryReceives? && e.toPrimary.CommandResult? && e.toPrimary.uids == uids
  {
    hide OnCommand;
    hide OnCommandResult;
    if e.PrimaryReceives? {
      match e.toPrimary {
        case Command(u, target) => OthersGoOn(c.primary, e.worker, u, target, Marshalled(None, 0), c.workers);
        case CommandResult(u, payload) => OthersGoOn(c.primary, e.worker, u, ThePrimary, payload, c.workers);
      }
    }
  }

  lemma {:induction false} FirstResultStays(events: seq<Event>, n: nat, m: nat, w: WorkerId, uids: Uid)
    requires n <= m <= |events| && FirstResult(events[..n], w, uids).Some?
    ensures FirstResult(events[..m], w, uids) == FirstResult(events[..n], w, uids)
    decreases m
  {
    if n < m {
      FirstResultStays(events, n, m - 1, w, uids);
      assert events[..m] == events[..m-1] + [events[m-1]];
      FirstResultStep(events[..m-1], events[m-1], w, uids);
    }
  }

  lemma {:induction false} HistoryGrows(states: seq<Cluster>, events: seq<Event>, n: nat, m: nat)
    requires IsRun(states, events) && n <= m <= |events|
    ensures Extends(states[m], states[n])
    decreases m
  {
    hide Step;
    hide Allowed;
    if n < m {
      HistoryGrows(states, events, n, m - 1);
      RunStep(states, events, m - 1);
      RunsKeep(states, events, m - 1);
      StepIsSafe(states[m-1], events[m-1]);
    }
  }

  /**
    From the broadcast to its answer: in every run, once the primary has received a result of
    each worker that was there when a command was dispatched, it has sent the first result of
    each, in their order, to the worker that waits for them, if it was there at that moment.
   */
  lemma BroadcastIsAnswered(states: seq<Cluster>, events: seq<Event>, uids: Uid)
    returns (i: nat, results: seq<Marshalled>)
    requires IsRun(states, events) && uids in states[|events|].dispatched && states[|events|].dispatched[uids] != []
    requires forall w :: w in states[|events|].dispatched[uids] ==> FirstResult(events, w, uids).Some?
    ensures i < |events| && Completes(states, events, i, uids)
    ensures var c := states[|events|];
            && uids !in c.primary.results && uids !in c.primary.workerIds && uids in c.commands
            && AreFirst(events, c.dispatched[uids], uids, results)
            && Answers(states[i], states[i+1], c.commands[uids].from, uids, results)
  {
    hide Step;
    hide Allowed;
    hide FirstResult;
    hide Valid;
    hide Delivers;
    var n := |events|;
    InProgressExactly(states, events, uids);
    SomeEventCompletes(states, events, n, uids);
    i :| i < n && Completes(states, events, i, uids);
    RunsKeep(states, events, i);
    RunStep(states, events, i);
    results := CompletionAnswers(states[i], events[..i], events[i], uids);
    HistoryGrows(states, events, i, n);
    assert events[..i] + [events[i]] == events[..i+1];
    forall k | 0 <= k < |results|
      ensures FirstResult(events, states[n].dispatched[uids][k], uids) == Some(results[k])
    {
      FirstResultStays(events, i + 1, n, states[n].dispatched[uids][k], uids);
      assert events[..n] == events;
    }
    RunsKeep(states, events, n);
    SameKeys(states[n]);
  }

  lemma SameKeys(c: Cluster)
    requires Keeps(c, []) || Valid(c)
    ensures c.primary.workerIds.Keys == c.primary.results.Keys
  {
  }
}
