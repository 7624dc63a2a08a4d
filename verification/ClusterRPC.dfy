/**
  Remote procedure calls between cluster workers, by way of the primary: a command sent by
  a worker is forwarded to every worker there is, and the results are gathered and sent
  back.  Messages may be delivered in any order, workers may come and go, handlers may
  answer more than once, and commands may time out.
 */
module ClusterRPC {
  import opened Keys

  type Uid = string
  type WorkerId = nat

  /** A result as it travels: an error message, if any, and a value. */
  datatype Marshalled = Marshalled(error: Option<string>, value: int)

  /** Which workers are to execute a command. */
  datatype Target = AllWorkers | ThePrimary | Unsupported

  datatype ToPrimary =
    | Command(uids: Uid, target: Target)
    | CommandResult(uids: Uid, payload: Marshalled)

  datatype ToWorker =
    | Execute(uids: Uid)
    | CommandResults(uids: Uid, results: seq<Marshalled>)
    | CommandError(uids: Uid, error: string)

  // ---------------------------------------------------------------------------
  // The primary

  /** The result of one worker, once it has come. */
  datatype Slot = Slot(worker: WorkerId, result: Option<Marshalled>)

  /** Who waits for a command in progress, and the results so far. */
  datatype Gathering = Gathering(workerIds: map<Uid, WorkerId>, results: map<Uid, seq<Slot>>)

  function EmptySlots(workers: seq<WorkerId>): (r: seq<Slot>)
    ensures |r| == |workers| && forall i :: 0 <= i < |r| ==> r[i] == Slot(workers[i], None)
  {
    if workers == [] then [] else [Slot(workers[0], None)] + EmptySlots(workers[1..])
  }

  /** Position of the slot of a worker. */
  function SlotOf(slots: seq<Slot>, worker: WorkerId): (r: Option<nat>)
    ensures match r
            case Some(n) => n < |slots| && slots[n].worker == worker
            case None => forall s :: s in slots ==> s.worker != worker
  {
    if slots == [] then None
    else if slots[0].worker == worker then Some(0)
    else
      match SlotOf(slots[1..], worker)
      case None => None
      case Some(n) => Some(n + 1)
  }

  predicate AllResponded(slots: seq<Slot>) {
    forall s :: s in slots ==> s.result.Some?
  }

  function Results(slots: seq<Slot>): (r: seq<Marshalled>)
    requires AllResponded(slots)
    ensures |r| == |slots| && forall i :: 0 <= i < |r| ==> slots[i].result == Some(r[i])
  {
    if slots == [] then [] else [slots[0].result.value] + Results(slots[1..])
  }

  /** What the primary does with a command: its new state, and to whom it forwards it. */
  function OnCommand(g: Gathering, from: WorkerId, target: Target, uids: Uid, workers: seq<WorkerId>):
    (Gathering, seq<(WorkerId, ToWorker)>)
  {
    match target
    case AllWorkers =>
      if uids in g.workerIds then (g, [])
      else (Gathering(g.workerIds[uids := from], g.results[uids := EmptySlots(workers)]), Forwards(workers, uids))
    case ThePrimary => (g, [])
    case Unsupported => (g, [(from, CommandError(uids, "NotImplemented"))])
  }

  function Forwards(workers: seq<WorkerId>, uids: Uid): (r: seq<(WorkerId, ToWorker)>)
    ensures forall m :: m in r ==> m.1 == Execute(uids)
    ensures |r| == |workers| && forall i :: 0 <= i < |r| ==> r[i] == (workers[i], Execute(uids))
  {
    if workers == [] then [] else [(workers[0], Execute(uids))] + Forwards(workers[1..], uids)
  }

  /** Whether a result is the first one that its worker gives to a command in progress. */
  predicate IsAwaited(g: Gathering, from: WorkerId, uids: Uid) {
    && uids in g.results
    && SlotOf(g.results[uids], from).Some?
    && g.results[uids][SlotOf(g.results[uids], from).value].result == None
  }

  /** The results of a command with that of one more worker. */
  function WithResult(g: Gathering, from: WorkerId, uids: Uid, payload: Marshalled): seq<Slot>
    requires IsAwaited(g, from, uids)
  {
    g.results[uids][SlotOf(g.results[uids], from).value := Slot(from, Some(payload))]
  }

  /** What the primary does with the result of a worker. */
  function OnCommandResult(g: Gathering, from: WorkerId, uids: Uid, payload: Marshalled, workers: seq<WorkerId>):
    (Gathering, seq<(WorkerId, ToWorker)>)
  {
    if !IsAwaited(g, from, uids) then (g, [])
    else
      var slots := WithResult(g, from, uids, payload);
      if !AllResponded(slots) then (g.(results := g.results[uids := slots]), [])
      else
        (Gathering(g.workerIds - {uids}, g.results - {uids}),
         if uids in g.workerIds && g.workerIds[uids] in workers
         then [(g.workerIds[uids], CommandResults(uids, Results(slots)))] else [])
  }

  class Primary {
    var uidsToWorkerId: map<Uid, WorkerId>
    var uidsToCommandResults: map<Uid, seq<Slot>>

    function State(): Gathering
      reads this
    {
      Gathering(uidsToWorkerId, uidsToCommandResults)
    }

    /** The two maps always have the same keys. */
    ghost predicate Valid()
      reads this
    {
      uidsToWorkerId.Keys == uidsToCommandResults.Keys
    }

    constructor ()
      ensures Valid() && State() == Gathering(map[], map[])
    {
      uidsToWorkerId, uidsToCommandResults := map[], map[];
    }

    /** Handles a command, given the workers there are now. */
    method HandleCommandMessage(from: WorkerId, target: Target, uids: Uid, workers: seq<WorkerId>)
      returns (sent: seq<(WorkerId, ToWorker)>)
      requires Valid()
      modifies this
      ensures Valid()
      ensures (State(), sent) == OnCommand(old(State()), from, target, uids, workers)
    {
      hide EmptySlots;
      sent := [];
      match target {
        case AllWorkers =>
          if uids in uidsToWorkerId {
            return;
          }
          uidsToWorkerId := uidsToWorkerId[uids := from];
          uidsToCommandResults := uidsToCommandResults[uids := EmptySlots(workers)];
          for i := 0 to |workers|
            invariant sent == Forwards(workers, uids)[..i]
          {
            sent := sent + [(workers[i], Execute(uids))];
          }
          assert Forwards(workers, uids)[..|workers|] == Forwards(workers, uids);
        case ThePrimary =>
          // a handler of the primary answers later
        case Unsupported =>
          sent := [(from, CommandError(uids, "NotImplemented"))];
      }
    }

    /** Handles the result of a worker; the last one completes the command. */
    method HandleCommandResultMessage(from: WorkerId, uids: Uid, payload: Marshalled, workers: seq<WorkerId>)
      returns (sent: seq<(WorkerId, ToWorker)>)
      requires Valid()
      modifies this
      ensures Valid()
      ensures (State(), sent) == OnCommandResult(old(State()), from, uids, payload, workers)
    {
      sent := [];
      if uids !in uidsToCommandResults {
        return;
      }
      var slot := SlotOf(uidsToCommandResults[uids], from);
      if slot == None || uidsToCommandResults[uids][slot.value].result != None {
        return;
      }
      var commandResults := uidsToCommandResults[uids][slot.value := Slot(from, Some(payload))];
      uidsToCommandResults := uidsToCommandResults[uids := commandResults];
      if AllResponded(commandResults) {
        var toWorkerId := uidsToWorkerId[uids];
        uidsToCommandResults := uidsToCommandResults - {uids};
        uidsToWorkerId := uidsToWorkerId - {uids};
        assert uidsToCommandResults == old(uidsToCommandResults) - {uids};
        if toWorkerId in workers {
          sent := [(toWorkerId, CommandResults(uids, Results(commandResults)))];
        }
      }
    }
  }

  // ---------------------------------------------------------------------------
  // A worker

  datatype Outcome = Resolved(results: seq<Marshalled>) | Rejected(error: string)

  datatype Settled = Settled(worker: WorkerId, uids: Uid, outcome: Outcome)

  /** What a message does to a promise. */
  function OutcomeOf(msg: ToWorker): Option<Outcome> {
    match msg
    case Execute(_) => None
    case CommandResults(_, results) => Some(Resolved(results))
    case CommandError(_, error) => Some(Rejected(error))
  }

  class Worker {
    const id: WorkerId
    /** The promises not yet settled, and whether they have a timer. */
    var uidsToCommandPromise: map<Uid, bool>
    var settled: seq<Settled>

    constructor (id: WorkerId)
      ensures this.id == id && uidsToCommandPromise == map[] && settled == []
    {
      this.id := id;
      uidsToCommandPromise := map[];
      settled := [];
    }

    /** Sends a command, unless one with the same uids is in progress. */
    method SendWorkerCommand(target: Target, uids: Uid, timeoutMs: nat) returns (sent: Option<ToPrimary>)
      modifies this`uidsToCommandPromise
      ensures sent == if uids in old(uidsToCommandPromise) then None else Some(Command(uids, target))
      ensures uidsToCommandPromise == if sent.Some? then old(uidsToCommandPromise)[uids := timeoutMs != 0]
                                      else old(uidsToCommandPromise)
    {
      if uids in uidsToCommandPromise {
        return None;
      }
      uidsToCommandPromise := uidsToCommandPromise[uids := timeoutMs != 0];
      return Some(Command(uids, target));
    }

    /** A promise is settled if it is not yet, and forgotten. */
    method Settle(uids: Uid, outcome: Outcome)
      modifies this
      ensures uidsToCommandPromise == old(uidsToCommandPromise) - {uids}
      ensures settled == if uids in old(uidsToCommandPromise) then old(settled) + [Settled(id, uids, outcome)]
                         else old(settled)
    {
      if uids in uidsToCommandPromise {
        uidsToCommandPromise := uidsToCommandPromise - {uids};
        settled := settled + [Settled(id, uids, outcome)];
      }
    }

    method HandleMessage(msg: ToWorker)
      modifies this
      ensures msg.Execute? ==> unchanged(this)
      ensures !msg.Execute? ==>
                && uidsToCommandPromise == old(uidsToCommandPromise) - {msg.uids}
                && settled == if msg.uids in old(uidsToCommandPromise)
                              then old(settled) + [Settled(id, msg.uids, OutcomeOf(msg).value)]
                              else old(settled)
    {
      match msg {
        case Execute(_) =>
          // a handler answers later
        case CommandResults(uids, results) => Settle(uids, Resolved(results));
        case CommandError(uids, error) => Settle(uids, Rejected(error));
      }
    }

    /** The timer of a promise fires; settling the promise has cleared it. */
    method OnTimeout(uids: Uid)
      requires uids in uidsToCommandPromise && uidsToCommandPromise[uids]
      modifies this
      ensures uidsToCommandPromise == old(uidsToCommandPromise) - {uids}
      ensures settled == old(settled) + [Settled(id, uids, Rejected("RequestTimeout"))]
    {
      Settle(uids, Rejected("RequestTimeout"));
    }
  }

  // ---------------------------------------------------------------------------
  // The whole cluster

  /** A command that was sent: by whom, and to whom. */
  datatype Sent = Sent(from: WorkerId, target: Target)

  /** The state of the cluster with the messages on their way; and its history: the commands
      sent, the workers present when they were dispatched, which workers have received them,
      and the results workers gave. */
  datatype Cluster = Cluster(
    primary: Gathering, workers: seq<WorkerId>, promises: set<(WorkerId, Uid)>, settled: seq<Settled>,
    toPrimary: multiset<(WorkerId, ToPrimary)>, toWorkers: multiset<(WorkerId, ToWorker)>,
    commands: map<Uid, Sent>, dispatched: map<Uid, seq<WorkerId>>, received: set<(WorkerId, Uid)>,
    given: set<(WorkerId, Uid, Marshalled)>)

  datatype Event =
    | Send(worker: WorkerId, target: Target, uids: Uid)
    | PrimaryReceives(worker: WorkerId, toPrimary: ToPrimary)
    | WorkerReceives(worker: WorkerId, toWorker: ToWorker)
    | WorkerReplies(worker: WorkerId, uids: Uid, payload: Marshalled)
    | PrimaryReplies(uids: Uid, payload: Marshalled)
    | TimesOut(worker: WorkerId, uids: Uid)
    | WorkersChange(workers: seq<WorkerId>)

  predicate IsDistinct(workers: seq<WorkerId>) {
    forall i, j :: 0 <= i < j < |workers| ==> workers[i] != workers[j]
  }

  /** Uids are never reused; messages are delivered once; handlers answer commands that have
      arrived, as often as they like. */
  predicate Allowed(c: Cluster, e: Event) {
    match e
    case Send(w, target, uids) => uids !in c.commands
    case PrimaryReceives(w, msg) => (w, msg) in c.toPrimary
    case WorkerReceives(w, msg) => (w, msg) in c.toWorkers
    case WorkerReplies(w, uids, payload) => (w, uids) in c.received
    case PrimaryReplies(uids, payload) =>
      && uids in c.commands && c.commands[uids].target == ThePrimary
      && (c.commands[uids].from, Command(uids, ThePrimary)) !in c.toPrimary
    case TimesOut(w, uids) => (w, uids) in c.promises
    case WorkersChange(workers) => IsDistinct(workers)
  }

  function SettleIn(c: Cluster, w: WorkerId, uids: Uid, outcome: Outcome): Cluster {
    if (w, uids) in c.promises
    then c.(promises := c.promises - {(w, uids)}, settled := c.settled + [Settled(w, uids, outcome)])
    else c
  }

  function Deliver(c: Cluster, r: (Gathering, seq<(WorkerId, ToWorker)>)): Cluster {
    c.(primary := r.0, toWorkers := c.toWorkers + multiset(r.1))
  }

  function Step(c: Cluster, e: Event): Cluster
    requires Allowed(c, e)
  {
    match e
    case Send(w, target, uids) =>
      c.(promises := c.promises + {(w, uids)}, commands := c.commands[uids := Sent(w, target)],
         toPrimary := c.toPrimary + multiset{(w, Command(uids, target))})
    case PrimaryReceives(w, msg) =>
      var c' := c.(toPrimary := c.toPrimary - multiset{(w, msg)});
      (match msg
       case Command(uids, target) =>
         var c'' := Deliver(c', OnCommand(c.primary, w, target, uids, c.workers));
         if IsDispatch(c, uids, target)
         then c''.(dispatched := c.dispatched[uids := c.workers])
         else c''
       case CommandResult(uids, payload) =>
         Deliver(c', OnCommandResult(c.primary, w, uids, payload, c.workers)))
    case WorkerReceives(w, msg) =>
      var c' := c.(toWorkers := c.toWorkers - multiset{(w, msg)});
      if OutcomeOf(msg).Some? then SettleIn(c', w, msg.uids, OutcomeOf(msg).value)
      else c'.(received := c.received + {(w, msg.uids)})
    case WorkerReplies(w, uids, payload) =>
      c.(toPrimary := c.toPrimary + multiset{(w, CommandResult(uids, payload))},
         given := c.given + {(w, uids, payload)})
    case PrimaryReplies(uids, payload) =>
      c.(toWorkers := c.toWorkers + multiset{(c.commands[uids].from, CommandResults(uids, [payload]))})
    case TimesOut(w, uids) => SettleIn(c, w, uids, Rejected("RequestTimeout"))
    case WorkersChange(workers) => c.(workers := workers)
  }

  const START := Cluster(Gathering(map[], map[]), [], {}, [], multiset{}, multiset{}, map[], map[], {}, {})

  // ---------------------------------------------------------------------------
  // Safety

  /** One result for each worker that was present at dispatch, and given by that worker. */
  ghost predicate IsComplete(c: Cluster, uids: Uid, results: seq<Marshalled>) {
    && uids in c.dispatched && IsDistinct(c.dispatched[uids])
    && |results| == |c.dispatched[uids]|
    && forall i :: 0 <= i < |results| ==> (c.dispatched[uids][i], uids, results[i]) in c.given
  }

  /** The answer to a command is what it should be. */
  ghost predicate IsAnswer(c: Cluster, w: WorkerId, uids: Uid, outcome: Outcome) {
    && uids in c.commands && c.commands[uids].from == w
    && (outcome.Resolved? && c.commands[uids].target == AllWorkers ==> IsComplete(c, uids, outcome.results))
  }

  ghost predicate IsGathering(c: Cluster, uids: Uid, slots: seq<Slot>) {
    && uids in c.commands && c.commands[uids].target == AllWorkers
    && uids in c.dispatched && IsDistinct(c.dispatched[uids])
    && |slots| == |c.dispatched[uids]|
    && (forall i :: 0 <= i < |slots| ==>
          && slots[i].worker == c.dispatched[uids][i]
          && (slots[i].result.Some? ==> (slots[i].worker, uids, slots[i].result.value) in c.given))
    && (slots != [] ==> !AllResponded(slots))
  }

  ghost predicate PrimaryValid(c: Cluster) {
    && c.primary.workerIds.Keys == c.primary.results.Keys
    && IsDistinct(c.workers)
    && (forall uids :: uids in c.primary.results ==>
          && IsGathering(c, uids, c.primary.results[uids])
          && c.primary.workerIds[uids] == c.commands[uids].from)
  }

  /** A command that has not arrived yet was sent once and has not been dispatched. */
  ghost predicate CommandsValid(c: Cluster) {
    && (forall w, uids, target :: (w, Command(uids, target)) in c.toPrimary ==>
          && c.toPrimary[(w, Command(uids, target))] == 1
          && uids in c.commands && c.commands[uids] == Sent(w, target)
          && uids !in c.dispatched)
    && (forall w, uids, payload :: (w, CommandResult(uids, payload)) in c.toPrimary ==> (w, uids, payload) in c.given)
    && (forall uids :: uids in c.dispatched ==> uids in c.commands)
  }

  ghost predicate AnswersValid(c: Cluster) {
    forall w, msg :: (w, msg) in c.toWorkers && OutcomeOf(msg).Some? ==>
      IsAnswer(c, w, msg.uids, OutcomeOf(msg).value)
  }

  ghost predicate PromisesValid(c: Cluster) {
    && (forall p :: p in c.promises ==> p.1 in c.commands && c.commands[p.1].from == p.0)
    && (forall s :: s in c.settled ==>
          IsAnswer(c, s.worker, s.uids, s.outcome) && (s.worker, s.uids) !in c.promises)
    && (forall i, j :: 0 <= i < j < |c.settled| ==> c.settled[i].uids != c.settled[j].uids)
  }

  ghost predicate Valid(c: Cluster) {
    PrimaryValid(c) && CommandsValid(c) && AnswersValid(c) && PromisesValid(c)
  }

  /** History only grows. */
  ghost predicate Extends(c': Cluster, c: Cluster) {
    && (forall uids :: uids in c.commands ==> uids in c'.commands && c'.commands[uids] == c.commands[uids])
    && (forall uids :: uids in c.dispatched ==> uids in c'.dispatched && c'.dispatched[uids] == c.dispatched[uids])
    && (forall x :: x in c.given ==> x in c'.given)
  }

  lemma AnswerStays(c: Cluster, c': Cluster, w: WorkerId, uids: Uid, outcome: Outcome)
    requires Extends(c', c) && IsAnswer(c, w, uids, outcome)
    ensures IsAnswer(c', w, uids, outcome)
  {
  }

  lemma GatheringStays(c: Cluster, c': Cluster, uids: Uid, slots: seq<Slot>)
    requires Extends(c', c) && IsGathering(c, uids, slots)
    ensures IsGathering(c', uids, slots)
  {
    hide AllResponded;
  }

  lemma SendIsSafe(c: Cluster, w: WorkerId, target: Target, uids: Uid)
    requires Valid(c) && Allowed(c, Send(w, target, uids))
    ensures var c' := Step(c, Send(w, target, uids)); Valid(c') && Extends(c', c)
  {
    hide IsGathering;
    hide IsAnswer;
    var c' := Step(c, Send(w, target, uids));
    assert Extends(c', c);
    Unaffected(c, c');
    assert (w, Command(uids, target)) !in c.toPrimary;
    forall s | s in c.settled
      ensures s.uids != uids
    {
      AnswerIsToSender(c, s.worker, s.uids, s.outcome);
    }
  }

  /** What an event leaves alone stays right. */
  lemma Unaffected(c: Cluster, c': Cluster)
    requires Valid(c) && Extends(c', c)
    ensures c'.primary == c.primary && IsDistinct(c'.workers) ==> PrimaryValid(c')
    ensures (forall m :: m in c'.toWorkers ==> m in c.toWorkers) ==> AnswersValid(c')
    ensures c'.promises == c.promises && c'.settled == c.settled ==> PromisesValid(c')
    ensures forall s :: s in c.settled ==> IsAnswer(c', s.worker, s.uids, s.outcome)
  {
    hide IsGathering;
    hide IsAnswer;
    forall uids | uids in c.primary.results
      ensures IsGathering(c', uids, c.primary.results[uids])
      ensures uids in c'.commands && c.primary.workerIds[uids] == c'.commands[uids].from
    {
      GatheringStays(c, c', uids, c.primary.results[uids]);
      GatheredIsSent(c, uids);
    }
    forall w, msg: ToWorker | (w, msg) in c.toWorkers && OutcomeOf(msg).Some?
      ensures IsAnswer(c', w, msg.uids, OutcomeOf(msg).value)
    {
      AnswerStays(c, c', w, msg.uids, OutcomeOf(msg).value);
    }
    forall s | s in c.settled
      ensures IsAnswer(c', s.worker, s.uids, s.outcome)
    {
      AnswerStays(c, c', s.worker, s.uids, s.outcome);
    }
  }

  lemma GatheredIsSent(c: Cluster, uids: Uid)
    requires PrimaryValid(c) && uids in c.primary.results
    ensures uids in c.commands && uids in c.primary.workerIds
    ensures c.primary.workerIds[uids] == c.commands[uids].from
  {
  }

  lemma RepliesAreSafe(c: Cluster, e: Event)
    requires Valid(c) && Allowed(c, e) && (e.WorkerReplies? || e.PrimaryReplies? || e.WorkersChange?)
    ensures Valid(Step(c, e)) && Extends(Step(c, e), c)
  {
    hide IsGathering;
    var c' := Step(c, e);
    assert Extends(c', c);
    Unaffected(c, c');
    if e.PrimaryReplies? {
      forall w, msg: ToWorker | (w, msg) in c'.toWorkers && OutcomeOf(msg).Some?
        ensures IsAnswer(c', w, msg.uids, OutcomeOf(msg).value)
      {
        if (w, msg) in c.toWorkers {
          AnswerStays(c, c', w, msg.uids, OutcomeOf(msg).value);
        }
      }
    }
  }

  lemma SettlingIsSafe(c: Cluster, c': Cluster, w: WorkerId, uids: Uid, outcome: Outcome)
    requires Valid(c) && IsAnswer(c, w, uids, outcome)
    requires c' == SettleIn(c.(toWorkers := c'.toWorkers), w, uids, outcome) && c'.toWorkers <= c.toWorkers
    ensures Valid(c') && Extends(c', c)
  {
    hide IsGathering;
    hide IsAnswer;
    assert Extends(c', c);
    Unaffected(c, c');
    AnswerStays(c, c', w, uids, outcome);
    AnswerIsToSender(c, w, uids, outcome);
    forall s | s in c.settled
      ensures (w, uids) in c.promises ==> s.uids != uids
    {
      AnswerIsToSender(c, s.worker, s.uids, s.outcome);
    }
  }

  lemma AnswerIsToSender(c: Cluster, w: WorkerId, uids: Uid, outcome: Outcome)
    requires IsAnswer(c, w, uids, outcome)
    ensures uids in c.commands && c.commands[uids].from == w
  {
  }

  lemma ReceiptIsSafe(c: Cluster, w: WorkerId, msg: ToWorker)
    requires Valid(c) && Allowed(c, WorkerReceives(w, msg))
    ensures var c' := Step(c, WorkerReceives(w, msg)); Valid(c') && Extends(c', c)
  {
    hide IsGathering;
    hide IsAnswer;
    var c' := Step(c, WorkerReceives(w, msg));
    if OutcomeOf(msg).Some? {
      SettlingIsSafe(c, c', w, msg.uids, OutcomeOf(msg).value);
    } else {
      assert Extends(c', c);
      Unaffected(c, c');
    }
  }

  lemma TimeoutIsSafe(c: Cluster, w: WorkerId, uids: Uid)
    requires Valid(c) && Allowed(c, TimesOut(w, uids))
    ensures var c' := Step(c, TimesOut(w, uids)); Valid(c') && Extends(c', c)
  {
    hide IsGathering;
    SettlingIsSafe(c, Step(c, TimesOut(w, uids)), w, uids, Rejected("RequestTimeout"));
  }

  /** On a command the primary sends no answer but an error. */
  lemma SentOnCommand(g: Gathering, w: WorkerId, target: Target, uids: Uid, workers: seq<WorkerId>)
    ensures forall m :: m in OnCommand(g, w, target, uids, workers).1 && OutcomeOf(m.1).Some? ==>
              m == (w, CommandError(uids, "NotImplemented"))
  {
  }

  predicate IsDispatch(c: Cluster, uids: Uid, target: Target) {
    target == AllWorkers && uids !in c.primary.workerIds
  }

  lemma CommandIsNew(c: Cluster, w: WorkerId, uids: Uid, target: Target)
    requires CommandsValid(c) && (w, Command(uids, target)) in c.toPrimary
    ensures uids in c.commands && c.commands[uids] == Sent(w, target) && uids !in c.dispatched
  {
  }

  /** What the arrival of a command changes. */
  lemma CommandArrives(c: Cluster, w: WorkerId, uids: Uid, target: Target)
    requires Valid(c) && Allowed(c, PrimaryReceives(w, Command(uids, target)))
    ensures var c', r := Step(c, PrimaryReceives(w, Command(uids, target))),
                         OnCommand(c.primary, w, target, uids, c.workers);
            && uids in c.commands && c.commands[uids] == Sent(w, target) && uids !in c.dispatched
            && c'.toPrimary == c.toPrimary - multiset{(w, Command(uids, target))}
            && c'.toWorkers == c.toWorkers + multiset(r.1)
            && c'.workers == c.workers && c'.promises == c.promises && c'.settled == c.settled
            && c'.commands == c.commands && c'.given == c.given && c'.received == c.received && Extends(c', c)
            && (IsDispatch(c, uids, target) ==>
                  && c'.dispatched == c.dispatched[uids := c.workers]
                  && c'.primary == Gathering(c.primary.workerIds[uids := w],
                                             c.primary.results[uids := EmptySlots(c.workers)]))
            && (!IsDispatch(c, uids, target) ==> c'.dispatched == c.dispatched && c'.primary == c.primary)
  {
    hide IsGathering;
    hide IsAnswer;
    hide AnswersValid;
    hide PromisesValid;
    hide PrimaryValid;
    hide CommandsValid;
    CommandIsNew(c, w, uids, target);
  }

  lemma DispatchIsSafe(c: Cluster, w: WorkerId, uids: Uid, target: Target)
    requires Valid(c) && Allowed(c, PrimaryReceives(w, Command(uids, target)))
    ensures var c' := Step(c, PrimaryReceives(w, Command(uids, target))); Valid(c') && Extends(c', c)
  {
    hide IsGathering;
    hide IsAnswer;
    hide AnswersValid;
    hide PromisesValid;
    hide CommandsValid;
    hide Extends;
    CommandArrives(c, w, uids, target);
    var c' := Step(c, PrimaryReceives(w, Command(uids, target)));
    hide PrimaryValid;
    var r := OnCommand(c.primary, w, target, uids, c.workers);
    SentOnCommand(c.primary, w, target, uids, c.workers);
    hide Step;
    hide OnCommand;
    CommandTaken(c, c', w, uids, target);
    Unaffected(c, c');
    DistinctWorkers(c);
    if IsDispatch(c, uids, target) {
      StartGathering(c, c', w, uids);
    }
    ErrorIsAnswer(c', w, uids, "NotImplemented");
    NewAnswers(c, c', r.1);
  }

  lemma DistinctWorkers(c: Cluster)
    requires PrimaryValid(c)
    ensures IsDistinct(c.workers)
  {
  }

  /** A command that has arrived does not arrive again. */
  lemma CommandTaken(c: Cluster, c': Cluster, w: WorkerId, uids: Uid, target: Target)
    requires CommandsValid(c) && (w, Command(uids, target)) in c.toPrimary
    requires c'.toPrimary == c.toPrimary - multiset{(w, Command(uids, target))}
    requires c'.commands == c.commands && c'.given == c.given
    requires c'.dispatched == c.dispatched || c'.dispatched == c.dispatched[uids := c.workers]
    ensures CommandsValid(c')
  {
    forall x, u, t | (x, Command(u, t)) in c'.toPrimary
      ensures c'.toPrimary[(x, Command(u, t))] == 1
      ensures u in c'.commands && c'.commands[u] == Sent(x, t) && u !in c'.dispatched
    {
      assert (x, Command(u, t)) in c.toPrimary;
    }
    forall x, u, payload | (x, CommandResult(u, payload)) in c'.toPrimary
      ensures (x, u, payload) in c'.given
    {
      assert (x, CommandResult(u, payload)) in c.toPrimary;
    }
  }

  lemma StartGathering(c: Cluster, c': Cluster, w: WorkerId, uids: Uid)
    requires Valid(c) && Extends(c', c) && c'.workers == c.workers
    requires c'.primary == Gathering(c.primary.workerIds[uids := w], c.primary.results[uids := EmptySlots(c.workers)])
    requires uids in c'.commands && c'.commands[uids] == Sent(w, AllWorkers)
    requires uids in c'.dispatched && c'.dispatched[uids] == c.workers
    ensures PrimaryValid(c')
  {
    hide IsGathering;
    hide IsAnswer;
    hide CommandsValid;
    hide PromisesValid;
    hide AnswersValid;
    NewGathering(c', uids, c.workers);
    GatheredElsewhere(c, c', uids);
  }

  lemma NewAnswers(c: Cluster, c': Cluster, sent: seq<(WorkerId, ToWorker)>)
    requires AnswersValid(c) && Extends(c', c) && c'.toWorkers == c.toWorkers + multiset(sent)
    requires forall m :: m in sent && OutcomeOf(m.1).Some? ==>
               IsAnswer(c', m.0, m.1.uids, OutcomeOf(m.1).value)
    ensures AnswersValid(c')
  {
    hide IsAnswer;
    hide Extends;
    forall x, msg: ToWorker | (x, msg) in c'.toWorkers && OutcomeOf(msg).Some?
      ensures IsAnswer(c', x, msg.uids, OutcomeOf(msg).value)
    {
      if (x, msg) in c.toWorkers {
        AnswerStays(c, c', x, msg.uids, OutcomeOf(msg).value);
      } else {
        assert (x, msg) in sent;
      }
    }
  }

  /** The other commands in progress stay as they are. */
  lemma GatheredElsewhere(c: Cluster, c': Cluster, uids: Uid)
    requires Valid(c) && Extends(c', c) && c'.primary.workerIds.Keys == c'.primary.results.Keys
    requires forall u :: u in c'.primary.results && u != uids ==>
               && u in c.primary.results && c'.primary.results[u] == c.primary.results[u]
               && c'.primary.workerIds[u] == c.primary.workerIds[u]
    ensures forall u :: u in c'.primary.results && u != uids ==>
              && IsGathering(c', u, c'.primary.results[u])
              && u in c'.commands && u in c'.primary.workerIds
              && c'.primary.workerIds[u] == c'.commands[u].from
  {
    hide IsGathering;
    hide IsAnswer;
    forall u | u in c'.primary.results && u != uids
      ensures IsGathering(c', u, c'.primary.results[u]) && u in c'.commands
      ensures c'.primary.workerIds[u] == c'.commands[u].from
    {
      GatheringStays(c, c', u, c.primary.results[u]);
      GatheredIsSent(c, u);
    }
  }

  lemma ErrorIsAnswer(c: Cluster, w: WorkerId, uids: Uid, error: string)
    requires uids in c.commands && c.commands[uids].from == w
    ensures IsAnswer(c, w, uids, Rejected(error))
  {
  }

  lemma NewGathering(c: Cluster, uids: Uid, workers: seq<WorkerId>)
    requires uids in c.commands && c.commands[uids].target == AllWorkers
    requires uids in c.dispatched && c.dispatched[uids] == workers && IsDistinct(workers)
    ensures IsGathering(c, uids, EmptySlots(workers))
  {
    if workers != [] {
      assert EmptySlots(workers)[0] in EmptySlots(workers);
    }
  }

  lemma GatheringIsSafe(c: Cluster, w: WorkerId, uids: Uid, payload: Marshalled)
    requires Valid(c) && Allowed(c, PrimaryReceives(w, CommandResult(uids, payload)))
    ensures var c' := Step(c, PrimaryReceives(w, CommandResult(uids, payload))); Valid(c') && Extends(c', c)
  {
    hide IsGathering;
    hide IsAnswer;
    hide AllResponded;
    hide WithResult;
    var c' := Step(c, PrimaryReceives(w, CommandResult(uids, payload)));
    var sent := OnCommandResult(c.primary, w, uids, payload, c.workers).1;
    assert Extends(c', c);
    assert CommandsValid(c') by {
      hide OnCommandResult;
    }
    assert PromisesValid(c') by {
      Unaffected(c, c');
    }
    assert (w, uids, payload) in c.given;
    if IsAwaited(c.primary, w, uids) {
      var slots := WithResult(c.primary, w, uids, payload);
      MoreGathered(c, w, uids, payload);
      GatheredIsSent(c, uids);
      assert PrimaryValid(c') by {
        GatheredElsewhere(c, c', uids);
        if !AllResponded(slots) {
          GatheringStays(c, c', uids, slots);
        }
      }
      hide CommandsValid;
      hide PromisesValid;
      hide PrimaryValid;
      if AllResponded(slots) {
        AnswerStays(c, c', c.primary.workerIds[uids], uids, Resolved(Results(slots)));
      }
      NewAnswers(c, c', sent);
    } else {
      Unaffected(c, c');
    }
  }

  /** One more result: the command is complete, or still in progress. */
  lemma MoreGathered(c: Cluster, w: WorkerId, uids: Uid, payload: Marshalled)
    requires PrimaryValid(c) && IsAwaited(c.primary, w, uids) && (w, uids, payload) in c.given
    ensures var slots := WithResult(c.primary, w, uids, payload);
            if AllResponded(slots) then IsAnswer(c, c.primary.workerIds[uids], uids, Resolved(Results(slots)))
            else IsGathering(c, uids, slots)
  {
  }

  lemma StepIsSafe(c: Cluster, e: Event)
    requires Valid(c) && Allowed(c, e)
    ensures Valid(Step(c, e)) && Extends(Step(c, e), c)
  {
    hide *;
    match e {
      case Send(w, target, uids) => SendIsSafe(c, w, target, uids);
      case PrimaryReceives(w, msg) =>
        match msg {
          case Command(uids, target) => DispatchIsSafe(c, w, uids, target);
          case CommandResult(uids, payload) => GatheringIsSafe(c, w, uids, payload);
        }
      case WorkerReceives(w, msg) => ReceiptIsSafe(c, w, msg);
      case TimesOut(w, uids) => TimeoutIsSafe(c, w, uids);
      case _ => RepliesAreSafe(c, e);
    }
  }

  /** The states that a run of events goes through. */
  ghost predicate IsRun(states: seq<Cluster>, events: seq<Event>) {
    && |states| == |events| + 1 && states[0] == START
    && forall i :: 0 <= i < |events| ==> Allowed(states[i], events[i]) && states[i+1] == Step(states[i], events[i])
  }

  lemma {:induction false} RunsAreSafe(states: seq<Cluster>, events: seq<Event>)
    requires IsRun(states, events)
    ensures Valid(states[|events|])
  {
    hide Step;
    hide Allowed;
    var n := |events|;
    if n == 0 {
      StartIsSafe();
    } else {
      RunsAreSafe(states[..n], events[..n-1]);
      StepIsSafe(states[n-1], events[n-1]);
    }
  }

  lemma StartIsSafe()
    ensures Valid(START)
  {
  }

  /**
    In every run, the two maps of the primary have the same keys; each promise is settled at
    most once; and a broadcast is resolved only with one result for each worker that was
    there when it was dispatched, given by that worker.
   */
  lemma AnswersAreRight(states: seq<Cluster>, events: seq<Event>)
    requires IsRun(states, events)
    ensures var c := states[|events|];
            && c.primary.workerIds.Keys == c.primary.results.Keys
            && (forall i, j :: 0 <= i < j < |c.settled| ==> c.settled[i].uids != c.settled[j].uids)
            && (forall s :: s in c.settled ==> s.uids in c.commands && c.commands[s.uids].from == s.worker)
            && (forall s :: s in c.settled && s.outcome.Resolved? && c.commands[s.uids].target == AllWorkers ==>
                  IsComplete(c, s.uids, s.outcome.results))
  {
    hide Step;
    hide Allowed;
    hide IsRun;
    RunsAreSafe(states, events);
  }

  // ---------------------------------------------------------------------------
  // Completion

  /** The primary receives some results for a command, one after another. */
  function Receive(g: Gathering, uids: Uid, replies: seq<(WorkerId, Marshalled)>, workers: seq<WorkerId>):
    (Gathering, seq<(WorkerId, ToWorker)>)
    decreases |replies|
  {
    if replies == [] then (g, [])
    else
      var r := OnCommandResult(g, replies[0].0, uids, replies[0].1, workers);
      var rest := Receive(r.0, uids, replies[1..], workers);
      (rest.0, r.1 + rest.1)
  }

  /** The first result that a worker gives. */
  function FirstReply(replies: seq<(WorkerId, Marshalled)>, worker: WorkerId): Option<Marshalled> {
    if replies == [] then None
    else if replies[0].0 == worker then Some(replies[0].1)
    else FirstReply(replies[1..], worker)
  }

  ghost predicate DistinctSlots(slots: seq<Slot>) {
    forall i, j :: 0 <= i < j < |slots| ==> slots[i].worker != slots[j].worker
  }

  /** What is already there, or else the first reply. */
  function Outcomes(slots: seq<Slot>, replies: seq<(WorkerId, Marshalled)>): (r: seq<Option<Marshalled>>)
    ensures |r| == |slots|
    ensures forall i :: 0 <= i < |r| ==>
              r[i] == if slots[i].result.Some? then slots[i].result else FirstReply(replies, slots[i].worker)
  {
    if slots == [] then []
    else
      [if slots[0].result.Some? then slots[0].result else FirstReply(replies, slots[0].worker)]
      + Outcomes(slots[1..], replies)
  }

  /**
    Once every worker has replied, in any order and with any duplicates, the waiting worker
    is sent the first reply of each, once, and the command is over.
   */
  lemma {:induction false} BroadcastCompletes(
    g: Gathering, uids: Uid, replies: seq<(WorkerId, Marshalled)>, workers: seq<WorkerId>)
    requires uids in g.results && uids in g.workerIds && g.workerIds[uids] in workers
    requires DistinctSlots(g.results[uids]) && !AllResponded(g.results[uids])
    requires forall s :: s in g.results[uids] && s.result.None? ==> FirstReply(replies, s.worker).Some?
    ensures var r := Receive(g, uids, replies, workers);
            && uids !in r.0.results && uids !in r.0.workerIds
            && |r.1| == 1 && r.1[0].0 == g.workerIds[uids] && r.1[0].1.CommandResults? && r.1[0].1.uids == uids
            && var outcomes := Outcomes(g.results[uids], replies);
               && |r.1[0].1.results| == |outcomes|
               && forall i :: 0 <= i < |outcomes| ==> outcomes[i] == Some(r.1[0].1.results[i])
    decreases |replies|
  {
    hide Outcomes;
    var slots := g.results[uids];
    assert replies == [] ==> forall s :: s in slots ==> FirstReply(replies, s.worker).None?;
    if replies == [] {
      assert false;
    } else {
      var w, payload, rest := replies[0].0, replies[0].1, replies[1..];
      if !IsAwaited(g, w, uids) {
        NotAwaited(g, uids, replies);
        SameOutcomes(slots, slots, replies, rest);
        BroadcastCompletes(g, uids, rest, workers);
      } else {
        var slots' := WithResult(g, w, uids, payload);
        OneMoreReply(g, uids, replies);
        SameOutcomes(slots, slots', replies, rest);
        var g' := OnCommandResult(g, w, uids, payload, workers).0;
        if AllResponded(slots') {
          OverIsOver(g', uids, rest, workers);
          AllOutcomes(slots', rest);
        } else {
          BroadcastCompletes(g', uids, rest, workers);
        }
      }
    }
  }

  lemma SameOutcomes(a: seq<Slot>, b: seq<Slot>,
                     replies: seq<(WorkerId, Marshalled)>, rest: seq<(WorkerId, Marshalled)>)
    requires |a| == |b|
    requires forall i :: 0 <= i < |a| ==>
               (if a[i].result.Some? then a[i].result else FirstReply(replies, a[i].worker))
               == (if b[i].result.Some? then b[i].result else FirstReply(rest, b[i].worker))
    ensures Outcomes(a, replies) == Outcomes(b, rest)
  {
    hide FirstReply;
  }

  lemma AllOutcomes(slots: seq<Slot>, replies: seq<(WorkerId, Marshalled)>)
    requires AllResponded(slots)
    ensures forall i :: 0 <= i < |slots| ==> Outcomes(slots, replies)[i] == Some(Results(slots)[i])
  {
    hide FirstReply;
    assert forall i :: 0 <= i < |slots| ==> slots[i] in slots;
  }

  /** A reply that is not awaited is not the first one of a worker still to reply. */
  lemma {:induction false} SlotIsUnique(slots: seq<Slot>, i: nat)
    requires DistinctSlots(slots) && i < |slots|
    ensures SlotOf(slots, slots[i].worker) == Some(i)
  {
    assert slots[i] in slots;
  }

  lemma {:induction false} NotAwaited(g: Gathering, uids: Uid, replies: seq<(WorkerId, Marshalled)>)
    requires uids in g.results && DistinctSlots(g.results[uids]) && replies != []
    requires !IsAwaited(g, replies[0].0, uids)
    ensures forall i :: 0 <= i < |g.results[uids]| && g.results[uids][i].result.None? ==>
              FirstReply(replies, g.results[uids][i].worker) == FirstReply(replies[1..], g.results[uids][i].worker)
  {
    var slots := g.results[uids];
    forall i | 0 <= i < |slots| && slots[i].result.None?
      ensures slots[i].worker != replies[0].0
    {
      SlotIsUnique(slots, i);
    }
  }

  lemma {:induction false} OneMoreReply(g: Gathering, uids: Uid, replies: seq<(WorkerId, Marshalled)>)
    requires uids in g.results && DistinctSlots(g.results[uids]) && replies != []
    requires IsAwaited(g, replies[0].0, uids)
    ensures var slots, slots' := g.results[uids], WithResult(g, replies[0].0, uids, replies[0].1);
            && |slots'| == |slots| && DistinctSlots(slots')
            && forall i :: 0 <= i < |slots| ==>
                 && slots'[i].worker == slots[i].worker
                 && (if slots[i].result.Some? then slots[i].result else FirstReply(replies, slots[i].worker))
                    == (if slots'[i].result.Some? then slots'[i].result
                        else FirstReply(replies[1..], slots'[i].worker))
  {
    var slots := g.results[uids];
    var n := SlotOf(slots, replies[0].0).value;
    forall i | 0 <= i < |slots| && i != n
      ensures slots[i].worker != replies[0].0
    {
      assert slots[n].worker == replies[0].0;
    }
  }

  lemma {:induction false} OverIsOver(
    g: Gathering, uids: Uid, replies: seq<(WorkerId, Marshalled)>, workers: seq<WorkerId>)
    requires uids !in g.results
    ensures Receive(g, uids, replies, workers) == (g, [])
    decreases |replies|
  {
    if replies != [] {
      OverIsOver(g, uids, replies[1..], workers);
      var r := OnCommandResult(g, replies[0].0, uids, replies[0].1, workers);
      assert r == (g, []) && r.1 + r.1 == [];
    }
  }
}
