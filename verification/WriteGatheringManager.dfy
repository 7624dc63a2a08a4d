/**
  Gathering of writes into batches, for one database: databases do not share state.  A
  batch is committed when its timer fires or when the commit in progress ends; callbacks
  may submit further requests at once, in the middle of the answers to a batch.
 */
module WriteGathering {
  import opened Keys

  datatype Entry = Entry(key: string, value: int)

  type RequestId = nat

  /** A request: the entries to write, and whose callback it is. */
  datatype Request = Request(id: RequestId, entries: seq<Entry>)

  /** A batch being gathered: a callback goes with the first entry of each request. */
  datatype BatchCache = BatchCache(batch: seq<Entry>, callbacks: seq<Option<RequestId>>, timer: bool)

  datatype CommitError = CommitError(code: int)

  datatype Answer = Answer(id: RequestId, error: Option<CommitError>)

  /** The requests that wait for a batch, in order. */
  function Ids(callbacks: seq<Option<RequestId>>): seq<RequestId> {
    if callbacks == [] then []
    else
      var n := |callbacks| - 1;
      Ids(callbacks[..n]) + (if callbacks[n].Some? then [callbacks[n].value] else [])
  }

  function Waiting(b: Option<BatchCache>): seq<RequestId> {
    if b.Some? then Ids(b.value.callbacks) else []
  }

  function EntriesOf(b: Option<BatchCache>): seq<Entry> {
    if b.Some? then b.value.batch else []
  }

  /** The requests that can be answered: those with an entry. */
  function Asking(requests: seq<Request>): seq<RequestId> {
    if requests == [] then []
    else
      var n := |requests| - 1;
      Asking(requests[..n]) + (if requests[n].entries != [] then [requests[n].id] else [])
  }

  function Writes(requests: seq<Request>): seq<Entry> {
    if requests == [] then []
    else Writes(requests[..|requests|-1]) + requests[|requests|-1].entries
  }

  function AnswerIds(answers: seq<Answer>): seq<RequestId> {
    if answers == [] then [] else AnswerIds(answers[..|answers|-1]) + [answers[|answers|-1].id]
  }

  /** The entries of some batches, one batch after another. */
  function Joined(batches: seq<seq<Entry>>): seq<Entry> {
    if batches == [] then [] else Joined(batches[..|batches|-1]) + batches[|batches|-1]
  }

  class WriteGatheringManager {
    var isCommitting: bool
    var batchCache: Option<BatchCache>
    /** The batch the database is committing. */
    var committing: Option<BatchCache>
    /** What the database was asked to commit, and the answers given. */
    var sent: seq<seq<Entry>>
    var answers: seq<Answer>

    /** All requests so far, what has been committed, and whether a commit has failed. */
    ghost var requests: seq<Request>
    ghost var committed: seq<Entry>
    ghost var failed: bool

    /** Requests are answered in order, once each: those of `rest` are next. */
    ghost predicate Conserves(rest: seq<RequestId>)
      reads this
    {
      && AnswerIds(answers) + rest + Waiting(committing) + Waiting(batchCache) == Asking(requests)
      && (!failed ==> committed + EntriesOf(committing) + EntriesOf(batchCache) == Writes(requests))
      && (!failed ==> Joined(sent) == committed + EntriesOf(committing))
      && (isCommitting <==> committing.Some?)
      && (batchCache.Some? ==> |batchCache.value.callbacks| == |batchCache.value.batch|)
    }

    /** Between events, a pending batch has a timer or a commit in progress. */
    ghost predicate Valid()
      reads this
    {
      && Conserves([])
      && (batchCache.Some? && !batchCache.value.timer ==> isCommitting)
    }

    constructor ()
      ensures Valid() && requests == [] && answers == [] && sent == [] && !failed
    {
      isCommitting, batchCache, committing := false, None, None;
      sent, answers, requests, committed, failed := [], [], [], [], false;
    }

    /** Adds a request to the pending batch; a new batch gets a timer. */
    method Batch(request: Request, ghost rest: seq<RequestId>)
      requires Conserves(rest)
      modifies this`batchCache, this`requests
      ensures Conserves(rest) && requests == old(requests) + [request]
      ensures batchCache.Some?
      ensures batchCache.value.timer == (old(batchCache).None? || old(batchCache).value.timer)
      ensures batchCache.value.batch == EntriesOf(old(batchCache)) + request.entries
      ensures Ids(batchCache.value.callbacks)
           == Waiting(old(batchCache)) + if request.entries == [] then [] else [request.id]
    {
      hide AnswerIds;
      hide Ids;
      hide Asking;
      hide Writes;
      if batchCache == None {
        batchCache := Some(BatchCache([], [], true));
        NoIds();
      }
      assert Conserves(rest);
      Submitted(requests, request);
      var bCache := Gather(batchCache.value, request);
      ghost var ids := if request.entries == [] then [] else [request.id];
      Append(AnswerIds(answers) + rest + Waiting(committing), Waiting(batchCache), ids, Asking(requests));
      if !failed {
        Append(committed + EntriesOf(committing), EntriesOf(batchCache), request.entries, Writes(requests));
      }
      batchCache := Some(bCache);
      requests := requests + [request];
    }

    lemma Append<T>(a: seq<T>, b: seq<T>, c: seq<T>, all: seq<T>)
      requires a + b == all
      ensures a + (b + c) == all + c
    {
    }

    lemma NoIds()
      ensures Ids([]) == []
    {
    }

    /** The entries of a request are added to a batch, its callback with the first. */
    method Gather(batch: BatchCache, request: Request) returns (bCache: BatchCache)
      requires |batch.callbacks| == |batch.batch|
      ensures bCache.batch == batch.batch + request.entries && bCache.timer == batch.timer
      ensures Ids(bCache.callbacks) == Ids(batch.callbacks) + if request.entries == [] then [] else [request.id]
      ensures |bCache.callbacks| == |bCache.batch|
    {
      bCache := batch;
      for index := 0 to |request.entries|
        invariant bCache.batch == batch.batch + request.entries[..index] && bCache.timer == batch.timer
        invariant Ids(bCache.callbacks) == Ids(batch.callbacks) + if index == 0 then [] else [request.id]
        invariant |bCache.callbacks| == |bCache.batch|
      {
        var callback := if index == 0 then Some(request.id) else None;
        assert (bCache.callbacks + [callback])[..|bCache.callbacks|] == bCache.callbacks;
        bCache := bCache.(batch := bCache.batch + [request.entries[index]],
                          callbacks := bCache.callbacks + [callback]);
      }
      assert request.entries[..|request.entries|] == request.entries;
    }

    lemma Submitted(requests: seq<Request>, request: Request)
      ensures Asking(requests + [request])
           == Asking(requests) + if request.entries == [] then [] else [request.id]
      ensures Writes(requests + [request]) == Writes(requests) + request.entries
    {
      assert (requests + [request])[..|requests|] == requests;
    }

    /** Submits requests one after another. */
    method SubmitAll(submitted: seq<Request>, ghost rest: seq<RequestId>)
      requires Conserves(rest) && !isCommitting
      modifies this`batchCache, this`requests
      ensures Conserves(rest)
      ensures old(batchCache).Some? ==> batchCache.Some? && batchCache.value.timer == old(batchCache).value.timer
      ensures old(batchCache).None? && batchCache.Some? ==> batchCache.value.timer
      ensures Waiting(old(batchCache)) <= Waiting(batchCache)
      ensures requests == old(requests) + submitted
      ensures submitted == [] ==> batchCache == old(batchCache)
    {
      hide AnswerIds;
      hide Ids;
      hide Writes;
      hide Asking;
      for k := 0 to |submitted|
        invariant Conserves(rest) && Waiting(old(batchCache)) <= Waiting(batchCache)
        invariant requests == old(requests) + submitted[..k] && (k == 0 ==> batchCache == old(batchCache))
        invariant old(batchCache).Some? ==>
                    batchCache.Some? && batchCache.value.timer == old(batchCache).value.timer
        invariant old(batchCache).None? && batchCache.Some? ==> batchCache.value.timer
      {
        Batch(submitted[k], rest);
      }
      assert submitted[..|submitted|] == submitted;
    }

    /** Commits the pending batch, or leaves it to the end of the commit in progress. */
    method CommitBatch()
      requires Conserves([])
      modifies this`isCommitting, this`batchCache, this`committing, this`sent
      ensures Valid()
      ensures if old(batchCache).None? then
                batchCache == None && committing == old(committing) && sent == old(sent)
              else if old(isCommitting) then
                && batchCache == Some(old(batchCache).value.(timer := false))
                && committing == old(committing) && sent == old(sent)
              else
                && batchCache == None && committing == Some(old(batchCache).value.(timer := false))
                && sent == old(sent) + [old(batchCache).value.batch]
    {
      hide AnswerIds;
      hide Ids;
      hide Asking;
      hide Writes;
      if batchCache == None {
        return;
      }
      var bCache := batchCache.value.(timer := false);
      batchCache := Some(bCache);
      if isCommitting {
        return;
      }
      batchCache := None;
      isCommitting := true;
      committing := Some(bCache);
      assert (sent + [bCache.batch])[..|sent|] == sent;
      sent := sent + [bCache.batch];
    }

    /** The timer of the pending batch fires. */
    method OnTimer()
      requires Valid() && batchCache.Some? && batchCache.value.timer
      modifies this`isCommitting, this`batchCache, this`committing, this`sent
      ensures Valid() && isCommitting
      ensures sent == if old(isCommitting) then old(sent) else old(sent) + [old(batchCache).value.batch]
      ensures !old(isCommitting) ==> batchCache.None? && committing.Some?
    {
      CommitBatch();
    }

    /** Answers the requests of a batch in order; the callback of the i-th entry submits the
        requests `during(i)` at once. */
    method BatchCommitted(error: Option<CommitError>, batch: BatchCache, during: nat -> seq<Request>)
      requires Conserves(Ids(batch.callbacks)) && !isCommitting
      modifies this`batchCache, this`requests, this`answers
      ensures Conserves([]) && !isCommitting
      ensures |answers| == |old(answers)| + |Ids(batch.callbacks)| && old(answers) <= answers
      ensures forall i :: |old(answers)| <= i < |answers| ==> answers[i].error == error
      ensures old(batchCache).Some? ==> batchCache.Some? && batchCache.value.timer == old(batchCache).value.timer
      ensures old(batchCache).None? && batchCache.Some? ==> batchCache.value.timer
      ensures Waiting(old(batchCache)) <= Waiting(batchCache)
      ensures old(requests) <= requests
      ensures IsSilent(during) ==> batchCache == old(batchCache) && requests == old(requests)
    {
      hide AnswerIds;
      hide Writes;
      hide Asking;
      hide Conserves;
      AllLeft(batch.callbacks);
      hide Ids;
      hide Left;
      for i := 0 to |batch.callbacks|
        invariant Conserves(Left(batch.callbacks, i)) && !isCommitting
        invariant |answers| + |Left(batch.callbacks, i)| == |old(answers)| + |Ids(batch.callbacks)|
        invariant old(answers) <= answers && Waiting(old(batchCache)) <= Waiting(batchCache)
        invariant old(requests) <= requests
        invariant IsSilent(during) ==> batchCache == old(batchCache) && requests == old(requests)
        invariant forall k :: |old(answers)| <= k < |answers| ==> answers[k].error == error
        invariant old(batchCache).Some? ==>
                    batchCache.Some? && batchCache.value.timer == old(batchCache).value.timer
        invariant old(batchCache).None? && batchCache.Some? ==> batchCache.value.timer
      {
        NextLeft(batch.callbacks, i);
        if batch.callbacks[i].Some? {
          AnswerNext(batch.callbacks[i].value, error, Left(batch.callbacks, i + 1));
          var submitted := during(i);
          SubmitAll(submitted, Left(batch.callbacks, i + 1));
        }
      }
    }

    method AnswerNext(id: RequestId, error: Option<CommitError>, ghost rest: seq<RequestId>)
      requires Conserves([id] + rest)
      modifies this`answers
      ensures Conserves(rest) && answers == old(answers) + [Answer(id, error)]
    {
      assert (answers + [Answer(id, error)])[..|answers|] == answers;
      assert AnswerIds(answers) + ([id] + rest) == AnswerIds(answers) + [id] + rest;
      answers := answers + [Answer(id, error)];
    }

    /**
      The database has committed a batch, or failed to.  Its requests are answered; then a
      batch that has been waiting for this is committed, or answered with the same error.
     */
    method OnCommitted(err: Option<CommitError>, during: nat -> seq<Request>, duringPending: nat -> seq<Request>)
      requires Valid() && committing.Some?
      modifies this
      ensures Valid()
      ensures failed == (old(failed) || err.Some?)
      ensures err.None? ==> committed == old(committed) + old(committing).value.batch
      ensures old(answers) <= answers
      ensures |answers| >= |old(answers)| + |Waiting(old(committing))|
                           + if err.Some? then |Waiting(old(batchCache))| else 0
      ensures forall i :: |old(answers)| <= i < |answers| ==> answers[i].error == err
      ensures old(requests) <= requests
      ensures IsSilent(during) && IsSilent(duringPending) ==>
                && requests == old(requests)
                && (err.Some? || old(batchCache).None? ==> batchCache.None? && committing.None?)
                && (committing.Some? ==> batchCache.None?)
    {
      hide AnswerIds;
      hide Ids;
      hide Joined;
      hide Writes;
      hide Asking;
      var bCache := committing.value;
      isCommitting := false;
      committing := None;
      if err.Some? {
        failed := true;
      } else {
        committed := committed + bCache.batch;
      }
      BatchCommitted(err, bCache, during);
      if batchCache == None {
        return;
      }
      if err.Some? {
        var pending := batchCache.value;
        batchCache := None;
        BatchCommitted(err, pending, duringPending);
        return;
      }
      if !batchCache.value.timer {
        CommitBatch();
      }
    }

    /** When nothing is pending or being committed, all requests have been answered, in
        order and once each, and everything submitted has been committed. */
    lemma IdleIsComplete()
      requires Valid() && committing.None? && batchCache.None?
      ensures AnswerIds(answers) == Asking(requests)
      ensures !failed ==> committed == Joined(sent) == Writes(requests)
    {
      assert AnswerIds(answers) + [] + [] + [] == AnswerIds(answers);
      assert committed + [] + [] == committed;
    }
  }

  /** The callbacks submit nothing. */
  ghost predicate IsSilent(during: nat -> seq<Request>) {
    forall i: nat :: during(i) == []
  }

  /** The requests that the callbacks from position `i` on answer. */
  ghost function Left(callbacks: seq<Option<RequestId>>, i: nat): seq<RequestId>
    requires i <= |callbacks|
    decreases |callbacks| - i
  {
    if i == |callbacks| then []
    else (if callbacks[i].Some? then [callbacks[i].value] else []) + Left(callbacks, i + 1)
  }

  lemma NextLeft(callbacks: seq<Option<RequestId>>, i: nat)
    requires i < |callbacks|
    ensures Left(callbacks, i) == if callbacks[i].Some? then [callbacks[i].value] + Left(callbacks, i + 1)
                                  else Left(callbacks, i + 1)
  {
  }

  lemma AllLeft(callbacks: seq<Option<RequestId>>)
    ensures Left(callbacks, 0) == Ids(callbacks) && Left(callbacks, |callbacks|) == []
  {
    LeftIsIds(callbacks, 0);
    assert callbacks[..0] == [];
  }

  lemma {:induction false} LeftIsIds(callbacks: seq<Option<RequestId>>, i: nat)
    requires i <= |callbacks|
    ensures Ids(callbacks[..i]) + Left(callbacks, i) == Ids(callbacks)
    decreases |callbacks| - i
  {
    if i == |callbacks| {
      assert callbacks[..i] == callbacks;
    } else {
      LeftIsIds(callbacks, i + 1);
      assert callbacks[..i+1][..i] == callbacks[..i];
    }
  }
}
