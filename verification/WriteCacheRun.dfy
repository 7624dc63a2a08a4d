/**
  Whole runs of the write cache: whatever is asked for, written, and answered by the database,
  in any order, every reader is answered exactly once.
 */
module WriteCacheRuns {
  import opened Keys
  import opened WriteCacheStates
  import opened WriteCaches

  datatype Event =
    | GetEvent(key: Key, id: CallbackId)
    | BatchEvent(entries: seq<Write>)
    | DatabaseAnswer(key: Key, signature: nat, err: Option<int>, value: Value)
    | DatabaseWrote(signature: nat)

  /** The readers that events ask for. */
  function Askers(events: seq<Event>): set<CallbackId> {
    set i | 0 <= i < |events| && events[i].GetEvent? :: events[i].id
  }

  /** Every reader is a new one. */
  ghost predicate AreNew(events: seq<Event>, parent: Parent, universe: set<CallbackId>) {
    && (forall i :: 0 <= i < |events| && events[i].GetEvent? ==>
          parent(events[i].id) == None && events[i].id in universe)
    && (forall i, j :: 0 <= i < j < |events| && events[i].GetEvent? && events[j].GetEvent? ==>
          events[i].id != events[j].id)
  }

  /** A reader that has asked for something: by an event, or when it was answered itself. */
  ghost predicate HasAsked(events: seq<Event>, react: React, log: seq<LogEntry>, id: CallbackId) {
    || id in Askers(events)
    || exists n, key :: 0 <= n < |log| && log[n].Answered? && GetAct(key, id) in react(log[n].id, log[n].answer)
  }

  ghost predicate IsAnsweredOnce(log: seq<LogEntry>, id: CallbackId) {
    exists i :: 0 <= i < |log| && log[i].Answered? && log[i].id == id
                && forall j :: 0 <= j < |log| && log[j].Answered? && log[j].id == id ==> j == i
  }

  lemma OneMoreAsker(events: seq<Event>, i: nat)
    requires i < |events|
    ensures Askers(events[..i+1]) == Askers(events[..i]) + if events[i].GetEvent? then {events[i].id} else {}
  {
    forall id | id in Askers(events[..i])
      ensures id in Askers(events[..i+1])
    {
      var j :| 0 <= j < i && events[..i][j].GetEvent? && events[..i][j].id == id;
      assert events[..i+1][j].GetEvent?;
    }
    if events[i].GetEvent? {
      assert events[..i+1][i].GetEvent?;
    }
  }

  /** A reader that is yet to ask is not known. */
  lemma NextIsUnknown(events: seq<Event>, i: nat, parent: Parent, universe: set<CallbackId>,
                      now: Snapshot, start: Snapshot)
    requires i < |events| && events[i].GetEvent? && AreNew(events, parent, universe)
    requires start.answered == {} && start.waiting == map[]
    requires ReadersFollow(parent, now, start, Askers(events[..i]))
    ensures !IsKnown(now, events[i].id)
  {
    assert !IsKnown(start, events[i].id);
    assert events[i].id !in Askers(events[..i]);
  }

  lemma NobodyWaits(cache: WriteCache)
    requires cache.Valid() && cache.Quiet() && cache.pendingGets == {}
    ensures cache.waiting == map[]
  {
    if id :| id in cache.waiting {
      cache.WaitingIsPending(id);
    }
  }

  lemma AskerIsKnown(cache: WriteCache, events: seq<Event>, start: Snapshot, id: CallbackId)
    requires start.log == [] && Served(cache.react, cache.Now(), start)
    requires forall d :: d in Askers(events) ==> IsKnown(cache.Now(), d)
    requires HasAsked(events, cache.react, cache.log, id)
    ensures IsKnown(cache.Now(), id)
  {
    if id !in Askers(events) {
      var n, key :| 0 <= n < |cache.log| && cache.log[n].Answered?
                    && GetAct(key, id) in cache.react(cache.log[n].id, cache.log[n].answer);
      assert AreAskedFor(cache.react(cache.log[n].id, cache.log[n].answer), cache.Now());
    }
  }

  lemma AnsweredOnce(cache: WriteCache, id: CallbackId)
    requires cache.Valid() && cache.waiting == map[] && IsKnown(cache.Now(), id)
    ensures IsAnsweredOnce(cache.log, id)
  {
    hide Latest;
    hide IsCurrent;
    var log := cache.log;
    assert IsLogged(log, id);
    var i :| 0 <= i < |log| && log[i].Answered? && log[i].id == id;
  }

  lemma LoggedIsKnown(cache: WriteCache, n: nat)
    requires cache.Valid() && n < |cache.log| && cache.log[n].Answered?
    ensures IsKnown(cache.Now(), cache.log[n].id)
  {
    assert cache.log[n] in cache.log;
  }

  /**
    Runs a new cache through events; answers to gets and writes that are not under way are
    passed over.  Once the database has answered all gets, everyone who has asked has been
    answered, and exactly once; and nobody else has.
   */
  method Run(cache: WriteCache, events: seq<Event>)
    requires cache.Valid() && cache.Quiet() && cache.log == [] && cache.answered == {} && cache.waiting == map[]
    requires AreNew(events, cache.parent, cache.universe)
    modifies cache
    ensures cache.Valid() && cache.Quiet() && IsIsolated(cache.log)
    ensures cache.pendingGets == {} ==>
              forall id :: HasAsked(events, cache.react, cache.log, id) ==> IsAnsweredOnce(cache.log, id)
    ensures forall n :: 0 <= n < |cache.log| && cache.log[n].Answered? && cache.parent(cache.log[n].id) == None ==>
              cache.log[n].id in Askers(events)
  {
    ghost var start := cache.Now();
    for i := 0 to |events|
      invariant cache.Valid() && cache.Quiet()
      invariant cache.Keeps(cache.Now(), start, Askers(events[..i]))
      invariant forall id :: id in Askers(events[..i]) ==> IsKnown(cache.Now(), id)
    {
      OneMoreAsker(events, i);
      ghost var between := cache.Now();
      match events[i] {
        case GetEvent(key, id) =>
          NextIsUnknown(events, i, cache.parent, cache.universe, between, start);
          cache.Get(key, id);
          cache.KeepsOn(cache.Now(), between, start, {id}, Askers(events[..i]));
        case BatchEvent(entries) =>
          var _ := cache.Batch(entries);
          cache.KeepsOn(cache.Now(), between, start, {}, Askers(events[..i]));
        case DatabaseAnswer(key, signature, err, value) =>
          if (key, signature) in cache.pendingGets {
            cache.OnDatabaseAnswer(key, signature, err, value);
            cache.KeepsOn(cache.Now(), between, start, {}, Askers(events[..i]));
          }
        case DatabaseWrote(signature) =>
          if signature in cache.pendingWrites {
            cache.OnWritten(signature);
            cache.KeepsOn(cache.Now(), between, start, {}, Askers(events[..i]));
          }
      }
    }
    assert events[..|events|] == events;
    if cache.pendingGets == {} {
      NobodyWaits(cache);
      forall id | HasAsked(events, cache.react, cache.log, id)
        ensures IsAnsweredOnce(cache.log, id)
      {
        AskerIsKnown(cache, events, start, id);
        AnsweredOnce(cache, id);
      }
    }
    forall n | 0 <= n < |cache.log| && cache.log[n].Answered? && cache.parent(cache.log[n].id) == None
      ensures cache.log[n].id in Askers(events)
    {
      LoggedIsKnown(cache, n);
    }
  }
}
