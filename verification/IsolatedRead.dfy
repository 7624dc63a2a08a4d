/**
  When a read through the write cache is isolated: when it returns the last write of its key.
  Then the deletes and repairs that it is for are applied to the state that it has seen.
 */
module IsolatedReads {
  import opened Keys
  import opened Versions
  import opened MasterRepair
  import C = WriteCacheStates

  type Log = seq<C.LogEntry>

  /** The value last written to a key, or else the one that the database has had from the
      start. */
  function LastValue(log: Log, key: C.Key, start: C.Value): C.Value {
    if log == [] then start
    else
      var n := |log| - 1;
      if log[n].Written? && log[n].key == key then log[n].value else LastValue(log[..n], key, start)
  }

  /** What a reader has been told: the value, or that there is none. */
  function ValueOf(answer: C.Answer): C.Value {
    if answer.Found? then Some(answer.value) else None
  }

  /** The database has seeded a queue with a value that is not the last one written. */
  ghost predicate IsStaleSeed(log: Log, i: nat, start: C.Value) {
    && i < |log| && log[i].Seeded? && !log[i].byWrite
    && log[i].value != LastValue(log[..i], log[i].key, start)
  }

  /** The last thing that has happened to the key before position `j` is a stale seed. */
  ghost predicate GoesBackToStale(log: Log, j: nat, key: C.Key, start: C.Value)
    requires j <= |log|
  {
    exists i: nat :: i < j && IsStaleSeed(log, i, start) && log[i].key == key
                     && forall n :: i < n < j && !log[n].Answered? ==> log[n].key != key
  }

  lemma {:induction false} LatestAt(log: Log, key: C.Key) returns (i: nat)
    requires C.Latest(log, key).Some?
    ensures i < |log| && C.Latest(log, key) == Some(log[i]) && !log[i].Answered? && log[i].key == key
    ensures forall n :: i < n < |log| && !log[n].Answered? ==> log[n].key != key
  {
    i := |log| - 1;
    if log[i].Answered? || log[i].key != key {
      i := LatestAt(log[..|log|-1], key);
    }
  }

  /** Without a write in between, the last value stays the same. */
  lemma {:induction false} SameLastValue(log: Log, i: nat, key: C.Key, start: C.Value)
    requires i <= |log| && forall n :: i <= n < |log| && log[n].Written? ==> log[n].key != key
    ensures LastValue(log, key, start) == LastValue(log[..i], key, start)
    decreases |log|
  {
    if i < |log| {
      assert log[..|log|-1][..i] == log[..i];
      SameLastValue(log[..|log|-1], i, key, start);
    } else {
      assert log[..i] == log;
    }
  }

  /**
    Exactly when a read is isolated: unless the value that it gets goes back to what the
    database has answered, and that was older than the last write.
   */
  lemma ReadIsIsolatedExactly(log: Log, j: nat, start: C.Value)
    requires C.IsIsolated(log) && j < |log| && log[j].Answered? && !log[j].answer.Failed?
    ensures ValueOf(log[j].answer) == LastValue(log[..j], log[j].key, start)
       <==> !GoesBackToStale(log, j, log[j].key, start)
  {
    hide C.Latest;
    var key, before := log[j].key, log[..j];
    var i := LatestAt(before, key);
    LastIs(log, i, j, key, start);
    if GoesBackToStale(log, j, key, start) {
      var k: nat :| k < j && IsStaleSeed(log, k, start) && log[k].key == key
                    && forall n :: k < n < j && !log[n].Answered? ==> log[n].key != key;
      assert k == i;
    }
  }

  /** The last value, when the last thing that has happened is a seed or a write. */
  lemma LastIs(log: Log, i: nat, j: nat, key: C.Key, start: C.Value)
    requires C.IsIsolated(log) && i < j <= |log| && (log[i].Seeded? || log[i].Written?) && log[i].key == key
    requires forall n :: i < n < j && !log[n].Answered? ==> log[n].key != key
    ensures log[i].value == LastValue(log[..j], key, start) <==> !IsStaleSeed(log, i, start)
  {
    var before := log[..j];
    assert before[..i+1] == log[..i+1] && before[..i] == log[..i];
    assert log[..i+1][..i] == log[..i];
    SameLastValue(before, i + 1, key, start);
    if log[i].Seeded? && log[i].byWrite {
      assert log[..i][..i-1] == log[..i-1];
    }
  }

  // ---------------------------------------------------------------------------
  // The events that have read

  /** Stored values as the write cache sees them. */
  type Decoding = C.Value -> Option<Metadata>

  ghost predicate IsInjective(decode: Decoding) {
    forall v, w :: decode(v) == decode(w) ==> v == w
  }

  /** The operations of an event. */
  function OpsOf(e: Event): seq<Op> {
    match e
    case NewVersionPut(vid, value) => PutOps(vid, value)
    case VersionDelete(vid, isNull, phdVid, read) => DeleteOps(read, vid, isNull, phdVid)
    case Repair(hint, read) => if read == Some(hint.phd) then RepairOps(hint.next) else []
    case _ => []
  }

  /** What operations leave in the master entry, if they touch it. */
  function MasterOp(ops: seq<Op>): Option<Option<Metadata>> {
    if ops == [] then None
    else
      match ops[|ops|-1]
      case Put(MasterSlot, value) => Some(Some(value))
      case Del(MasterSlot) => Some(None)
      case _ => MasterOp(ops[..|ops|-1])
  }

  function ReadOf(e: Event): Option<Option<Metadata>> {
    match e
    case VersionDelete(_, _, _, read) => Some(read)
    case Repair(_, read) => Some(read)
    case _ => None
  }

  /**
    A run whose reads and writes of the master entry go through the write cache: `logs` are
    what has happened there before each event.  What an event writes is written there, and an
    event that has read comes right after its answer.
   */
  ghost predicate IsCachedRun(worlds: seq<World>, events: seq<Event>, logs: seq<Log>,
                              key: C.Key, start: C.Value, decode: Decoding) {
    && |worlds| == |events| + 1 == |logs| && IsRun(worlds, events)
    && MasterOfStored(worlds[0].current) == decode(LastValue(logs[0], key, start))
    && (forall i :: 0 <= i < |events| ==>
          match MasterOp(OpsOf(events[i]))
          case Some(m) => decode(LastValue(logs[i+1], key, start)) == m
          case None => LastValue(logs[i+1], key, start) == LastValue(logs[i], key, start))
    && (forall i :: 0 <= i < |events| && ReadOf(events[i]).Some? ==>
          && logs[i] != [] && C.IsIsolated(logs[i]) && IsAnswerTo(logs[i], key)
          && decode(ValueOf(logs[i][|logs[i]|-1].answer)) == ReadOf(events[i]).value)
  }

  /** The last entry answers a reader of the key. */
  ghost predicate IsAnswerTo(log: Log, key: C.Key)
    requires log != []
  {
    var e := log[|log|-1];
    e.Answered? && e.key == key && !e.answer.Failed?
  }

  /** The read that an event comes after goes back to an old answer of the database. */
  ghost predicate HasReadStale(log: Log, key: C.Key, start: C.Value) {
    log != [] && GoesBackToStale(log, |log| - 1, key, start)
  }

  lemma {:induction false} MasterAfter(s: Stored, ops: seq<Op>)
    ensures MasterOfStored(Apply(s, ops)) == match MasterOp(ops) case Some(m) => m case None => MasterOfStored(s)
  {
    if ops != [] {
      MasterAfter(s, ops[..|ops|-1]);
    }
  }

  lemma StepApplies(w: World, e: Event)
    requires Possible(w, e)
    ensures Step(w, e).current == Apply(w.current, OpsOf(e))
  {
  }

  /** The master entry is what was last written to it. */
  lemma {:induction false} MasterIsLastValue(worlds: seq<World>, events: seq<Event>, logs: seq<Log>,
                                             key: C.Key, start: C.Value, decode: Decoding, i: nat)
    requires IsCachedRun(worlds, events, logs, key, start, decode) && i < |worlds|
    ensures MasterOfStored(worlds[i].current) == decode(LastValue(logs[i], key, start))
  {
    hide LastValue;
    hide Step;
    hide Possible;
    hide Fresh;
    hide OpsOf;
    hide MasterOp;
    hide MasterOfStored;
    if i > 0 {
      MasterIsLastValue(worlds, events, logs, key, start, decode, i - 1);
      assert worlds[i-1+1] == Step(worlds[i-1], events[i-1]) && Allowed(worlds[i-1], events[i-1]);
      StepApplies(worlds[i-1], events[i-1]);
      MasterAfter(worlds[i-1].current, OpsOf(events[i-1]));
    }
  }

  /** Exactly when an event is isolated: unless it has read an old answer of the database. */
  lemma EventIsIsolatedExactly(worlds: seq<World>, events: seq<Event>, logs: seq<Log>,
                               key: C.Key, start: C.Value, decode: Decoding, i: nat)
    requires IsCachedRun(worlds, events, logs, key, start, decode) && IsInjective(decode)
    requires i < |events| && ReadOf(events[i]).Some?
    ensures IsIsolated(worlds[i], events[i]) <==> !HasReadStale(logs[i], key, start)
  {
    hide LastValue;
    hide GoesBackToStale;
    hide IsRun;
    hide MasterOfStored;
    MasterIsLastValue(worlds, events, logs, key, start, decode, i);
    var log := logs[i];
    var n := |log| - 1;
    ReadIsIsolatedExactly(log, n, start);
    AnswersWriteNothing(log, key, start);
  }

  lemma AnswersWriteNothing(log: Log, key: C.Key, start: C.Value)
    requires log != [] && log[|log|-1].Answered?
    ensures LastValue(log, key, start) == LastValue(log[..|log|-1], key, start)
  {
  }

  /** With no read of an old answer, the master stays right. */
  lemma CachedRunsStayRight(worlds: seq<World>, events: seq<Event>, logs: seq<Log>,
                            key: C.Key, start: C.Value, decode: Decoding)
    requires IsCachedRun(worlds, events, logs, key, start, decode) && IsInjective(decode) && IsStart(worlds[0])
    requires forall i :: 0 <= i < |events| && ReadOf(events[i]).Some? ==> !HasReadStale(logs[i], key, start)
    ensures forall i :: 0 <= i < |worlds| ==> MasterIsRight(worlds[i].current)
  {
    hide IsIsolated;
    hide IsRun;
    hide IsStart;
    hide MasterIsRight;
    hide HasReadStale;
    forall i | 0 <= i < |events|
      ensures IsIsolated(worlds[i], events[i])
    {
      if ReadOf(events[i]).Some? {
        EventIsIsolatedExactly(worlds, events, logs, key, start, decode, i);
      } else {
        ReadsNothing(worlds[i], events[i]);
      }
    }
    MasterStaysRight(worlds, events);
  }

  lemma ReadsNothing(w: World, e: Event)
    requires ReadOf(e).None?
    ensures IsIsolated(w, e)
  {
  }
}
