/**
  The state of the write cache as far as the order of answers depends on it: the log of what
  readers were told, the queues they wait in, and what may happen while they are answered.
 */
module WriteCacheStates {
  import opened Keys

  type Key = string
  type CallbackId = nat
  type Value = Option<int>

  datatype Write = Write(key: Key, value: Value)

  datatype Answer = Failed(error: int) | NotFound | Found(value: int)

  datatype CacheEntry = CacheEntry(signature: nat, value: Value)
  datatype Queue = Queue(callbacks: seq<CallbackId>, signature: nat, dequeueing: bool)

  /** What has happened, in order: a queue was seeded with the value to answer it with, by a
      write or with what the database has; a value was written; a cached value was cleared, as
      the database had written it; or a reader was answered. */
  datatype LogEntry =
    | Seeded(key: Key, value: Value, byWrite: bool)
    | Written(key: Key, value: Value)
    | Cleared(key: Key)
    | Answered(id: CallbackId, key: Key, answer: Answer)

  function AnswerWith(value: Value): Answer {
    if value.Some? then Found(value.value) else NotFound
  }

  /** The last thing that has happened to the cached value of a key. */
  function Latest(log: seq<LogEntry>, key: Key): (e: Option<LogEntry>)
    ensures e.Some? ==> !e.value.Answered? && e.value.key == key
  {
    if log == [] then None
    else
      var e := log[|log|-1];
      if !e.Answered? && e.key == key then Some(e) else Latest(log[..|log|-1], key)
  }

  /** The value with which the cache answers after `e`. */
  predicate Gives(e: Option<LogEntry>, value: Value) {
    e.Some? && (e.value.Seeded? || e.value.Written?) && e.value.value == value
  }

  /** Every reader that gets no error sees what was last seeded or written for its key, and
      nobody is answered twice.  A write seeds a queue at once, with its own value. */
  ghost predicate IsIsolated(log: seq<LogEntry>) {
    && (forall i :: 0 <= i < |log| && log[i].Answered? && !log[i].answer.Failed? ==>
          var latest := Latest(log[..i], log[i].key);
          latest.Some? && (latest.value.Seeded? || latest.value.Written?)
          && log[i].answer == AnswerWith(latest.value.value))
    && (forall i, j :: 0 <= i < j < |log| && log[i].Answered? && log[j].Answered? ==> log[i].id != log[j].id)
    && (forall i :: 0 <= i < |log| && log[i].Seeded? && log[i].byWrite ==>
          i > 0 && log[i-1] == Written(log[i].key, log[i].value))
  }

  /** What is in the cache, by what has happened.  A key whose queue is being answered is in
      it, with the signature of its seed exactly if nothing has been written since; any other
      key exactly if the last thing that has happened to it is a write. */
  ghost predicate IsCurrent(cache: map<Key, CacheEntry>, seed: map<Key, nat>, log: seq<LogEntry>) {
    && (forall k :: k in cache ==> Gives(Latest(log, k), cache[k].value))
    && (forall k :: k in seed ==> k in cache && (cache[k].signature == seed[k] <==> Latest(log, k).value.Seeded?))
    && (forall k :: k !in seed ==> (k in cache <==> EndsWritten(log, k)))
  }

  /** The last thing that has happened to the key is a write. */
  predicate EndsWritten(log: seq<LogEntry>, key: Key) {
    Latest(log, key).Some? && Latest(log, key).value.Written?
  }

  // ---------------------------------------------------------------------------
  // Since a seed

  /** Since position `from` the queue of the key is being answered, and the value may have
      been written by its readers. */
  ghost predicate IsSeededAt(log: seq<LogEntry>, from: nat, key: Key) {
    && from < |log| && log[from].Seeded? && log[from].key == key
    && forall n :: from < n < |log| && (log[n].Seeded? || log[n].Cleared?) ==> log[n].key != key
  }

  /** The value last written before position `end` since the seed at `from`, or else the seed. */
  function SeenAfter(log: seq<LogEntry>, from: nat, end: nat, key: Key): Value
    requires from < end <= |log| && log[from].Seeded?
  {
    if end == from + 1 then log[from].value
    else if log[end-1].Written? && log[end-1].key == key then log[end-1].value
    else SeenAfter(log, from, end - 1, key)
  }

  ghost predicate WrittenSince(log: seq<LogEntry>, from: nat, key: Key) {
    exists n :: from <= n < |log| && log[n].Written? && log[n].key == key
  }

  lemma {:induction false} SeenIsLatest(log: seq<LogEntry>, from: nat, key: Key)
    requires IsSeededAt(log, from, key)
    ensures Gives(Latest(log, key), SeenAfter(log, from, |log|, key))
    ensures EndsWritten(log, key) <==> WrittenSince(log, from + 1, key)
    decreases |log|
  {
    var n := |log| - 1;
    if from < n {
      SeenIsLatest(log[..n], from, key);
      SeenInPrefix(log[..n], log, from, n, key);
    }
  }

  /** Without a write since the seed, its readers see the seed. */
  lemma {:induction false} SeedIsSeen(log: seq<LogEntry>, from: nat, end: nat, key: Key)
    requires from < end <= |log| && log[from].Seeded? && !WrittenSince(log, from + 1, key)
    ensures SeenAfter(log, from, end, key) == log[from].value
    decreases end
  {
    if from + 1 < end {
      SeedIsSeen(log, from, end - 1, key);
    }
  }

  lemma {:induction false} SeenInPrefix(a: seq<LogEntry>, b: seq<LogEntry>, from: nat, end: nat, key: Key)
    requires a <= b && from < end <= |a| && a[from].Seeded?
    ensures SeenAfter(a, from, end, key) == SeenAfter(b, from, end, key)
    decreases end
  {
    if from + 1 < end {
      SeenInPrefix(a, b, from, end - 1, key);
    }
  }

  /** A reader has got the error; or, if there is none, the value last written since the seed
      at `from`, or else the seed. */
  ghost predicate IsAnswered(log: seq<LogEntry>, from: nat, id: CallbackId, key: Key, err: Option<int>) {
    && from < |log| && log[from].Seeded?
    && exists i :: from < i < |log| && log[i].Answered? && log[i].id == id && log[i].key == key
                   && log[i].answer == if err.Some? then Failed(err.value)
                                       else AnswerWith(SeenAfter(log, from, i, key))
  }

  lemma StillAnswered(a: seq<LogEntry>, b: seq<LogEntry>, from: nat, key: Key, err: Option<int>)
    requires a <= b
    ensures forall id :: IsAnswered(a, from, id, key, err) ==> IsAnswered(b, from, id, key, err)
  {
    hide SeenAfter;
    forall id | IsAnswered(a, from, id, key, err)
      ensures IsAnswered(b, from, id, key, err)
    {
      var i :| from < i < |a| && a[i].Answered? && a[i].id == id && a[i].key == key
               && a[i].answer == if err.Some? then Failed(err.value) else AnswerWith(SeenAfter(a, from, i, key));
      SeenInPrefix(a, b, from, i, key);
      assert b[i] == a[i];
    }
  }

  /** The reader that is answered next sees what was last written since the seed. */
  lemma AnswerLogged(a: seq<LogEntry>, b: seq<LogEntry>, from: nat, id: CallbackId, key: Key,
                     value: Value, err: Option<int>)
    requires IsSeededAt(a, from, key) && (err == None ==> Gives(Latest(a, key), value))
    requires a + [Answered(id, key, if err.Some? then Failed(err.value) else AnswerWith(value))] <= b
    ensures IsAnswered(b, from, id, key, err)
  {
    hide SeenAfter;
    hide Latest;
    SeenIsLatest(a, from, key);
    SeenInPrefix(a, b, from, |a|, key);
    assert b[|a|] == (a + [Answered(id, key, if err.Some? then Failed(err.value) else AnswerWith(value))])[|a|];
  }

  /** From position `position[k]` on, the readers in a queue wait; each waits in one place. */
  ghost predicate AreQueued(queue: map<Key, Queue>, position: map<Key, nat>, waiting: map<CallbackId, (Key, nat)>) {
    && queue.Keys == position.Keys
    && (forall k :: k in queue ==>
          position[k] <= |queue[k].callbacks| && (!queue[k].dequeueing ==> position[k] == 0))
    && (forall k, i: nat :: k in queue && position[k] <= i < |queue[k].callbacks| ==>
          queue[k].callbacks[i] in waiting && waiting[queue[k].callbacks[i]] == (k, i))
    && (forall id :: id in waiting ==> IsPlaced(queue, position, id, waiting[id]))
  }

  predicate IsPlaced(queue: map<Key, Queue>, position: map<Key, nat>, id: CallbackId, place: (Key, nat)) {
    && place.0 in queue && place.0 in position
    && position[place.0] <= place.1 < |queue[place.0].callbacks|
    && queue[place.0].callbacks[place.1] == id
  }

  lemma NextAnswered(queue: map<Key, Queue>, position: map<Key, nat>, waiting: map<CallbackId, (Key, nat)>, k: Key)
    requires AreQueued(queue, position, waiting)
    requires k in queue && queue[k].dequeueing && position[k] < |queue[k].callbacks|
    ensures var id := queue[k].callbacks[position[k]];
            id in waiting && k in position && AreQueued(queue, position[k := position[k] + 1], waiting - {id})
  {
    var id := queue[k].callbacks[position[k]];
    assert waiting[id] == (k, position[k]);
  }

  /** The readers answered are those in the log, and none of them waits. */
  ghost predicate AreAnswered(log: seq<LogEntry>, answered: set<CallbackId>, waiting: map<CallbackId, (Key, nat)>) {
    && answered !! waiting.Keys
    && (forall e :: e in log && e.Answered? ==> e.id in answered)
    && (forall id :: id in answered ==> IsLogged(log, id))
  }

  ghost predicate IsLogged(log: seq<LogEntry>, id: CallbackId) {
    exists i :: 0 <= i < |log| && log[i].Answered? && log[i].id == id
  }

  lemma OneMoreAnswered(log: seq<LogEntry>, answered: set<CallbackId>, waiting: map<CallbackId, (Key, nat)>,
                        id: CallbackId, key: Key, answer: Answer)
    requires AreAnswered(log, answered, waiting)
    ensures AreAnswered(log + [Answered(id, key, answer)], answered + {id}, waiting - {id})
  {
    var log' := log + [Answered(id, key, answer)];
    assert log'[|log|].id == id;
    forall d | d in answered
      ensures IsLogged(log', d)
    {
      var i :| 0 <= i < |log| && log[i].Answered? && log[i].id == d;
      assert log'[i] == log[i];
    }
  }

  /** An entry that answers nobody. */
  lemma SameAnswered(log: seq<LogEntry>, answered: set<CallbackId>, waiting: map<CallbackId, (Key, nat)>, e: LogEntry)
    requires AreAnswered(log, answered, waiting) && !e.Answered?
    ensures AreAnswered(log + [e], answered, waiting)
  {
    forall d | d in answered
      ensures IsLogged(log + [e], d)
    {
      var i :| 0 <= i < |log| && log[i].Answered? && log[i].id == d;
      assert (log + [e])[i] == log[i];
    }
  }

  lemma {:induction false} LatestIs(log: seq<LogEntry>, i: nat, j: nat, key: Key)
    requires i < j <= |log| && !log[i].Answered? && log[i].key == key
    requires forall n :: i < n < j && !log[n].Answered? ==> log[n].key != key
    ensures Latest(log[..j], key) == Some(log[i])
    decreases j
  {
    assert log[..j][..j-1] == log[..j-1];
    if i < j - 1 {
      LatestIs(log, i, j - 1, key);
    }
  }

  /** A reader sees what was last seeded or written for its key before. */
  lemma NextReaderSees(log: seq<LogEntry>, i: nat, j: nat)
    requires IsIsolated(log) && i < j < |log| && (log[i].Seeded? || log[i].Written?)
    requires log[j].Answered? && !log[j].answer.Failed? && log[j].key == log[i].key
    requires forall n :: i < n < j && !log[n].Answered? ==> log[n].key != log[i].key
    ensures log[j].answer == match log[i].value
                             case Some(v) => Found(v)
                             case None => NotFound
  {
    hide Latest;
    LatestIs(log, i, j, log[i].key);
  }

  predicate WritesKey(entries: seq<Write>, key: Key) {
    exists i :: 0 <= i < |entries| && entries[i].key == key
  }

  lemma NoKeys(entries: seq<Write>)
    ensures forall k :: !WritesKey(entries[..0], k)
  {
  }

  lemma OneMoreKey(entries: seq<Write>, i: nat)
    requires i < |entries|
    ensures forall k :: WritesKey(entries[..i+1], k) <==> WritesKey(entries[..i], k) || k == entries[i].key
  {
    forall k | WritesKey(entries[..i], k) || k == entries[i].key
      ensures WritesKey(entries[..i+1], k)
    {
      if k == entries[i].key {
        assert entries[..i+1][i].key == k;
      } else {
        var j :| 0 <= j < i && entries[..i][j].key == k;
        assert entries[..i+1][j].key == k;
      }
    }
    forall k | WritesKey(entries[..i+1], k) && k != entries[i].key
      ensures WritesKey(entries[..i], k)
    {
      var j :| 0 <= j <= i && entries[..i+1][j].key == k;
      assert entries[..i][j].key == k;
    }
  }

  lemma ReaderAppended(queue: map<Key, Queue>, position: map<Key, nat>, waiting: map<CallbackId, (Key, nat)>,
                       k: Key, id: CallbackId)
    requires AreQueued(queue, position, waiting) && id !in waiting && k in queue
    ensures AreQueued(queue[k := queue[k].(callbacks := queue[k].callbacks + [id])], position,
                      waiting[id := (k, |queue[k].callbacks|)])
  {
    forall d | d in waiting
      ensures IsPlaced(queue, position, d, waiting[d])
    {
    }
  }

  lemma QueueCreated(queue: map<Key, Queue>, position: map<Key, nat>, waiting: map<CallbackId, (Key, nat)>,
                     k: Key, id: CallbackId, signature: nat)
    requires AreQueued(queue, position, waiting) && id !in waiting && k !in queue
    ensures AreQueued(queue[k := Queue([id], signature, false)], position[k := 0], waiting[id := (k, 0)])
  {
    forall d | d in waiting
      ensures IsPlaced(queue, position, d, waiting[d])
    {
    }
  }

  // ---------------------------------------------------------------------------
  // Signatures

  /** Signatures come from the counter; an old get never has the signature of a newer queue on
      its key. */
  ghost predicate AreSigned(cache: map<Key, CacheEntry>, queue: map<Key, Queue>, seed: map<Key, nat>, counter: nat,
                            pendingGets: set<(Key, nat)>, pendingWrites: map<nat, seq<Write>>) {
    && (forall k :: k in cache ==> cache[k].signature < counter)
    && (forall s :: s in pendingWrites ==> s < counter)
    && (forall g :: g in pendingGets ==>
          g.1 < counter || (g.1 == counter && g.0 in queue && queue[g.0].signature == counter))
    && (forall k :: k in queue ==>
          && queue[k].signature <= counter
          && (if queue[k].dequeueing then k in cache && queue[k].signature < counter
              else (k, queue[k].signature) in pendingGets))
    && (forall k :: k in seed <==> k in queue && queue[k].dequeueing)
    && (forall k :: k in seed ==> seed[k] < counter)
  }

  lemma SignedWrite(cache: map<Key, CacheEntry>, queue: map<Key, Queue>, seed: map<Key, nat>, counter: nat,
                    pendingGets: set<(Key, nat)>, pendingWrites: map<nat, seq<Write>>, key: Key, e: CacheEntry)
    requires AreSigned(cache, queue, seed, counter, pendingGets, pendingWrites)
    requires e.signature < counter
    ensures AreSigned(cache[key := e], queue, seed, counter, pendingGets, pendingWrites)
  {
  }

  lemma SignedSeed(cache: map<Key, CacheEntry>, queue: map<Key, Queue>, seed: map<Key, nat>, counter: nat,
                   pendingGets: set<(Key, nat)>, pendingWrites: map<nat, seq<Write>>, key: Key, value: Value)
    requires AreSigned(cache, queue, seed, counter, pendingGets, pendingWrites)
    requires key in queue && !queue[key].dequeueing
    ensures key !in seed
    ensures AreSigned(cache[key := CacheEntry(counter, value)], queue[key := queue[key].(dequeueing := true)],
                      seed[key := counter], counter + 1, pendingGets, pendingWrites)
  {
  }

  lemma SignedUnlock(cache: map<Key, CacheEntry>, queue: map<Key, Queue>, seed: map<Key, nat>, counter: nat,
                     pendingGets: set<(Key, nat)>, pendingWrites: map<nat, seq<Write>>, key: Key)
    requires AreSigned(cache, queue, seed, counter, pendingGets, pendingWrites)
    requires key in seed
    ensures AreSigned(cache, queue - {key}, seed - {key}, counter, pendingGets, pendingWrites)
    ensures AreSigned(cache - {key}, queue - {key}, seed - {key}, counter, pendingGets, pendingWrites)
  {
  }

  lemma SignedClear(cache: map<Key, CacheEntry>, queue: map<Key, Queue>, seed: map<Key, nat>, counter: nat,
                    pendingGets: set<(Key, nat)>, pendingWrites: map<nat, seq<Write>>, key: Key)
    requires AreSigned(cache, queue, seed, counter, pendingGets, pendingWrites)
    requires key in queue ==> !queue[key].dequeueing
    ensures key !in seed
    ensures AreSigned(cache - {key}, queue, seed, counter, pendingGets, pendingWrites)
  {
  }

  lemma SignedOpen(cache: map<Key, CacheEntry>, queue: map<Key, Queue>, seed: map<Key, nat>, counter: nat,
                   pendingGets: set<(Key, nat)>, pendingWrites: map<nat, seq<Write>>, key: Key, id: CallbackId)
    requires AreSigned(cache, queue, seed, counter, pendingGets, pendingWrites)
    requires key !in queue
    ensures (key, counter) !in pendingGets
    ensures AreSigned(cache, queue[key := Queue([id], counter, false)], seed, counter,
                      pendingGets + {(key, counter)}, pendingWrites)
  {
  }

  lemma SignedJoin(cache: map<Key, CacheEntry>, queue: map<Key, Queue>, seed: map<Key, nat>, counter: nat,
                   pendingGets: set<(Key, nat)>, pendingWrites: map<nat, seq<Write>>, key: Key, id: CallbackId)
    requires AreSigned(cache, queue, seed, counter, pendingGets, pendingWrites)
    requires key in queue && !queue[key].dequeueing
    ensures AreSigned(cache, queue[key := queue[key].(callbacks := queue[key].callbacks + [id])], seed, counter,
                      pendingGets, pendingWrites)
  {
  }

  // ---------------------------------------------------------------------------
  // What happens while readers are answered

  /** What a reader does at once when it is answered: it writes, and asks again. */
  datatype Action = WriteAct(entries: seq<Write>) | GetAct(key: Key, id: CallbackId)

  type React = (CallbackId, Answer) -> seq<Action>

  /** Who asks for whom: none for a reader that is not asked for in the middle of an answer. */
  type Parent = CallbackId -> Option<CallbackId>

  /** Every callback is a new one: it belongs to the answer in which it is asked for; and
      there are only so many. */
  ghost predicate IsFamily(react: React, parent: Parent, universe: set<CallbackId>) {
    forall id: CallbackId, answer: Answer {:trigger react(id, answer)} ::
      AreChildren(react(id, answer), id, parent, universe)
  }

  ghost predicate AreChildren(actions: seq<Action>, id: CallbackId, parent: Parent, universe: set<CallbackId>) {
    && (forall i :: 0 <= i < |actions| && actions[i].GetAct? ==>
          parent(actions[i].id) == Some(id) && actions[i].id in universe)
    && (forall i, j :: 0 <= i < j < |actions| && actions[i].GetAct? && actions[j].GetAct? ==>
          actions[i].id != actions[j].id)
  }

  ghost predicate IsKnown(s: Snapshot, id: CallbackId) {
    id in s.answered || id in s.waiting
  }

  /** Who is known has been asked for by someone who has been answered. */
  ghost predicate AreKnown(answered: set<CallbackId>, waiting: map<CallbackId, (Key, nat)>,
                           parent: Parent, universe: set<CallbackId>) {
    forall id :: id in answered || id in waiting ==>
      id in universe && (parent(id).Some? ==> parent(id).value in answered)
  }

  /** The part of the state that the order of answers is about. */
  datatype Snapshot = Snapshot(
    queue: map<Key, Queue>, seed: map<Key, nat>, position: map<Key, nat>, waiting: map<CallbackId, (Key, nat)>,
    answered: set<CallbackId>, counter: nat, pendingGets: set<(Key, nat)>,
    pendingWrites: map<nat, seq<Write>>, log: seq<LogEntry>)

  /** Queues being answered stay, but for those in `moved` where they are; no others are being
      answered afterwards, and none is seeded again. */
  ghost predicate QueuesFollow(b: Snapshot, a: Snapshot, moved: set<Key>) {
    && (forall k :: k in a.queue && a.queue[k].dequeueing ==> k in b.queue && b.queue[k] == a.queue[k])
    && (forall k :: k in b.queue && b.queue[k].dequeueing ==> k in a.queue && a.queue[k].dequeueing)
    && (forall k :: k in b.queue && b.queue[k].dequeueing && k !in moved ==>
          k in a.position && k in b.position && b.position[k] == a.position[k])
    && b.seed == a.seed
    && (forall n :: |a.log| <= n < |b.log| && (b.log[n].Seeded? || b.log[n].Cleared?) ==> !IsLocked(a, b.log[n].key))
  }

  /** What the database has been asked for is still being waited for; new requests have new
      signatures. */
  ghost predicate RequestsFollow(b: Snapshot, a: Snapshot) {
    && a.counter <= b.counter && a.log <= b.log
    && (forall g :: g in a.pendingGets ==> g in b.pendingGets)
    && (forall g :: g in b.pendingGets && g !in a.pendingGets ==> a.counter <= g.1)
    && (forall n :: n in a.pendingWrites ==> n in b.pendingWrites && b.pendingWrites[n] == a.pendingWrites[n])
    && (forall n :: n in b.pendingWrites && n !in a.pendingWrites ==> a.counter <= n)
  }

  /** Whoever waits still does, in the same place, or has been answered; and only `asked` and
      those asked for by someone answered in between are new. */
  ghost predicate ReadersFollow(parent: Parent, b: Snapshot, a: Snapshot, asked: set<CallbackId>) {
    && a.answered <= b.answered
    && (forall id :: id in a.waiting ==> id in b.answered || (id in b.waiting && b.waiting[id] == a.waiting[id]))
    && (forall id :: IsKnown(b, id) && !IsKnown(a, id) ==> id in asked || IsAskedBetween(parent, b, a, id))
  }

  /** What answering readers leaves as it was. */
  ghost predicate Follows(parent: Parent, b: Snapshot, a: Snapshot, moved: set<Key>, asked: set<CallbackId>) {
    QueuesFollow(b, a, moved) && RequestsFollow(b, a) && ReadersFollow(parent, b, a, asked)
  }

  ghost predicate IsAskedBetween(parent: Parent, b: Snapshot, a: Snapshot, id: CallbackId) {
    parent(id).Some? && parent(id).value in b.answered && parent(id).value !in a.answered
  }

  lemma FollowsItself(parent: Parent, a: Snapshot)
    requires a.queue.Keys == a.position.Keys
    ensures forall moved, asked :: Follows(parent, a, a, moved, asked)
  {
  }

  lemma FollowsOn(parent: Parent, c: Snapshot, b: Snapshot, a: Snapshot, moved: set<Key>, asked: set<CallbackId>)
    requires Follows(parent, c, b, moved, asked) && Follows(parent, b, a, moved, asked)
    ensures Follows(parent, c, a, moved, asked)
  {
    hide QueuesFollow;
    QueuesOn(c, b, a, moved);
    forall id | IsKnown(c, id) && !IsKnown(a, id)
      ensures id in asked || IsAskedBetween(parent, c, a, id)
    {
      assert IsKnown(b, id) || !IsKnown(b, id);
    }
  }

  lemma FollowsGrows(parent: Parent, b: Snapshot, a: Snapshot, moved: set<Key>, asked: set<CallbackId>)
    requires Follows(parent, b, a, moved, asked)
    ensures a.answered <= b.answered && a.log <= b.log && a.counter <= b.counter && b.seed == a.seed
    ensures forall id :: id in a.waiting ==> id in b.answered || (id in b.waiting && b.waiting[id] == a.waiting[id])
  {
  }

  lemma FollowsLocked(parent: Parent, b: Snapshot, a: Snapshot, key: Key, asked: set<CallbackId>)
    requires Follows(parent, b, a, {}, asked) && key in a.queue && a.queue[key].dequeueing
    ensures key in b.queue && b.queue[key] == a.queue[key]
    ensures key in a.position && key in b.position && b.position[key] == a.position[key]
  {
  }

  /** Whoever is not known and has been asked for by someone answered before stays unknown. */
  lemma StaysUnknown(parent: Parent, b: Snapshot, a: Snapshot, moved: set<Key>, asked: set<CallbackId>, id: CallbackId)
    requires Follows(parent, b, a, moved, asked) && !IsKnown(a, id) && id !in asked
    requires parent(id).Some? && parent(id).value in a.answered
    ensures !IsKnown(b, id)
  {
  }

  lemma Counted(parent: Parent, a: Snapshot, b: Snapshot)
    requires a.queue.Keys == a.position.Keys && a.counter <= b.counter && a.log <= b.log
    requires forall n :: |a.log| <= n < |b.log| ==> b.log[n].Written?
    requires b == a.(counter := b.counter, log := b.log)
    ensures Follows(parent, b, a, {}, {})
  {
  }

  lemma OneAnswered(parent: Parent, a: Snapshot, b: Snapshot, id: CallbackId, key: Key)
    requires a.queue.Keys == a.position.Keys && b.position.Keys == a.position.Keys
    requires forall k :: k in a.position && k != key ==> b.position[k] == a.position[k]
    requires b == a.(position := b.position, answered := b.answered, waiting := b.waiting, log := b.log)
    requires b.answered == a.answered + {id} && b.waiting == a.waiting - {id} && id in a.waiting
    requires a.log <= b.log && forall n :: |a.log| <= n < |b.log| ==> b.log[n].Answered?
    ensures Follows(parent, b, a, {key}, {})
  {
  }

  /** A reader is answered at once. */
  lemma AnsweredAtOnce(parent: Parent, a: Snapshot, b: Snapshot, id: CallbackId)
    requires a.queue.Keys == a.position.Keys && !IsKnown(a, id)
    requires b == a.(answered := a.answered + {id}, log := b.log)
    requires a.log <= b.log && forall n :: |a.log| <= n < |b.log| ==> b.log[n].Answered?
    ensures Follows(parent, b, a, {}, {id})
  {
  }

  /** A batch under its own signature is to be written. */
  lemma WriteStarted(parent: Parent, b: Snapshot, c: Snapshot, a: Snapshot, signature: nat, entries: seq<Write>)
    requires Follows(parent, b, a.(counter := a.counter + 1), {}, {})
    requires signature == a.counter && signature !in a.pendingWrites
    requires c == b.(pendingWrites := b.pendingWrites[signature := entries])
    ensures Follows(parent, c, a, {}, {})
  {
    assert forall id :: IsKnown(c, id) <==> IsKnown(b, id);
  }

  /** From before a queue is locked to after it has been removed. */
  lemma Dequeued(parent: Parent, before: Snapshot, locked: Snapshot, last: Snapshot, after: Snapshot,
                 key: Key, e: LogEntry)
    requires e.Seeded? && e.key == key
    requires key in before.queue && !before.queue[key].dequeueing && key !in before.seed
    requires locked == before.(queue := before.queue[key := before.queue[key].(dequeueing := true)],
                               counter := before.counter + 1, log := before.log + [e],
                               seed := before.seed[key := before.counter])
    requires Follows(parent, last, locked, {key}, {})
    requires after == last.(queue := last.queue - {key}, position := last.position - {key}, seed := last.seed - {key})
    ensures Follows(parent, after, before, {}, {})
  {
    hide QueuesFollow;
    QueuesDequeued(before, locked, last, after, key, e);
    forall id | IsKnown(after, id) && !IsKnown(before, id)
      ensures IsAskedBetween(parent, after, before, id)
    {
      assert IsKnown(last, id) && !IsKnown(locked, id);
    }
  }

  lemma QueuesDequeued(before: Snapshot, locked: Snapshot, last: Snapshot, after: Snapshot, key: Key, e: LogEntry)
    requires e.Seeded? && e.key == key
    requires key in before.queue && !before.queue[key].dequeueing && key !in before.seed
    requires locked == before.(queue := before.queue[key := before.queue[key].(dequeueing := true)],
                               counter := before.counter + 1, log := before.log + [e],
                               seed := before.seed[key := before.counter])
    requires QueuesFollow(last, locked, {key}) && locked.log <= last.log
    requires after == last.(queue := last.queue - {key}, position := last.position - {key}, seed := last.seed - {key})
    ensures QueuesFollow(after, before, {})
  {
    assert after.seed == before.seed;
    forall n | |before.log| <= n < |after.log| && (after.log[n].Seeded? || after.log[n].Cleared?)
      ensures !IsLocked(before, after.log[n].key)
    {
      if n == |before.log| {
        assert after.log[n] == locked.log[n];
      } else {
        assert !IsLocked(locked, after.log[n].key);
      }
    }
    forall k | k in before.queue && before.queue[k].dequeueing
      ensures k in after.queue && after.queue[k] == before.queue[k]
    {
      assert k != key && k in locked.queue;
    }
    forall k | k in after.queue && after.queue[k].dequeueing
      ensures k in before.queue && before.queue[k].dequeueing
    {
      assert k != key && k in last.queue && k in locked.queue;
    }
  }

  lemma FollowsWider(parent: Parent, b: Snapshot, a: Snapshot, asked: set<CallbackId>, more: set<CallbackId>)
    requires Follows(parent, b, a, {}, asked) && asked <= more
    ensures Follows(parent, b, a, {}, more)
  {
  }

  /** Those asked for by someone answered in between need not be named. */
  lemma FollowsAsked(parent: Parent, c: Snapshot, b: Snapshot, a: Snapshot,
                     moved: set<Key>, asked: set<CallbackId>, children: set<CallbackId>, id: CallbackId)
    requires Follows(parent, c, b, {}, children) && Follows(parent, b, a, moved, asked)
    requires id in b.answered && id !in a.answered && forall d :: d in children ==> parent(d) == Some(id)
    ensures Follows(parent, c, a, moved, asked)
  {
    hide QueuesFollow;
    QueuesOn(c, b, a, moved);
    forall d | IsKnown(c, d) && !IsKnown(a, d)
      ensures d in asked || IsAskedBetween(parent, c, a, d)
    {
      assert IsKnown(b, d) || !IsKnown(b, d);
    }
  }

  lemma QueuesOn(c: Snapshot, b: Snapshot, a: Snapshot, moved: set<Key>)
    requires a.log <= b.log <= c.log && QueuesFollow(b, a, moved)
    ensures QueuesFollow(c, b, moved) || QueuesFollow(c, b, {}) ==> QueuesFollow(c, a, moved)
  {
  }

  /** A reader that starts to wait. */
  lemma Enqueued(parent: Parent, a: Snapshot, b: Snapshot, key: Key, id: CallbackId)
    requires a.queue.Keys == a.position.Keys && key in b.queue && !b.queue[key].dequeueing
    requires key in a.queue ==> !a.queue[key].dequeueing
    requires id in b.waiting && !IsKnown(a, id) && b.waiting == a.waiting[id := b.waiting[id]]
    requires b.position == if key in a.position then a.position else a.position[key := 0]
    requires b == a.(queue := a.queue[key := b.queue[key]], waiting := b.waiting, position := b.position,
                     pendingGets := b.pendingGets)
    requires b.pendingGets == a.pendingGets || b.pendingGets == a.pendingGets + {(key, a.counter)}
    ensures Follows(parent, b, a, {}, {id})
  {
  }

  lemma Placed(queue: map<Key, Queue>, position: map<Key, nat>, waiting: map<CallbackId, (Key, nat)>, id: CallbackId)
    requires AreQueued(queue, position, waiting) && id in waiting
    ensures waiting[id].0 in queue && id in queue[waiting[id].0].callbacks
  {
    assert IsPlaced(queue, position, id, waiting[id]);
  }

  lemma SamePositions(queue: map<Key, Queue>, position: map<Key, nat>, waiting: map<CallbackId, (Key, nat)>)
    requires AreQueued(queue, position, waiting)
    ensures queue.Keys == position.Keys
  {
  }

  lemma QueueLocked(queue: map<Key, Queue>, position: map<Key, nat>, waiting: map<CallbackId, (Key, nat)>, k: Key)
    requires AreQueued(queue, position, waiting) && k in queue && !queue[k].dequeueing
    ensures k in position && position[k] == 0
    ensures AreQueued(queue[k := queue[k].(dequeueing := true)], position, waiting)
  {
    forall id | id in waiting
      ensures IsPlaced(queue[k := queue[k].(dequeueing := true)], position, id, waiting[id])
    {
      assert IsPlaced(queue, position, id, waiting[id]);
    }
  }

  lemma QueueRemoved(queue: map<Key, Queue>, position: map<Key, nat>, waiting: map<CallbackId, (Key, nat)>, k: Key)
    requires AreQueued(queue, position, waiting)
    requires k in queue && k in position && position[k] == |queue[k].callbacks|
    ensures AreQueued(queue - {k}, position - {k}, waiting)
  {
    forall id | id in waiting
      ensures IsPlaced(queue - {k}, position - {k}, id, waiting[id])
    {
      assert IsPlaced(queue, position, id, waiting[id]);
    }
  }

  /** The value has been put in the cache since, and whoever waited for it is answered, unless
      the readers of its key were already being answered. */
  ghost predicate TakesEffect(w: Write, b: Snapshot, a: Snapshot) {
    && a.log <= b.log && Written(w.key, w.value) in b.log[|a.log|..]
    && (!IsLocked(a, w.key) ==> forall id :: id in a.waiting && a.waiting[id].0 == w.key ==> id in b.answered)
  }

  lemma OneTakesEffect(w: Write, c: Snapshot, b: Snapshot, a: Snapshot)
    requires b.log == a.log + [Written(w.key, w.value)] && b.log <= c.log
    requires !IsLocked(a, w.key) ==> forall id :: id in a.waiting && a.waiting[id].0 == w.key ==> id in c.answered
    ensures TakesEffect(w, c, a)
  {
    assert c.log[|a.log|..][0] == b.log[|a.log|];
  }

  predicate IsLocked(s: Snapshot, key: Key) {
    key in s.queue && s.queue[key].dequeueing
  }

  /** Exactly when a value is in the cache after it has been written: the last thing that has
      happened to its key since is a write, and not the seed for waiting readers, or these are
      still being answered. */
  ghost predicate StaysCached(key: Key, b: Snapshot, a: Snapshot) {
    IsLocked(a, key) || (a.log <= b.log && EndsWritten(b.log[|a.log|..], key))
  }

  lemma {:induction false} LatestOfRest(log: seq<LogEntry>, n: nat, key: Key, value: Value)
    requires n <= |log| && Written(key, value) in log[n..]
    ensures Latest(log[n..], key).Some? && Latest(log, key) == Latest(log[n..], key)
    decreases |log|
  {
    var e := log[|log|-1];
    assert log[n..][|log|-1-n] == e;
    if e.Answered? || e.key != key {
      var i :| 0 <= i < |log| - n && log[n..][i] == Written(key, value);
      assert log[..|log|-1][n..][i] == Written(key, value);
      LatestOfRest(log[..|log|-1], n, key, value);
      assert log[n..][..|log|-n-1] == log[..|log|-1][n..];
    }
  }

  lemma StaysSeeded(parent: Parent, b: Snapshot, a: Snapshot, from: nat, key: Key,
                    moved: set<Key>, asked: set<CallbackId>)
    requires IsSeededAt(a.log, from, key) && IsLocked(a, key) && Follows(parent, b, a, moved, asked)
    ensures IsSeededAt(b.log, from, key)
  {
    forall n | from < n < |b.log| && (b.log[n].Seeded? || b.log[n].Cleared?)
      ensures b.log[n].key != key
    {
      assert n < |a.log| ==> b.log[n] == a.log[n];
    }
  }

  lemma EffectStays(parent: Parent, c: Snapshot, b: Snapshot, a: Snapshot)
    requires Follows(parent, c, b, {}, {}) && Follows(parent, b, a, {}, {})
    ensures forall w :: TakesEffect(w, b, a) || TakesEffect(w, c, b) ==> TakesEffect(w, c, a)
  {
    var since := |b.log| - |a.log|;
    assert c.log[|a.log|..][since..] == c.log[|b.log|..];
    assert c.log[|a.log|..][..since] == b.log[|a.log|..];
    forall w | TakesEffect(w, b, a) || TakesEffect(w, c, b)
      ensures TakesEffect(w, c, a)
    {
      assert IsLocked(b, w.key) ==> IsLocked(a, w.key);
    }
  }

  // ---------------------------------------------------------------------------
  // Nobody is lost

  ghost predicate AreAskedFor(actions: seq<Action>, s: Snapshot) {
    forall a :: a in actions && a.GetAct? ==> IsKnown(s, a.id)
  }

  /** Whoever the readers that have been answered since have asked for is known. */
  ghost predicate Served(react: React, b: Snapshot, a: Snapshot) {
    forall n :: |a.log| <= n < |b.log| && b.log[n].Answered? ==> AreAskedFor(react(b.log[n].id, b.log[n].answer), b)
  }

  /** Some reader writes the key, whatever it is answered. */
  ghost predicate IsWrittenByReaders(react: React, key: Key) {
    exists id, answer, i :: 0 <= i < |react(id, answer)| && react(id, answer)[i].WriteAct?
                            && WritesKey(react(id, answer)[i].entries, key)
  }

  /** Nothing but keys of `own`, and those that readers write, has been written since. */
  ghost predicate WritesOf(react: React, b: Snapshot, a: Snapshot, own: set<Key>) {
    forall n :: |a.log| <= n < |b.log| && b.log[n].Written? ==>
      b.log[n].key in own || IsWrittenByReaders(react, b.log[n].key)
  }

  function KeysOf(entries: seq<Write>): set<Key> {
    set w | w in entries :: w.key
  }

  lemma WritesOn(react: React, c: Snapshot, b: Snapshot, a: Snapshot, own: set<Key>)
    requires WritesOf(react, c, b, own) && WritesOf(react, b, a, own) && b.log <= c.log
    ensures WritesOf(react, c, a, own)
  {
    hide IsWrittenByReaders;
    forall n | |a.log| <= n < |c.log| && c.log[n].Written?
      ensures c.log[n].key in own || IsWrittenByReaders(react, c.log[n].key)
    {
      if n < |b.log| {
        assert c.log[n] == b.log[n];
      }
    }
  }

  lemma WritesMore(react: React, b: Snapshot, a: Snapshot, own: set<Key>, more: set<Key>)
    requires WritesOf(react, b, a, own) && own <= more
    ensures WritesOf(react, b, a, more)
  {
  }

  lemma ReaderWrites(react: React, b: Snapshot, a: Snapshot, id: CallbackId, answer: Answer, i: nat)
    requires i < |react(id, answer)| && react(id, answer)[i].WriteAct?
    requires WritesOf(react, b, a, KeysOf(react(id, answer)[i].entries))
    ensures WritesOf(react, b, a, {})
  {
    var entries := react(id, answer)[i].entries;
    forall k | k in KeysOf(entries)
      ensures IsWrittenByReaders(react, k)
    {
      var w :| w in entries && w.key == k;
      var j :| 0 <= j < |entries| && entries[j] == w;
      assert WritesKey(entries, k);
    }
  }

  lemma NothingWritten(react: React, b: Snapshot, a: Snapshot, own: set<Key>)
    requires forall n :: |a.log| <= n < |b.log| && b.log[n].Written? ==> b.log[n].key in own
    ensures WritesOf(react, b, a, own)
  {
  }

  /** Without another write of a key, its last seed is the last thing that happens to it. */
  lemma EndsAlike(react: React, b: Snapshot, a: Snapshot, own: set<Key>, key: Key)
    requires WritesOf(react, b, a, own) && a.log <= b.log && key !in own && !IsWrittenByReaders(react, key)
    ensures EndsWritten(b.log, key) ==> EndsWritten(a.log, key)
  {
    hide IsWrittenByReaders;
    LatestOfPrefix(a.log, b.log, key);
  }

  lemma SeedStays(react: React, b: Snapshot, a: Snapshot, key: Key)
    requires WritesOf(react, b, a, {}) && !IsWrittenByReaders(react, key)
    requires a.log <= b.log && |a.log| < |b.log| && b.log[|a.log|].Seeded? && b.log[|a.log|].key == key
    ensures !EndsWritten(b.log, key)
  {
    hide IsWrittenByReaders;
    LatestOfPrefix(b.log[..|a.log|+1], b.log, key);
  }

  lemma {:induction false} LatestOfPrefix(a: seq<LogEntry>, b: seq<LogEntry>, key: Key)
    requires a <= b && forall n :: |a| <= n < |b| && b[n].Written? ==> b[n].key != key
    ensures EndsWritten(b, key) ==> EndsWritten(a, key)
    decreases |b|
  {
    if |a| < |b| {
      LatestOfPrefix(a, b[..|b|-1], key);
    } else {
      assert a == b;
    }
  }

  lemma StaysKnown(parent: Parent, b: Snapshot, a: Snapshot, moved: set<Key>, asked: set<CallbackId>)
    requires Follows(parent, b, a, moved, asked)
    ensures forall id :: IsKnown(a, id) ==> IsKnown(b, id)
  {
  }

  lemma ServedOn(react: React, parent: Parent, c: Snapshot, b: Snapshot, a: Snapshot,
                 moved: set<Key>, asked: set<CallbackId>)
    requires Served(react, c, b) && Served(react, b, a) && Follows(parent, c, b, moved, asked)
    ensures Served(react, c, a)
  {
    FollowsGrows(parent, c, b, moved, asked);
    StaysKnown(parent, c, b, moved, asked);
    hide Follows;
    hide IsKnown;
    forall n | |a.log| <= n < |c.log| && c.log[n].Answered?
      ensures AreAskedFor(react(c.log[n].id, c.log[n].answer), c)
    {
      if n < |b.log| {
        assert c.log[n] == b.log[n];
      }
    }
  }

  /** A reader has been answered, and then has done what it does. */
  lemma ServedToo(react: React, c: Snapshot, b: Snapshot, a: Snapshot, id: CallbackId, key: Key, answer: Answer)
    requires b.log == a.log + [Answered(id, key, answer)] && b.log <= c.log
    requires Served(react, c, b) && WritesOf(react, c, b, {}) && AreAskedFor(react(id, answer), c)
    ensures Served(react, c, a) && WritesOf(react, c, a, {})
  {
    hide AreAskedFor;
    assert c.log[|a.log|] == b.log[|a.log|];
  }

  /** What the log and the readers do not tell makes no difference. */
  lemma ServedSame(react: React, c: Snapshot, b: Snapshot, a: Snapshot, a': Snapshot, own: set<Key>)
    requires Served(react, b, a) && a'.log == a.log
    requires c.log == b.log && c.answered == b.answered && c.waiting == b.waiting
    ensures Served(react, c, a')
    ensures WritesOf(react, b, a, own) ==> WritesOf(react, c, a', own)
  {
  }

  lemma DequeuedServed(react: React, before: Snapshot, locked: Snapshot, last: Snapshot, after: Snapshot,
                       key: Key, e: LogEntry)
    requires e.Seeded? && e.key == key
    requires Served(react, last, locked) && WritesOf(react, last, locked, {})
    requires locked.log == before.log + [e] && locked.log <= last.log
    requires after.log == last.log && after.answered == last.answered && after.waiting == last.waiting
    ensures Served(react, after, before) && WritesOf(react, after, before, {})
  {
    assert last.log[|before.log|] == locked.log[|before.log|];
  }

  lemma NobodyAnswered(react: React, b: Snapshot, a: Snapshot)
    requires forall n :: |a.log| <= n < |b.log| ==> !b.log[n].Answered?
    ensures Served(react, b, a)
  {
  }
}
