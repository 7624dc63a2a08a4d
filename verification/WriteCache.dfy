/**
  Isolation of updates that read a value, compute, and write: concurrent gets of a key wait
  in a queue, and are answered one after another; a reader may write, and ask again, at once
  when it is answered, and the next reader then sees what it wrote, before the database does.
 */
module WriteCaches {
  import opened Keys
  import opened WriteCacheStates

  class WriteCache {
    var cache: map<Key, CacheEntry>
    var queue: map<Key, Queue>
    var counter: nat
    /** Gets and writes that the database has still to answer. */
    var pendingGets: set<(Key, nat)>
    var pendingWrites: map<nat, seq<Write>>
    var log: seq<LogEntry>
    const react: React

    /** Where the readers not yet answered wait, how far each queue is answered, and who has
        been answered. */
    ghost var waiting: map<CallbackId, (Key, nat)>
    ghost var position: map<Key, nat>
    ghost var answered: set<CallbackId>
    /** The signatures with which the queues being answered have been seeded. */
    ghost var seed: map<Key, nat>
    /** Who asks for whom, and all the callbacks there will ever be. */
    ghost const parent: Parent
    ghost const universe: set<CallbackId>

    ghost predicate Valid()
      reads this
    {
      && AreSigned(cache, queue, seed, counter, pendingGets, pendingWrites)
      && AreQueued(queue, position, waiting)
      && AreAnswered(log, answered, waiting) && IsIsolated(log)
      && AreKnown(answered, waiting, parent, universe) && IsFamily(react, parent, universe)
      && IsCurrent(cache, seed, log)
    }

    constructor (react: React, ghost parent: Parent, ghost universe: set<CallbackId>)
      requires IsFamily(react, parent, universe)
      ensures Valid() && queue == map[] && cache == map[] && log == [] && answered == {} && waiting == map[]
      ensures this.react == react && this.parent == parent && this.universe == universe
    {
      this.react := react;
      this.parent := parent;
      this.universe := universe;
      cache, queue, counter := map[], map[], 0;
      pendingGets, pendingWrites, log := {}, map[], [];
      waiting, position, answered, seed := map[], map[], {}, map[];
    }

    // -------------------------------------------------------------------------
    // Single steps

    lemma LatestCached(e: LogEntry, k: Key)
      ensures Latest(log + [e], k) == if !e.Answered? && e.key == k then Some(e) else Latest(log, k)
    {
      assert (log + [e])[..|log|] == log;
    }

    lemma StaysIsolated(e: LogEntry)
      requires IsIsolated(log)
      requires e.Answered? ==> forall d :: d in log && d.Answered? ==> d.id != e.id
      requires e.Answered? && !e.answer.Failed? ==>
                 exists value :: Gives(Latest(log, e.key), value) && e.answer == AnswerWith(value)
      requires e.Seeded? && e.byWrite ==> log != [] && log[|log|-1] == Written(e.key, e.value)
      ensures IsIsolated(log + [e])
    {
      hide Latest;
      var log' := log + [e];
      forall i | 0 <= i < |log'|
        ensures log'[..i] == log[..i]
      {
      }
    }

    /** What the cache holds stays what the log says. */
    lemma StaysCurrent(e: LogEntry, signature: nat)
      requires IsCurrent(cache, seed, log) && (e.Seeded? || e.Written?)
      requires if e.Seeded? then e.key !in seed else e.key in seed ==> seed[e.key] != signature
      ensures IsCurrent(cache[e.key := CacheEntry(signature, e.value)],
                        if e.Seeded? then seed[e.key := signature] else seed, log + [e])
    {
      hide Latest;
      forall k
        ensures Latest(log + [e], k) == if e.key == k then Some(e) else Latest(log, k)
      {
        LatestCached(e, k);
      }
    }

    /** Puts a value that is written in the cache. */
    method PutInCache(key: Key, signature: nat, value: Value)
      requires Valid() && signature < counter && (key in seed ==> seed[key] != signature)
      modifies this`cache, this`log
      ensures Valid() && cache == old(cache)[key := CacheEntry(signature, value)]
      ensures log == old(log) + [Written(key, value)]
    {
      hide Latest;
      hide IsIsolated;
      hide IsCurrent;
      hide AreQueued;
      hide AreAnswered;
      hide AreKnown;
      hide IsFamily;
      hide AreSigned;
      SignedWrite(cache, queue, seed, counter, pendingGets, pendingWrites, key, CacheEntry(signature, value));
      var e := Written(key, value);
      StaysIsolated(e);
      StaysCurrent(e, signature);
      SameAnswered(log, answered, waiting, e);
      cache := cache[key := CacheEntry(signature, value)];
      log := log + [e];
    }

    /** The next reader of a queue is answered. */
    method AnswerReader(id: CallbackId, key: Key, answer: Answer)
      requires Valid() && key in queue && queue[key].dequeueing
      requires position[key] < |queue[key].callbacks| && queue[key].callbacks[position[key]] == id
      requires !answer.Failed? ==> key in cache && answer == AnswerWith(cache[key].value)
      modifies this`log, this`waiting, this`position, this`answered
      ensures Valid()
      ensures id in old(waiting) && waiting == old(waiting) - {id} && answered == old(answered) + {id}
      ensures position == old(position)[key := old(position)[key] + 1]
      ensures log == old(log) + [Answered(id, key, answer)]
    {
      hide Latest;
      hide IsIsolated;
      hide IsCurrent;
      hide AreQueued;
      hide AreSigned;
      hide Gives;
      var e := Answered(id, key, answer);
      hide AreKnown;
      hide IsFamily;
      NextAnswered(queue, position, waiting, key);
      AnsweredIsKnown(id);
      AnswerIsCurrent(e);
      OneMoreAnswered(log, answered, waiting, id, key, answer);
      log := log + [e];
      waiting := waiting - {id};
      position := position[key := position[key] + 1];
      answered := answered + {id};
    }

    lemma AnsweredIsKnown(id: CallbackId)
      requires AreKnown(answered, waiting, parent, universe) && id in waiting
      ensures AreKnown(answered + {id}, waiting - {id}, parent, universe)
    {
    }

    /** An answer with what is in the cache is isolated, and leaves the cache as it is. */
    lemma AnswerIsCurrent(e: LogEntry)
      requires IsCurrent(cache, seed, log) && IsIsolated(log) && AreAnswered(log, answered, waiting)
      requires e.Answered? && e.id !in answered
      requires !e.answer.Failed? ==> e.key in cache && e.answer == AnswerWith(cache[e.key].value)
      ensures IsCurrent(cache, seed, log + [e]) && IsIsolated(log + [e])
    {
      hide Latest;
      hide IsIsolated;
      StaysIsolated(e);
      forall k
        ensures Latest(log + [e], k) == Latest(log, k)
      {
        LatestCached(e, k);
      }
    }

    // -------------------------------------------------------------------------
    // Answering a queue

    ghost function Now(): Snapshot
      reads this
    {
      Snapshot(queue, seed, position, waiting, answered, counter, pendingGets, pendingWrites, log)
    }

    /** Locks a queue and seeds the cache with the value to answer with. */
    method StartDequeueing(key: Key, value: Value, byWrite: bool)
      requires Valid() && key in queue && !queue[key].dequeueing
      requires byWrite ==> log != [] && log[|log|-1] == Written(key, value)
      modifies this`cache, this`queue, this`counter, this`log, this`seed
      ensures Valid() && counter == old(counter) + 1
      ensures queue == old(queue)[key := old(queue)[key].(dequeueing := true)]
      ensures cache == old(cache)[key := CacheEntry(old(counter), value)]
      ensures log == old(log) + [Seeded(key, value, byWrite)] && IsSeededAt(log, |old(log)|, key)
      ensures key !in old(seed) && seed == old(seed)[key := old(counter)]
      ensures key in position && position[key] == 0
    {
      hide Latest;
      hide IsIsolated;
      hide IsCurrent;
      hide AreAnswered;
      hide AreQueued;
      hide AreKnown;
      hide IsFamily;
      hide AreSigned;
      SignedSeed(cache, queue, seed, counter, pendingGets, pendingWrites, key, value);
      var e := Seeded(key, value, byWrite);
      StaysIsolated(e);
      StaysCurrent(e, counter);
      SameAnswered(log, answered, waiting, e);
      QueueLocked(queue, position, waiting, key);
      cache := cache[key := CacheEntry(counter, value)];
      seed := seed[key := counter];
      counter := counter + 1;
      log := log + [e];
      queue := queue[key := queue[key].(dequeueing := true)];
    }

    /** Removes an answered queue, and the cached value if nobody has written since. */
    method EndDequeueing(key: Key, dequeueSignature: nat)
      requires Valid() && key in queue && queue[key].dequeueing
      requires key in position && position[key] == |queue[key].callbacks|
      requires key in seed && seed[key] == dequeueSignature
      modifies this`cache, this`queue, this`position, this`seed
      ensures Valid() && queue == old(queue) - {key} && position == old(position) - {key} && seed == old(seed) - {key}
      ensures cache == if key in old(cache) && old(cache)[key].signature == dequeueSignature
                       then old(cache) - {key} else old(cache)
    {
      hide Latest;
      hide IsIsolated;
      hide AreAnswered;
      hide AreQueued;
      hide AreKnown;
      hide IsFamily;
      hide IsCurrent;
      hide AreSigned;
      SignedUnlock(cache, queue, seed, counter, pendingGets, pendingWrites, key);
      QueueRemoved(queue, position, waiting, key);
      UnlockedIsCurrent(key);
      queue := queue - {key};
      position := position - {key};
      seed := seed - {key};
      if key in cache && cache[key].signature == dequeueSignature {
        cache := cache - {key};
      }
    }

    lemma UnlockedIsCurrent(key: Key)
      requires IsCurrent(cache, seed, log) && key in seed
      ensures key in cache
      ensures IsCurrent(if cache[key].signature == seed[key] then cache - {key} else cache, seed - {key}, log)
    {
      hide Latest;
    }

    /** The readers not answered yet, of all there will ever be. */
    ghost function Unanswered(): set<CallbackId>
      reads this`answered
    {
      universe - answered
    }

    /** What happens while readers are answered keeps the rest, loses nobody, and writes only keys of
        `own` and of readers. */
    ghost predicate Goes(b: Snapshot, a: Snapshot, moved: set<Key>, asked: set<CallbackId>, own: set<Key>) {
      Follows(parent, b, a, moved, asked) && Served(react, b, a) && WritesOf(react, b, a, own)
    }

    lemma GoesOn(c: Snapshot, b: Snapshot, a: Snapshot, moved: set<Key>, asked: set<CallbackId>, own: set<Key>)
      requires Goes(c, b, moved, asked, own) && Goes(b, a, moved, asked, own)
      ensures Goes(c, a, moved, asked, own)
    {
      hide Follows;
      hide Served;
      hide WritesOf;
      FollowsGrows(parent, c, b, moved, asked);
      WritesOn(react, c, b, a, own);
      FollowsOn(parent, c, b, a, moved, asked);
      ServedOn(react, parent, c, b, a, moved, asked);
    }

    ghost function Children(id: CallbackId): set<CallbackId> {
      set d | d in universe && parent(d) == Some(id)
    }

    /**
      Answers the readers of a queue one after another, if the answer is for this queue.
      Each may write and ask again at once, and so make others be answered before the next.
     */
    method Dequeue(key: Key, signature: Option<nat>, err: Option<int>, value: Value, force: bool)
      requires Valid() && (force ==> log != [] && log[|log|-1] == Written(key, value))
      modifies this
      ensures Valid() && Goes(Now(), old(Now()), {}, {}, {})
      ensures var released := key in old(queue) && !old(queue)[key].dequeueing
                              && (force || signature == Some(old(queue)[key].signature));
              if released then
                && key !in queue && |old(log)| < |log| && log[|old(log)|] == Seeded(key, value, force)
                && (forall id :: id in old(queue)[key].callbacks ==> IsAnswered(log, |old(log)|, id, key, err))
                && (key in cache <==> WrittenSince(log, |old(log)| + 1, key))
              else
                Now() == old(Now()) && cache == old(cache)
      decreases Unanswered(), 2
    {
      hide Latest;
      hide IsIsolated;
      hide IsCurrent;
      hide AreQueued;
      hide AreAnswered;
      hide AreKnown;
      hide IsFamily;
      hide AreSigned;
      hide Follows;
      hide Served;
      hide WritesOf;
      hide IsAnswered;
      hide IsSeededAt;
      hide WrittenSince;
      SamePositions(queue, position, waiting);
      FollowsItself(parent, Now());
      NobodyAnswered(react, Now(), Now());
      NothingWritten(react, Now(), Now(), {});
      if key !in queue || queue[key].dequeueing {
        return;
      }
      if signature != Some(queue[key].signature) && !force {
        return;
      }
      ghost var before := Now();
      var dequeueSignature := counter;
      StartDequeueing(key, value, force);
      ghost var locked := Now();
      AnswerAll(key, err, |before.log|);
      SamePositions(queue, position, waiting);
      FollowsGrows(parent, Now(), locked, {key}, {});
      ghost var last := Now();
      EndDequeueing(key, dequeueSignature);
      Dequeued(parent, before, locked, last, Now(), key, Seeded(key, value, force));
      DequeuedServed(react, before, locked, last, Now(), key, Seeded(key, value, force));
      CachedIfWritten(|before.log|, key);
    }

    /** Answers the readers of a queue that has been seeded. */
    method AnswerAll(key: Key, err: Option<int>, ghost from: nat)
      requires Valid() && key in queue && queue[key].dequeueing && IsSeededAt(log, from, key)
      requires key in position && position[key] == 0
      modifies this
      ensures Valid() && Goes(Now(), old(Now()), {key}, {}, {}) && IsSeededAt(log, from, key)
      ensures key in queue && queue[key] == old(queue)[key]
      ensures key in position && position[key] == |queue[key].callbacks|
      ensures forall id :: id in queue[key].callbacks ==> IsAnswered(log, from, id, key, err)
      decreases Unanswered(), 1
    {
      hide Latest;
      hide IsIsolated;
      hide IsCurrent;
      hide AreQueued;
      hide AreAnswered;
      hide AreKnown;
      hide IsFamily;
      hide AreSigned;
      hide Follows;
      hide Served;
      hide WritesOf;
      hide IsAnswered;
      hide IsSeededAt;
      ghost var locked := Now();
      SamePositions(queue, position, waiting);
      FollowsItself(parent, locked);
      NobodyAnswered(react, locked, locked);
      NothingWritten(react, locked, locked, {});
      var callbacks := queue[key].callbacks;
      for i := 0 to |callbacks|
        invariant Valid() && Goes(Now(), locked, {key}, {}, {}) && IsSeededAt(log, from, key)
        invariant key in queue && queue[key] == locked.queue[key]
        invariant key in position && position[key] == i
        invariant forall j :: 0 <= j < i ==> IsAnswered(log, from, callbacks[j], key, err)
      {
        FollowsGrows(parent, Now(), locked, {key}, {});
        ghost var between := Now();
        AnswerAndReact(callbacks[i], key, err, from);
        GoesOn(Now(), between, locked, {key}, {}, {});
        StillAnswered(between.log, log, from, key, err);
      }
    }

    /** An answered queue leaves a cached value if something has been written since its seed. */
    lemma CachedIfWritten(from: nat, key: Key)
      requires IsCurrent(cache, seed, log) && key !in seed && IsSeededAt(log, from, key)
      ensures key in cache <==> WrittenSince(log, from + 1, key)
    {
      hide Latest;
      SeenIsLatest(log, from, key);
    }

    /** Answers the next reader of a queue, which may write and ask again at once. */
    method AnswerAndReact(id: CallbackId, key: Key, err: Option<int>, ghost from: nat)
      requires Valid() && key in queue && queue[key].dequeueing && IsSeededAt(log, from, key)
      requires key in position && position[key] < |queue[key].callbacks| && queue[key].callbacks[position[key]] == id
      modifies this
      ensures Valid() && key in queue && queue[key] == old(queue)[key] && IsSeededAt(log, from, key)
      ensures key in position && position[key] == old(position)[key] + 1
      ensures Goes(Now(), old(Now()), {key}, {}, {})
      ensures old(log) <= log && IsAnswered(log, from, id, key, err)
      decreases Unanswered(), 0
    {
      hide Latest;
      hide IsIsolated;
      hide IsCurrent;
      hide AreQueued;
      hide AreAnswered;
      hide AreKnown;
      hide IsFamily;
      hide Follows;
      hide Served;
      hide WritesOf;
      hide IsAnswered;
      hide IsSeededAt;
      hide Gives;
      LockedIsCached(key);
      hide AreSigned;
      SamePositions(queue, position, waiting);
      ghost var before, value := Now(), cache[key].value;
      var answer := if err.Some? then Failed(err.value) else AnswerWith(cache[key].value);
      NextIsNew(id, key);
      AnswerReader(id, key, answer);
      SamePositions(queue, position, waiting);
      ghost var between := Now();
      OneAnswered(parent, before, between, id, key);
      React(id, answer);
      FollowsGrows(parent, Now(), between, {}, Children(id));
      AnswerLogged(before.log, log, from, id, key, value, err);
      FollowsLocked(parent, Now(), between, key, Children(id));
      FollowsAsked(parent, Now(), between, before, {key}, {}, Children(id), id);
      ServedToo(react, Now(), between, before, id, key, answer);
      StaysSeeded(parent, Now(), before, from, key, {key}, {});
    }

    lemma LockedIsCached(key: Key)
      requires AreSigned(cache, queue, seed, counter, pendingGets, pendingWrites)
      requires IsCurrent(cache, seed, log) && key in queue && queue[key].dequeueing
      ensures key in cache && Gives(Latest(log, key), cache[key].value)
    {
    }

    /** The next reader of a queue has not been answered, nor has it asked for anyone. */
    lemma NextIsNew(id: CallbackId, key: Key)
      requires AreQueued(queue, position, waiting) && AreAnswered(log, answered, waiting)
      requires AreKnown(answered, waiting, parent, universe)
      requires key in queue && queue[key].dequeueing && key in position
      requires position[key] < |queue[key].callbacks| && queue[key].callbacks[position[key]] == id
      ensures id in waiting && id !in answered && id in universe && NoChildKnown(id)
    {
    }

    ghost predicate NoChildKnown(id: CallbackId)
      reads this`answered, this`waiting
    {
      forall d :: parent(d) == Some(id) ==> d !in answered && d !in waiting
    }

    /** What a reader does at once when it is answered. */
    method React(id: CallbackId, answer: Answer)
      requires Valid() && id in answered && NoChildKnown(id)
      modifies this
      ensures Valid() && Goes(Now(), old(Now()), {}, Children(id), {}) && AreAskedFor(react(id, answer), Now())
      decreases Unanswered(), 6
    {
      hide Latest;
      hide IsIsolated;
      hide IsCurrent;
      hide AreQueued;
      hide AreAnswered;
      hide AreKnown;
      hide AreSigned;
      hide Follows;
      hide Served;
      hide WritesOf;
      hide IsFamily;
      ghost var before := Now();
      SamePositions(queue, position, waiting);
      FollowsItself(parent, before);
      NobodyAnswered(react, before, before);
      NothingWritten(react, before, before, {});
      var actions := react(id, answer);
      ActionsAreChildren(id, answer);
      for i := 0 to |actions|
        invariant Valid() && Goes(Now(), before, {}, Children(id), {})
        invariant forall j :: i <= j < |actions| && actions[j].GetAct? ==> !IsKnown(Now(), actions[j].id)
        invariant forall j :: 0 <= j < i && actions[j].GetAct? ==> IsKnown(Now(), actions[j].id)
      {
        ghost var between := Now();
        FollowsGrows(parent, between, before, {}, Children(id));
        match actions[i] {
          case WriteAct(entries) =>
            var _ := Batch(entries);
            OthersStayUnknown(id, actions, i, {}, between);
            ReaderWrites(react, Now(), between, id, answer, i);
            FollowsWider(parent, Now(), between, {}, Children(id));
            StaysKnown(parent, Now(), between, {}, {});
          case GetAct(key, child) =>
            GetNow(key, child);
            OthersStayUnknown(id, actions, i, {child}, between);
            FollowsWider(parent, Now(), between, {child}, Children(id));
            StaysKnown(parent, Now(), between, {}, {child});
        }
        GoesOn(Now(), between, before, {}, Children(id), {});
      }
    }

    lemma ActionsAreChildren(id: CallbackId, answer: Answer)
      requires IsFamily(react, parent, universe)
      ensures AreChildren(react(id, answer), id, parent, universe)
    {
    }

    lemma OthersStayUnknown(id: CallbackId, actions: seq<Action>, i: nat, asked: set<CallbackId>, between: Snapshot)
      requires i < |actions| && AreChildren(actions, id, parent, universe) && id in between.answered
      requires Follows(parent, Now(), between, {}, asked)
      requires asked == if actions[i].GetAct? then {actions[i].id} else {}
      requires forall j :: i <= j < |actions| && actions[j].GetAct? ==> !IsKnown(between, actions[j].id)
      ensures forall j :: i < j < |actions| && actions[j].GetAct? ==> !IsKnown(Now(), actions[j].id)
    {
      hide Follows;
      hide Served;
      hide WritesOf;
      hide IsKnown;
      forall j | i < j < |actions| && actions[j].GetAct?
        ensures !IsKnown(Now(), actions[j].id)
      {
        StaysUnknown(parent, Now(), between, {}, asked, actions[j].id);
      }
    }

    // -------------------------------------------------------------------------
    // Writes

    /** Puts the values of a batch in the cache and answers the readers that wait for them;
        the database is to write them. */
    method Batch(entries: seq<Write>) returns (signature: nat)
      requires Valid()
      modifies this
      ensures Valid() && Goes(Now(), old(Now()), {}, {}, KeysOf(entries))
      ensures signature !in old(pendingWrites) && signature in pendingWrites && pendingWrites[signature] == entries
      ensures forall w :: w in entries ==> TakesEffect(w, Now(), old(Now()))
      ensures forall w :: w in entries ==> (w.key in cache <==> StaysCached(w.key, Now(), old(Now())))
      ensures |entries| == 1 ==>
                (entries[0].key in cache
                 <==> (old(IsWaitedFor(entries[0].key)) ==> WrittenSince(log, |old(log)| + 2, entries[0].key)))
      ensures IsOnlyWrite(entries) && old(IsWaitedFor(entries[0].key)) ==> entries[0].key !in cache
      ensures old(Quiet()) ==> Quiet()
      ensures Keeps(Now(), old(Now()), {})
      decreases Unanswered(), 5
    {
      hide Latest;
      hide IsIsolated;
      hide IsCurrent;
      hide AreQueued;
      hide AreAnswered;
      hide AreKnown;
      hide IsFamily;
      hide Follows;
      hide Served;
      hide WritesOf;
      NewSignature();
      signature := CacheWrite(entries);
      ghost var before := Now();
      pendingWrites := pendingWrites[signature := entries];
      WriteStarted(parent, before, Now(), old(Now()), signature, entries);
      ServedSame(react, Now(), before, old(Now()).(counter := old(counter) + 1), old(Now()), KeysOf(entries));
      forall w | w in entries
        ensures w.key in cache <==> StaysCached(w.key, Now(), old(Now()))
      {
        CachedSince(w, old(Now()));
      }
      GoesKeeps(Now(), old(Now()), {}, KeysOf(entries));
      if old(Quiet()) {
        StaysQuiet(Now(), old(Now()), {});
      }
    }

    /** The first key is written once, and by no reader. */
    ghost predicate IsOnlyWrite(entries: seq<Write>) {
      entries != [] && entries[0].key !in KeysOf(entries[1..]) && !IsWrittenByReaders(react, entries[0].key)
    }

    /** A queue whose readers are released by a write. */
    ghost predicate IsWaitedFor(key: Key)
      reads this`queue
    {
      key in queue && !queue[key].dequeueing
    }

    lemma SeededIsGone(a: Snapshot, key: Key)
      requires Valid() && Follows(parent, Now(), a, {}, {}) && !IsLocked(a, key) && !EndsWritten(log, key)
      ensures key !in cache
    {
      hide Latest;
      hide IsIsolated;
      hide AreQueued;
      hide AreAnswered;
      hide AreKnown;
      hide IsFamily;
    }

    lemma CachedSince(w: Write, a: Snapshot)
      requires Valid() && TakesEffect(w, Now(), a) && Follows(parent, Now(), a, {}, {})
      ensures w.key in cache <==> StaysCached(w.key, Now(), a)
    {
      hide Latest;
      hide IsIsolated;
      hide AreQueued;
      hide AreAnswered;
      hide AreKnown;
      hide IsFamily;
      LatestOfRest(log, |a.log|, w.key, w.value);
    }

    lemma NewSignature()
      requires AreSigned(cache, queue, seed, counter, pendingGets, pendingWrites)
      ensures counter !in pendingWrites
    {
    }

    method TakeSignature() returns (signature: nat)
      requires Valid()
      modifies this`counter
      ensures Valid() && signature == old(counter) && counter == old(counter) + 1
      ensures forall k :: k in seed ==> seed[k] != signature
    {
      hide Latest;
      hide IsIsolated;
      hide IsCurrent;
      hide AreQueued;
      hide AreAnswered;
      signature := counter;
      counter := counter + 1;
    }

    method CacheWrite(entries: seq<Write>) returns (signature: nat)
      requires Valid()
      modifies this
      ensures Valid() && Goes(Now(), old(Now()).(counter := old(counter) + 1), {}, {}, KeysOf(entries))
      ensures signature == old(counter) < counter
      ensures forall w :: w in entries ==> TakesEffect(w, Now(), old(Now()))
      ensures |entries| == 1 ==>
                (entries[0].key in cache
                 <==> (old(IsWaitedFor(entries[0].key)) ==> WrittenSince(log, |old(log)| + 2, entries[0].key)))
      ensures IsOnlyWrite(entries) && old(IsWaitedFor(entries[0].key)) ==> entries[0].key !in cache
      decreases Unanswered(), 4
    {
      hide Latest;
      hide IsIsolated;
      hide IsCurrent;
      hide AreQueued;
      hide AreAnswered;
      hide AreKnown;
      hide IsFamily;
      hide AreSigned;
      hide Follows;
      hide Served;
      hide WritesOf;
      hide WrittenSince;
      hide EndsWritten;
      SamePositions(queue, position, waiting);
      signature := TakeSignature();
      ghost var before := Now();
      FollowsItself(parent, before);
      NobodyAnswered(react, before, before);
      NothingWritten(react, before, before, KeysOf(entries));
      for i := 0 to |entries|
        invariant Valid() && Goes(Now(), before, {}, {}, KeysOf(entries)) && signature < counter
        invariant i == 0 ==> queue == before.queue && log == before.log
        invariant i == 1 ==>
                    (entries[0].key in cache
                     <==> (old(IsWaitedFor(entries[0].key)) ==> WrittenSince(log, |before.log| + 2, entries[0].key)))
        invariant i > 0 && IsOnlyWrite(entries) && old(IsWaitedFor(entries[0].key)) ==>
                    !EndsWritten(log, entries[0].key)
        invariant forall j :: 0 <= j < i ==> TakesEffect(entries[j], Now(), before)
      {
        ghost var between := Now();
        FollowsGrows(parent, between, before, {}, {});
        WriteOne(entries[i], signature);
        if i > 0 && IsOnlyWrite(entries) {
          assert entries[1..][i-1] == entries[i];
          EndsAlike(react, Now(), between, {entries[i].key}, entries[0].key);
        }
        WritesMore(react, Now(), between, {entries[i].key}, KeysOf(entries));
        GoesOn(Now(), between, before, {}, {}, KeysOf(entries));
        EffectStays(parent, Now(), between, before);
        FollowsGrows(parent, Now(), before, {}, {});
      }
      forall w | w in entries
        ensures TakesEffect(w, Now(), before)
      {
      }
      if IsOnlyWrite(entries) && old(IsWaitedFor(entries[0].key)) {
        SeededIsGone(before, entries[0].key);
      }
    }

    /** Puts one value in the cache, and answers the readers that wait for it.  It is still in
        the cache afterwards exactly if nobody has waited, or if one of these has written. */
    method WriteOne(w: Write, signature: nat)
      requires Valid() && signature < counter && forall k :: k in seed ==> seed[k] != signature
      modifies this
      ensures Valid() && Goes(Now(), old(Now()), {}, {}, {w.key}) && counter >= old(counter)
      ensures TakesEffect(w, Now(), old(Now()))
      ensures w.key in cache <==> (old(IsWaitedFor(w.key)) ==> WrittenSince(log, |old(log)| + 2, w.key))
      ensures old(IsWaitedFor(w.key)) && !IsWrittenByReaders(react, w.key) ==> !EndsWritten(log, w.key)
      decreases Unanswered(), 3
    {
      hide Latest;
      hide IsIsolated;
      hide IsCurrent;
      hide AreQueued;
      hide AreAnswered;
      hide AreKnown;
      hide IsFamily;
      hide Follows;
      hide Served;
      hide WritesOf;
      hide IsAnswered;
      hide WrittenSince;
      hide TakesEffect;
      ghost var before := Now();
      SamePositions(queue, position, waiting);
      PutInCache(w.key, signature, w.value);
      ghost var put := Now();
      Counted(parent, before, put);
      NobodyAnswered(react, put, before);
      NothingWritten(react, put, before, {w.key});
      WaitersAreQueued(w.key);
      Dequeue(w.key, None, None, w.value, true);
      InLog(|put.log|, w.key, None);
      FollowsGrows(parent, Now(), put, {}, {});
      if old(IsWaitedFor(w.key)) && !IsWrittenByReaders(react, w.key) {
        SeedStays(react, Now(), put, w.key);
      }
      WritesMore(react, Now(), put, {}, {w.key});
      GoesOn(Now(), put, before, {}, {}, {w.key});
      OneTakesEffect(w, Now(), put, before);
    }

    lemma WaitersAreQueued(key: Key)
      requires AreQueued(queue, position, waiting)
      ensures forall id :: id in waiting && waiting[id].0 == key ==> key in queue && id in queue[key].callbacks
    {
      forall id | id in waiting && waiting[id].0 == key
        ensures key in queue && id in queue[key].callbacks
      {
        Placed(queue, position, waiting, id);
      }
    }

    lemma InLog(from: nat, key: Key, err: Option<int>)
      requires AreAnswered(log, answered, waiting)
      ensures forall id :: IsAnswered(log, from, id, key, err) ==> id in answered
    {
    }

    // -------------------------------------------------------------------------
    // Events

    /** Between events no queue is being answered. */
    ghost predicate Quiet()
      reads this`queue
    {
      forall k :: k in queue ==> !queue[k].dequeueing
    }

    /** What an event leaves: nobody is lost, and only `asked` and those asked for by someone
        answered are new. */
    ghost predicate Keeps(b: Snapshot, a: Snapshot, asked: set<CallbackId>) {
      a.log <= b.log && ReadersFollow(parent, b, a, asked) && Served(react, b, a)
    }

    lemma GoesKeeps(b: Snapshot, a: Snapshot, asked: set<CallbackId>, own: set<Key>)
      requires Goes(b, a, {}, asked, own)
      ensures Keeps(b, a, asked)
    {
      hide Served;
      hide WritesOf;
      hide ReadersFollow;
      hide QueuesFollow;
    }

    lemma KeepsSame(c: Snapshot, b: Snapshot, a: Snapshot, asked: set<CallbackId>)
      requires Keeps(b, a, asked)
      requires c.log == b.log && c.answered == b.answered && c.waiting == b.waiting
      ensures Keeps(c, a, asked)
    {
      ServedSame(react, c, b, a, a, {});
    }

    lemma KeepsOn(c: Snapshot, b: Snapshot, a: Snapshot, more: set<CallbackId>, asked: set<CallbackId>)
      requires Keeps(c, b, more) && Keeps(b, a, asked)
      ensures Keeps(c, a, asked + more)
      ensures forall id :: IsKnown(b, id) ==> IsKnown(c, id)
    {
      hide AreAskedFor;
      forall n | |a.log| <= n < |c.log| && c.log[n].Answered?
        ensures AreAskedFor(react(c.log[n].id, c.log[n].answer), c)
      {
        if n < |b.log| {
          assert c.log[n] == b.log[n];
          StillAskedFor(react(c.log[n].id, c.log[n].answer), c, b, more);
        }
      }
      forall d | IsKnown(c, d) && !IsKnown(a, d)
        ensures d in asked + more || IsAskedBetween(parent, c, a, d)
      {
        assert IsKnown(b, d) || !IsKnown(b, d);
      }
    }

    lemma StillAskedFor(actions: seq<Action>, b: Snapshot, a: Snapshot, asked: set<CallbackId>)
      requires AreAskedFor(actions, a) && ReadersFollow(parent, b, a, asked)
      ensures AreAskedFor(actions, b)
    {
    }

    /**
      A reader asks for a value, between events or in the middle of an answer: it is answered
      from the cache at once, or waits.  The first one to wait makes the database be asked,
      under a signature that no get still under way for this key has.
     */
    method GetNow(key: Key, id: CallbackId)
      requires Valid() && id in universe && id !in answered && id !in waiting
      requires parent(id).Some? ==> parent(id).value in answered
      modifies this
      ensures Valid() && Goes(Now(), old(Now()), {}, {id}, {})
      ensures key in old(cache) ==>
                id in answered && old(log) + [Answered(id, key, AnswerWith(old(cache)[key].value))] <= log
      ensures key !in old(cache) ==>
                && id in waiting && waiting[id].0 == key && log == old(log) && cache == old(cache)
                && answered == old(answered)
                && if key in old(queue) then pendingGets == old(pendingGets)
                   else (key, old(counter)) !in old(pendingGets)
                        && pendingGets == old(pendingGets) + {(key, old(counter))}
      decreases Unanswered(), 5
    {
      hide Latest;
      hide IsIsolated;
      hide IsCurrent;
      hide AreQueued;
      hide AreAnswered;
      hide IsFamily;
      hide AreSigned;
      hide Follows;
      hide Served;
      hide WritesOf;
      ghost var before := Now();
      SamePositions(queue, position, waiting);
      if key in cache {
        var answer := AnswerWith(cache[key].value);
        AnswerAtOnce(id, key, answer);
        ghost var between := Now();
        AnsweredAtOnce(parent, before, between, id);
        React(id, answer);
        FollowsGrows(parent, Now(), between, {}, Children(id));
        FollowsAsked(parent, Now(), between, before, {}, {id}, Children(id), id);
        ServedToo(react, Now(), between, before, id, key, answer);
        return;
      }
      hide AreKnown;
      NotInCache(key);
      Enqueue(key, id);
      Enqueued(parent, before, Now(), key, id);
      NobodyAnswered(react, Now(), before);
      NothingWritten(react, Now(), before, {});
    }

    lemma NotInCache(key: Key)
      requires AreSigned(cache, queue, seed, counter, pendingGets, pendingWrites) && key !in cache
      ensures key in queue ==> !queue[key].dequeueing
    {
    }

    /** A reader asks for a value, between events. */
    method Get(key: Key, id: CallbackId)
      requires Valid() && Quiet() && id in universe && id !in answered && id !in waiting && parent(id) == None
      modifies this
      ensures Valid() && Quiet() && (id in answered || id in waiting) && Keeps(Now(), old(Now()), {id})
      ensures key in old(cache) ==>
                id in answered && old(log) + [Answered(id, key, AnswerWith(old(cache)[key].value))] <= log
      ensures key !in old(cache) ==>
                id in waiting && waiting[id].0 == key && log == old(log) && answered == old(answered)
      ensures forall n :: n in old(pendingWrites) ==> n in pendingWrites && pendingWrites[n] == old(pendingWrites)[n]
    {
      hide Latest;
      hide IsIsolated;
      hide IsCurrent;
      hide AreQueued;
      hide AreAnswered;
      hide AreKnown;
      hide IsFamily;
      hide AreSigned;
      hide Follows;
      hide Served;
      hide WritesOf;
      ghost var before := Now();
      GetNow(key, id);
      StaysQuiet(Now(), before, {id});
      GoesKeeps(Now(), before, {id}, {});
    }

    /** Whoever waits has a get under way whose answer will release the queue. */
    lemma WaitingIsPending(id: CallbackId)
      requires Valid() && Quiet() && id in waiting
      ensures var key := waiting[id].0;
              && key in queue && id in queue[key].callbacks
              && (key, queue[key].signature) in pendingGets
    {
      hide Latest;
      hide IsIsolated;
      hide IsCurrent;
      assert IsPlaced(queue, position, id, waiting[id]);
    }

    lemma StaysQuiet(b: Snapshot, a: Snapshot, asked: set<CallbackId>)
      requires Follows(parent, b, a, {}, asked) && forall k :: k in a.queue ==> !a.queue[k].dequeueing
      ensures forall k :: k in b.queue ==> !b.queue[k].dequeueing
      ensures forall id :: IsKnown(a, id) ==> IsKnown(b, id)
      ensures a.answered <= b.answered && a.log <= b.log
      ensures forall g :: g in a.pendingGets ==> g in b.pendingGets
      ensures forall n :: n in a.pendingWrites ==> n in b.pendingWrites && b.pendingWrites[n] == a.pendingWrites[n]
    {
    }

    method AnswerAtOnce(id: CallbackId, key: Key, answer: Answer)
      requires Valid() && key in cache && answer == AnswerWith(cache[key].value)
      requires id in universe && id !in answered && id !in waiting
      requires parent(id).Some? ==> parent(id).value in answered
      modifies this`log, this`answered
      ensures Valid() && NoChildKnown(id)
      ensures log == old(log) + [Answered(id, key, answer)] && answered == old(answered) + {id}
    {
      hide Latest;
      hide IsIsolated;
      hide IsCurrent;
      hide AreQueued;
      hide AreSigned;
      var e := Answered(id, key, answer);
      AnswerIsCurrent(e);
      OneMoreAnswered(log, answered, waiting, id, key, answer);
      assert waiting - {id} == waiting;
      log := log + [e];
      answered := answered + {id};
    }

    /** A reader waits at the end of the queue of a key, which is opened for it if need be. */
    twostate predicate AddsReader(key: Key, id: CallbackId)
      reads this
    {
      && id !in old(waiting) && id in waiting && waiting == old(waiting)[id := waiting[id]] && waiting[id].0 == key
      && position == (if key in old(position) then old(position) else old(position)[key := 0])
      && key in queue && !queue[key].dequeueing && queue == old(queue)[key := queue[key]]
    }

    /** Waits for the value of a key. */
    method Enqueue(key: Key, id: CallbackId)
      requires Valid() && id in universe && id !in answered && id !in waiting
      requires parent(id).Some? ==> parent(id).value in answered
      requires key in queue ==> !queue[key].dequeueing
      modifies this`queue, this`pendingGets, this`waiting, this`position
      ensures Valid() && AddsReader(key, id)
      ensures if key in old(queue) then pendingGets == old(pendingGets)
              else (key, counter) !in old(pendingGets) && pendingGets == old(pendingGets) + {(key, counter)}
    {
      hide Latest;
      hide IsIsolated;
      hide IsCurrent;
      hide AreQueued;
      hide AreAnswered;
      hide AreSigned;
      if key in queue {
        Join(key, id);
      } else {
        OpenQueue(key, id);
      }
    }

    lemma WaitsToo(id: CallbackId, place: (Key, nat))
      requires AreKnown(answered, waiting, parent, universe) && AreAnswered(log, answered, waiting)
      requires id in universe && id !in answered && (parent(id).Some? ==> parent(id).value in answered)
      ensures AreKnown(answered, waiting[id := place], parent, universe)
      ensures AreAnswered(log, answered, waiting[id := place])
    {
    }

    method Join(key: Key, id: CallbackId)
      requires Valid() && id in universe && id !in answered && id !in waiting
      requires parent(id).Some? ==> parent(id).value in answered
      requires key in queue && !queue[key].dequeueing
      modifies this`queue, this`waiting
      ensures Valid() && AddsReader(key, id)
    {
      hide Latest;
      hide IsIsolated;
      hide IsCurrent;
      hide AreQueued;
      hide AreAnswered;
      hide AreKnown;
      hide IsFamily;
      hide AreSigned;
      SamePositions(queue, position, waiting);
      SignedJoin(cache, queue, seed, counter, pendingGets, pendingWrites, key, id);
      ReaderAppended(queue, position, waiting, key, id);
      WaitsToo(id, (key, |queue[key].callbacks|));
      waiting := waiting[id := (key, |queue[key].callbacks|)];
      queue := queue[key := queue[key].(callbacks := queue[key].callbacks + [id])];
    }

    method OpenQueue(key: Key, id: CallbackId)
      requires Valid() && id in universe && id !in answered && id !in waiting
      requires parent(id).Some? ==> parent(id).value in answered
      requires key !in queue
      modifies this`queue, this`pendingGets, this`waiting, this`position
      ensures Valid() && AddsReader(key, id)
      ensures (key, counter) !in old(pendingGets) && pendingGets == old(pendingGets) + {(key, counter)}
    {
      hide Latest;
      hide IsIsolated;
      hide IsCurrent;
      hide AreQueued;
      hide AreAnswered;
      hide AreKnown;
      hide IsFamily;
      hide AreSigned;
      SamePositions(queue, position, waiting);
      SignedOpen(cache, queue, seed, counter, pendingGets, pendingWrites, key, id);
      QueueCreated(queue, position, waiting, key, id, counter);
      WaitsToo(id, (key, 0));
      waiting := waiting[id := (key, 0)];
      queue := queue[key := Queue([id], counter, false)];
      position := position[key := 0];
      pendingGets := pendingGets + {(key, counter)};
    }

    /**
      The database answers a get.  The queue it was made for is answered; a newer queue on
      the same key, and everything else, stays as it is.
     */
    method OnDatabaseAnswer(key: Key, signature: nat, err: Option<int>, value: Value)
      requires Valid() && Quiet() && (key, signature) in pendingGets
      modifies this
      ensures Valid() && Quiet()
      ensures forall g :: g in old(pendingGets) && g != (key, signature) ==> g in pendingGets
      ensures (key, signature) !in pendingGets
      ensures key in old(queue) && old(queue)[key].signature == signature ==>
                && key !in queue && |old(log)| < |log| && log[|old(log)|] == Seeded(key, value, false)
                && (forall id :: id in old(queue)[key].callbacks ==> IsAnswered(log, |old(log)|, id, key, err))
                && (key in cache <==> WrittenSince(log, |old(log)| + 1, key))
      ensures key !in old(queue) || old(queue)[key].signature != signature ==>
                queue == old(queue) && cache == old(cache) && log == old(log)
      ensures Keeps(Now(), old(Now()), {}) && WritesOf(react, Now(), old(Now()), {})
      ensures forall n :: n in old(pendingWrites) ==> n in pendingWrites && pendingWrites[n] == old(pendingWrites)[n]
    {
      hide Latest;
      hide IsIsolated;
      hide IsCurrent;
      hide AreQueued;
      hide AreAnswered;
      hide AreKnown;
      hide IsFamily;
      hide Follows;
      hide Served;
      hide WritesOf;
      hide IsAnswered;
      ghost var before := Now();
      Dequeue(key, Some(signature), err, value, false);
      StaysQuiet(Now(), before, {});
      ghost var after := Now();
      GoesKeeps(after, before, {}, {});
      pendingGets := pendingGets - {(key, signature)};
      KeepsSame(Now(), after, before, {});
      ServedSame(react, Now(), after, before, before, {});
    }

    /** The database has written a batch: the cached values of this batch go, others stay. */
    method OnWritten(signature: nat)
      requires Valid() && Quiet() && signature in pendingWrites
      modifies this`cache, this`pendingWrites, this`log
      ensures Valid() && Quiet() && pendingWrites == old(pendingWrites) - {signature}
      ensures old(log) <= log && forall n :: |old(log)| <= n < |log| ==> log[n].Cleared?
      ensures forall k :: k in cache <==>
                k in old(cache)
                && !(old(cache)[k].signature == signature && WritesKey(old(pendingWrites)[signature], k))
      ensures forall k :: k in cache ==> cache[k] == old(cache)[k]
      ensures Keeps(Now(), old(Now()), {})
    {
      hide Latest;
      hide IsIsolated;
      hide IsCurrent;
      hide AreQueued;
      hide AreAnswered;
      hide AreSigned;
      hide WritesKey;
      var entries := pendingWrites[signature];
      NoKeys(entries);
      for i := 0 to |entries|
        invariant Valid() && pendingWrites == old(pendingWrites)
        invariant old(log) <= log && forall n :: |old(log)| <= n < |log| ==> log[n].Cleared?
        invariant forall k :: k in cache <==>
                    k in old(cache) && !(old(cache)[k].signature == signature && WritesKey(entries[..i], k))
        invariant forall k :: k in cache ==> cache[k] == old(cache)[k]
      {
        OneMoreKey(entries, i);
        ClearEntry(entries[i].key, signature);
      }
      assert entries[..|entries|] == entries;
      ForgetWrite(signature);
    }

    /** Only the entry that the write itself has cached is cleared. */
    method ClearEntry(key: Key, signature: nat)
      requires Valid() && (key in queue ==> !queue[key].dequeueing)
      modifies this`cache, this`log
      ensures Valid()
      ensures var own := key in old(cache) && old(cache)[key].signature == signature;
              if own then cache == old(cache) - {key} && log == old(log) + [Cleared(key)]
              else cache == old(cache) && log == old(log)
    {
      hide Latest;
      hide IsIsolated;
      hide AreQueued;
      hide AreAnswered;
      hide AreKnown;
      hide IsFamily;
      hide AreSigned;
      hide IsCurrent;
      if key in cache && cache[key].signature == signature {
        var e := Cleared(key);
        SignedClear(cache, queue, seed, counter, pendingGets, pendingWrites, key);
        StaysIsolated(e);
        SameAnswered(log, answered, waiting, e);
        ClearedIsCurrent(key);
        cache := cache - {key};
        log := log + [e];
      }
    }

    lemma ClearedIsCurrent(key: Key)
      requires IsCurrent(cache, seed, log) && key !in seed
      ensures IsCurrent(cache - {key}, seed, log + [Cleared(key)])
    {
      hide Latest;
      forall k
        ensures Latest(log + [Cleared(key)], k) == if key == k then Some(Cleared(key)) else Latest(log, k)
      {
        LatestCached(Cleared(key), k);
      }
    }

    method ForgetWrite(signature: nat)
      requires Valid()
      modifies this`pendingWrites
      ensures Valid() && pendingWrites == old(pendingWrites) - {signature}
    {
      hide Latest;
      hide IsIsolated;
      hide IsCurrent;
      hide AreQueued;
      hide AreAnswered;
      pendingWrites := pendingWrites - {signature};
    }
  }
}
