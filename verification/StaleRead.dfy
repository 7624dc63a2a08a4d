/**
  A read that is older than a write: a write that releases waiting readers is dropped from the
  cache when these are done, although the database is still to write it, and so the next
  reader gets what the database has.
 */
module StaleReads {
  import opened Keys
  import opened WriteCacheStates
  import opened WriteCaches

  /** The master entry of an object and two of its versions. */
  const MASTER: Key := "master"
  const NEW_VERSION: Key := "new"
  const OLD_VERSION: Key := "old"

  const PLACEHOLDER := 1
  const NEWEST := 2

  /** Who deletes the old version, and who repairs the master entry. */
  const DELETER: CallbackId := 0
  const REPAIRER: CallbackId := 1

  /** The deleter deletes its version once it has read the master entry. */
  function DeleteOldVersion(id: CallbackId, answer: Answer): seq<Action> {
    if id == DELETER then [WriteAct([Write(OLD_VERSION, None)])] else []
  }

  function NobodyAsks(id: CallbackId): Option<CallbackId> {
    None
  }

  /** A new version in the master entry, and under its own key. */
  function PutNewest(): seq<Write> {
    [Write(MASTER, Some(NEWEST)), Write(NEW_VERSION, Some(NEWEST))]
  }

  /** The reader gets the placeholder after the newest version has been written in its place,
      and while the database is still to write it. */
  ghost predicate IsStale(cache: WriteCache, signature: nat, id: CallbackId)
    reads cache
  {
    && signature in cache.pendingWrites && cache.pendingWrites[signature] == PutNewest()
    && exists i, j :: 0 <= i < j < |cache.log| && cache.log[i] == Written(MASTER, Some(NEWEST))
                      && cache.log[j] == Answered(id, MASTER, Found(PLACEHOLDER))
  }

  lemma OnlyTheOldIsWritten()
    ensures !IsWrittenByReaders(DeleteOldVersion, MASTER)
    ensures IsFamily(DeleteOldVersion, NobodyAsks, {DELETER, REPAIRER})
  {
  }

  lemma RepairerIsNew(cache: WriteCache, waiting: Snapshot, start: Snapshot)
    requires cache.parent == NobodyAsks && start.answered == {} && start.waiting == map[]
    requires cache.Keeps(waiting, start, {DELETER}) && cache.Keeps(cache.Now(), waiting, {})
    ensures REPAIRER !in cache.answered && REPAIRER !in cache.waiting
  {
    assert !IsKnown(start, REPAIRER);
    cache.KeepsOn(cache.Now(), waiting, start, {}, {DELETER});
    assert !IsKnown(cache.Now(), REPAIRER);
  }

  lemma MasterIsWrittenOnce(cache: WriteCache)
    requires cache.react == DeleteOldVersion
    ensures cache.IsOnlyWrite(PutNewest())
  {
    OnlyTheOldIsWritten();
    assert PutNewest()[1..] == [Write(NEW_VERSION, Some(NEWEST))];
  }

  lemma NewestIsLogged(b: Snapshot, a: Snapshot)
    requires TakesEffect(PutNewest()[0], b, a)
    ensures exists i :: 0 <= i < |b.log| && b.log[i] == Written(MASTER, Some(NEWEST))
  {
    var i :| 0 <= i < |b.log| - |a.log| && b.log[|a.log|..][i] == Written(MASTER, Some(NEWEST));
    assert b.log[|a.log|+i] == Written(MASTER, Some(NEWEST));
  }

  method ReadStale() returns (cache: WriteCache, signature: nat)
    ensures fresh(cache) && cache.Valid() && cache.Quiet() && IsStale(cache, signature, REPAIRER)
  {
    hide Latest;
    hide IsIsolated;
    hide IsCurrent;
    hide AreQueued;
    hide AreAnswered;
    hide AreKnown;
    hide AreSigned;
    hide IsFamily;
    hide QueuesFollow;
    hide RequestsFollow;
    hide ReadersFollow;
    hide Served;
    hide WritesOf;
    hide IsAnswered;
    hide TakesEffect;
    hide IsWrittenByReaders;
    hide WrittenSince;
    OnlyTheOldIsWritten();
    cache := new WriteCache(DeleteOldVersion, NobodyAsks, {DELETER, REPAIRER});
    ghost var start := cache.Now();
    cache.Get(MASTER, DELETER);
    ghost var waiting := cache.Now();
    cache.WaitingIsPending(DELETER);
    MasterIsWrittenOnce(cache);
    signature := cache.Batch(PutNewest());
    ghost var written := cache.Now();
    assert PutNewest()[0] in PutNewest();
    NewestIsLogged(written, waiting);
    RepairerIsNew(cache, waiting, start);
    cache.Get(MASTER, REPAIRER);
    cache.WaitingIsPending(REPAIRER);
    ghost var before := cache.Now();
    var asked := cache.queue[MASTER].signature;
    cache.OnDatabaseAnswer(MASTER, asked, None, Some(PLACEHOLDER));
    AnsweredWithSeed(cache, before, REPAIRER);
    ghost var i :| 0 <= i < |written.log| && written.log[i] == Written(MASTER, Some(NEWEST));
    assert cache.log[i] == written.log[i];
  }

  lemma AnsweredWithSeed(cache: WriteCache, a: Snapshot, id: CallbackId)
    requires a.log <= cache.log && WritesOf(cache.react, cache.Now(), a, {})
    requires !IsWrittenByReaders(cache.react, MASTER)
    requires |a.log| < |cache.log| && cache.log[|a.log|] == Seeded(MASTER, Some(PLACEHOLDER), false)
    requires IsAnswered(cache.log, |a.log|, id, MASTER, None)
    ensures exists j :: |a.log| < j < |cache.log| && cache.log[j] == Answered(id, MASTER, Found(PLACEHOLDER))
  {
    hide IsWrittenByReaders;
    var log, from := cache.log, |a.log|;
    var j :| from < j < |log| && log[j].Answered? && log[j].id == id && log[j].key == MASTER
             && log[j].answer == AnswerWith(SeenAfter(log, from, j, MASTER));
    SeedIsSeen(log, from, j, MASTER);
  }
}
