/**
  The request processor: builds the operations of versioned puts, deletes and repairs, and
  queues concurrent get-by-listing requests.
 */
module VersioningRequestProcessors {
  import opened Strings
  import opened Keys
  import opened Versions
  import opened VersionIds
  import SpecificPut
  import MasterRepair

  /** The answer to a get: an error, a value, or nothing yet. */
  datatype Answer = Failed(code: int) | Found(value: Metadata) | GetAgain

  datatype RepairOutcome = NothingToRepair | Batch(ops: seq<Op>) | ListAgain

  const OBJ_NOT_FOUND := 404

  class VersioningRequestProcessor {
    const replicationGroupId: Str
    const generator: VersionIdGenerator
    var uidCounter: nat
    /** Requests waiting for a listing in progress, by key. */
    var queue: map<Str, seq<nat>>
    /** Answers given so far: which request, and what. */
    var answered: seq<(nat, Answer)>

    constructor (replicationGroupId: Str)
      ensures uidCounter == 0 && queue == map[] && answered == [] && fresh(generator)
      ensures this.replicationGroupId == replicationGroupId && generator.Last() == Stamp(0, 0)
    {
      this.replicationGroupId := replicationGroupId;
      uidCounter := 0;
      queue := map[];
      answered := [];
      generator := new VersionIdGenerator();
    }

    method GenerateVersionId(now: int, hexEncoding: bool) returns (versionId: Str)
      modifies this`uidCounter, generator
      ensures uidCounter == old(uidCounter) + 1
      ensures generator.Last() == NextStamp(old(generator.Last()), now)
      ensures versionId == VersionIdOf(generator.Last(), replicationGroupId,
                                       if hexEncoding then Decimal(old(uidCounter)) else [])
    {
      var info := uidCounter;
      uidCounter := uidCounter + 1;
      versionId := generator.GenerateVersionId(Decimal(info), replicationGroupId, now, hexEncoding);
    }

    /** A new version: both the master entry and a version entry, under a fresh id. */
    method ProcessNewVersionPut(value: Metadata, now: int, hexEncoding: bool)
      returns (ops: seq<Op>, versionId: Str)
      modifies this`uidCounter, generator
      ensures ops == MasterRepair.PutOps(versionId, value)
      ensures generator.Last() == NextStamp(old(generator.Last()), now)
      ensures versionId == VersionIdOf(generator.Last(), replicationGroupId,
                                       if hexEncoding then Decimal(old(uidCounter)) else [])
    {
      versionId := GenerateVersionId(now, hexEncoding);
      var versionValue := value.(versionId := Some(versionId));
      ops := [Put(MasterSlot, versionValue), Put(VersionSlot(versionId), versionValue)];
    }

    /** A put of a given version, when `data` is the master entry. */
    method ProcessVersionSpecificPut(data: Option<Metadata>, versionId: Str, isNull: bool, requestValue: Metadata)
      returns (ops: seq<Op>)
      requires versionId != []
      ensures ops == SpecificPut.SpecificPutOps(
                data, versionId, isNull, requestValue, SpecificPut.InfVid(replicationGroupId))
    {
      hide Lt;
      hide VersionIdOf;
      ops := [];
      if !isNull {
        ops := ops + [Put(VersionSlot(versionId), requestValue)];
      }
      if data == None {
        ops := ops + [Put(MasterSlot, requestValue)];
        return;
      }
      var masterVersion := new Version(data.value);
      var versionIdFromMaster := masterVersion.version.versionId;
      if versionIdFromMaster == None || Le(versionId, versionIdFromMaster.value) {
        // the version to put is not older than the master
        if masterVersion.version.isNull && !masterVersion.version.isNull2 {
          var masterNullVersionId := masterVersion.version.versionId;
          if masterNullVersionId.Some? && masterNullVersionId.value != [] {
            ops := ops + [Del(VersionSlot(masterNullVersionId.value))];
          }
        }
        if versionIdFromMaster != Some(versionId) {
          // the master is strictly older than the version to put
          var masterVersionId: Str := [];
          if masterVersion.version.isNull && versionIdFromMaster.Some? && versionIdFromMaster.value != [] {
            masterVersionId := versionIdFromMaster.value;
          } else if versionIdFromMaster == None {
            masterVersionId := SpecificPut.InfVid(replicationGroupId);
            InfVidIsNotEmpty();
            masterVersion.SetVersionId(masterVersionId);
          }
          if isNull {
            if masterVersionId == [] {
              ops := ops + [Del(NULL_KEY)];
            }
          } else if masterVersionId != [] {
            masterVersion.SetNullVersion();
            masterVersion.SetNull2Version();
            ops := ops + [Put(NULL_KEY, masterVersion.version)];
          }
        }
        ops := ops + [Put(MasterSlot, requestValue)];
      } else if isNull && !masterVersion.version.isNull {
        ops := ops + [Put(NULL_KEY, requestValue)];
        ops := ops + [Del(VersionSlot(versionId))];
      }
    }

    lemma InfVidIsNotEmpty()
      ensures SpecificPut.InfVid(replicationGroupId) != []
    {
      PowersOfTen();
      PadNumber(LENGTH_TS, MAX_TS);
    }

    /** A delete of a given version; the newest one leaves a placeholder in the master. */
    method ProcessVersionSpecificDelete(data: Option<Metadata>, versionId: Str, isNull: bool,
                                        now: int, hexEncoding: bool)
      returns (ops: seq<Op>, ghost phdVid: Str)
      modifies this`uidCounter, generator
      ensures ops == MasterRepair.DeleteOps(data, versionId, isNull, phdVid)
      ensures MasterRepair.DeletesMaster(data, versionId) ==>
                && generator.Last() == NextStamp(old(generator.Last()), now)
                && phdVid == VersionIdOf(generator.Last(), replicationGroupId,
                                         if hexEncoding then Decimal(old(uidCounter)) else [])
    {
      ops := [Del(VersionSlot(if isNull then [] else versionId))];
      phdVid := [];
      if data.Some? && (data.value.isPHD || data.value.versionId == Some(versionId)) {
        var vid := GenerateVersionId(now, hexEncoding);
        phdVid := vid;
        ops := ops + [Put(MasterSlot, PHDVersion(vid))];
      }
    }

    /** Applies a suggestion if the master entry is still the placeholder it was made for. */
    method RepairMaster(current: Option<Metadata>, hint: MasterRepair.Hint) returns (outcome: RepairOutcome)
      ensures outcome == if current == None || !current.value.isPHD then NothingToRepair
                         else if current.value == hint.phd then Batch(MasterRepair.RepairOps(hint.next))
                         else ListAgain
    {
      if current == None || !current.value.isPHD {
        return NothingToRepair;
      }
      if hint.phd == current.value {
        var ops := [];
        if hint.next.Some? {
          ops := ops + [Put(MasterSlot, hint.next.value.value)];
          if hint.next.value.isNullKey {
            ops := ops + [Del(NULL_KEY)];
          }
        } else {
          ops := ops + [Del(MasterSlot)];
        }
        return Batch(ops);
      }
      return ListAgain;
    }

    /** Queues a request; the first one for a key is to do the listing. */
    method EnqueueGet(cacheKey: Str, request: nat) returns (first: bool)
      modifies this`queue
      ensures first <==> cacheKey !in old(queue)
      ensures queue == if first then old(queue)[cacheKey := [request]]
                       else old(queue)[cacheKey := old(queue)[cacheKey] + [request]]
    {
      if cacheKey in queue {
        queue := queue[cacheKey := queue[cacheKey] + [request]];
        return false;
      }
      queue := queue[cacheKey := [request]];
      return true;
    }

    /** Gives all the requests queued for a key the same answer, in order. */
    method DequeueGet(cacheKey: Str, answer: Answer)
      modifies this`queue, this`answered
      ensures queue == old(queue) - {cacheKey}
      ensures cacheKey !in old(queue) ==> answered == old(answered)
      ensures cacheKey in old(queue) ==>
                var waiting := old(queue)[cacheKey];
                && |answered| == |old(answered)| + |waiting|
                && answered[..|old(answered)|] == old(answered)
                && forall i :: 0 <= i < |waiting| ==> answered[|old(answered)| + i] == (waiting[i], answer)
    {
      if cacheKey in queue {
        var waiting := queue[cacheKey];
        for i := 0 to |waiting|
          invariant queue == old(queue)
          invariant |answered| == |old(answered)| + i
          invariant answered[..|old(answered)|] == old(answered)
          invariant forall j :: 0 <= j < i ==> answered[|old(answered)| + j] == (waiting[j], answer)
        {
          answered := answered + [(waiting[i], answer)];
        }
        queue := queue - {cacheKey};
      }
    }

    /**
      The end of a get-by-listing: answers the waiting requests from the listed master
      entry and raw versions, and tells what to suggest to the repair.
     */
    method FinishGetByListing(cacheKey: Str, err: Option<int>,
                              master: Option<Metadata>, rawVersions: seq<RawVersion>)
      returns (hint: Option<MasterRepair.Hint>)
      requires HasNullKey(rawVersions) ==> rawVersions[0].value.versionId.Some?
      requires master == None ==> rawVersions == []
      modifies this`queue, this`answered
      ensures queue == old(queue) - {cacheKey}
      ensures hint == if err.None? && master.Some? && master.value.isPHD
                      then Some(MasterRepair.Hint(master.value, MasterRepair.Suggested(rawVersions)))
                      else None
      ensures var answer :=
                if err.Some? then Failed(err.value)
                else if master == None then Failed(OBJ_NOT_FOUND)
                else if !master.value.isPHD then Found(master.value)
                else match MasterRepair.Suggested(rawVersions)
                     case None => Failed(OBJ_NOT_FOUND)
                     case Some(v) => Found(v.value);
              cacheKey in old(queue) ==>
                var waiting := old(queue)[cacheKey];
                && |answered| == |old(answered)| + |waiting|
                && answered[..|old(answered)|] == old(answered)
                && forall i :: 0 <= i < |waiting| ==> answered[|old(answered)| + i] == (waiting[i], answer)
    {
      if err.Some? {
        DequeueGet(cacheKey, Failed(err.value));
        return None;
      }
      if master == None {
        DequeueGet(cacheKey, Failed(OBJ_NOT_FOUND));
        return None;
      }
      if !master.value.isPHD {
        DequeueGet(cacheKey, Found(master.value));
        return None;
      }
      // the database was asked for the master and two more entries
      var raw := Take(rawVersions, 2);
      var versions := ListVersionKeys(master, raw, Some(1));
      if versions == [] {
        DequeueGet(cacheKey, Failed(OBJ_NOT_FOUND));
        return Some(MasterRepair.Hint(master.value, None));
      }
      DequeueGet(cacheKey, Found(versions[0].value));
      return Some(MasterRepair.Hint(master.value, Some(versions[0])));
    }
  }
}
