/**
  Versions of one object as they are stored: a master entry, version entries under their
  version ids, and a null entry under the empty version id.  Version ids are strings;
  newer versions have smaller ids.
 */
module Versions {
  import opened Strings
  import opened Keys

  /** The fields of a stored value that the versioning code reads or writes. */
  datatype Metadata = Metadata(
    versionId: Option<Str>, isNull: bool, isNull2: bool,
    isDeleteMarker: bool, isPHD: bool, body: int)

  /** Where a value is stored for an object; `Slot([])` of the versions is the null key. */
  datatype Slot = MasterSlot | VersionSlot(vid: Str)

  const NULL_KEY := VersionSlot([])

  datatype Op = Put(slot: Slot, value: Metadata) | Del(slot: Slot)

  type Stored = map<Slot, Metadata>

  function ApplyOp(s: Stored, op: Op): Stored {
    match op
    case Put(slot, value) => s[slot := value]
    case Del(slot) => s - {slot}
  }

  /** A batch of operations applied in order. */
  function Apply(s: Stored, ops: seq<Op>): Stored {
    if ops == [] then s else ApplyOp(Apply(s, ops[..|ops|-1]), ops[|ops|-1])
  }

  function PHDVersion(vid: Str): Metadata {
    Metadata(Some(vid), false, false, false, true, 0)
  }

  /** A version being worked on. */
  class Version {
    var version: Metadata

    constructor (version: Metadata)
      ensures this.version == version
    {
      this.version := version;
    }

    method SetVersionId(versionId: Str)
      modifies this
      ensures version == old(version).(versionId := Some(versionId))
    {
      version := version.(versionId := Some(versionId));
    }

    method SetNullVersion()
      modifies this
      ensures version == old(version).(isNull := true)
    {
      version := version.(isNull := true);
    }

    /** Null versions written by a Cloudserver that handles null keys carry both flags. */
    method SetNull2Version()
      modifies this
      ensures version == old(version).(isNull := true, isNull2 := true)
    {
      version := version.(isNull2 := true);
      version := version.(isNull := true);
    }
  }

  // ---------------------------------------------------------------------------
  // Listing the version keys of an object

  /** A raw entry after the master entry: the version id in its key, and its value. */
  datatype RawVersion = RawVersion(vid: Str, value: Metadata)

  datatype ListedVersion = ListedVersion(vid: Str, value: Metadata, isNullKey: bool)

  ghost predicate SortedRaw(raw: seq<RawVersion>) {
    forall i, j :: 0 <= i < j < |raw| ==> Lt(raw[i].vid, raw[j].vid)
  }

  ghost predicate SortedListed(listed: seq<ListedVersion>) {
    forall i, j :: 0 <= i < j < |listed| ==> Lt(listed[i].vid, listed[j].vid)
  }

  function AsListed(raw: seq<RawVersion>): (r: seq<ListedVersion>)
    ensures |r| == |raw|
    ensures forall i :: 0 <= i < |raw| ==> r[i] == ListedVersion(raw[i].vid, raw[i].value, false)
  {
    if raw == [] then [] else [ListedVersion(raw[0].vid, raw[0].value, false)] + AsListed(raw[1..])
  }

  /** The raw versions with the null version, stored first, moved to where its own version
      id puts it. */
  function Arranged(raw: seq<RawVersion>): seq<ListedVersion>
    requires HasNullKey(raw) ==> raw[0].value.versionId.Some?
  {
    if HasNullKey(raw)
    then Insert(ListedVersion(raw[0].value.versionId.value, raw[0].value, true), AsListed(raw[1..]))
    else AsListed(raw)
  }

  predicate HasNullKey(raw: seq<RawVersion>) {
    raw != [] && raw[0].vid == []
  }

  /** Before the first listed version with a greater id. */
  function Insert(v: ListedVersion, listed: seq<ListedVersion>): seq<ListedVersion> {
    if listed == [] || Lt(v.vid, listed[0].vid) then [v] + listed
    else [listed[0]] + Insert(v, listed[1..])
  }

  function Take<T>(s: seq<T>, n: nat): seq<T> {
    if n <= |s| then s[..n] else s
  }

  /** Every stored version is listed once, in the order of version ids. */
  lemma ArrangedIsSorted(raw: seq<RawVersion>)
    requires SortedRaw(raw) && (HasNullKey(raw) ==> raw[0].value.versionId.Some?)
    requires HasNullKey(raw) ==>
               forall i :: 1 <= i < |raw| ==> raw[i].vid != raw[0].value.versionId.value
    ensures SortedListed(Arranged(raw))
    ensures multiset(Arranged(raw)) ==
              if HasNullKey(raw)
              then multiset(AsListed(raw[1..]))
                   + multiset{ListedVersion(raw[0].value.versionId.value, raw[0].value, true)}
              else multiset(AsListed(raw))
  {
    hide Lt;
    if HasNullKey(raw) {
      InsertIsSorted(ListedVersion(raw[0].value.versionId.value, raw[0].value, true), AsListed(raw[1..]));
    }
  }

  lemma {:induction false} InsertIsSorted(v: ListedVersion, listed: seq<ListedVersion>)
    requires SortedListed(listed) && forall i :: 0 <= i < |listed| ==> listed[i].vid != v.vid
    ensures SortedListed(Insert(v, listed))
    ensures multiset(Insert(v, listed)) == multiset(listed) + multiset{v}
  {
    hide Lt;
    if listed != [] {
      StrictTotalOrder(v.vid, listed[0].vid, v.vid);
      if Lt(v.vid, listed[0].vid) {
        forall i | 0 <= i < |listed|
          ensures Lt(v.vid, listed[i].vid)
        {
          StrictTotalOrder(v.vid, listed[0].vid, listed[i].vid);
        }
      } else {
        InsertIsSorted(v, listed[1..]);
        var rest := Insert(v, listed[1..]);
        assert listed == [listed[0]] + listed[1..];
        forall i | 0 <= i < |rest|
          ensures Lt(listed[0].vid, rest[i].vid)
        {
          assert rest[i] in multiset(rest);
          assert rest[i] == v || rest[i] in listed[1..];
        }
      }
    }
  }

  /**
    Asking the database for two entries more than wanted is enough: one for the master
    entry and one for the null entry, which may sort anywhere.
   */
  lemma LimitedListingIsExact(raw: seq<RawVersion>, limit: nat)
    requires HasNullKey(raw) ==> raw[0].value.versionId.Some?
    ensures Take(Arranged(Take(raw, limit + 1)), limit) == Take(Arranged(raw), limit)
  {
    var part := Take(raw, limit + 1);
    if HasNullKey(raw) {
      var v := ListedVersion(raw[0].value.versionId.value, raw[0].value, true);
      assert part[1..] == Take(raw[1..], limit);
      AsListedTake(raw[1..], limit);
      InsertTake(v, AsListed(raw[1..]), limit);
    } else {
      AsListedTake(raw, limit + 1);
    }
  }

  lemma AsListedTake(raw: seq<RawVersion>, n: nat)
    ensures AsListed(Take(raw, n)) == Take(AsListed(raw), n)
  {
  }

  lemma TakeCons<T>(x: T, s: seq<T>, n: nat)
    requires n > 0
    ensures Take([x] + s, n) == [x] + Take(s, n - 1)
  {
  }

  lemma {:induction false} InsertTake(v: ListedVersion, listed: seq<ListedVersion>, n: nat)
    ensures Take(Insert(v, Take(listed, n)), n) == Take(Insert(v, listed), n)
  {
    hide Lt;
    if n > 0 && listed != [] {
      assert Take(listed, n) == [listed[0]] + Take(listed[1..], n - 1);
      if Lt(v.vid, listed[0].vid) {
        assert Insert(v, Take(listed, n)) == [v] + Take(listed, n);
      } else {
        InsertTake(v, listed[1..], n - 1);
        TakeCons(listed[0], Insert(v, listed[1..]), n);
        TakeCons(listed[0], Insert(v, Take(listed[1..], n - 1)), n);
      }
    }
  }

  /**
    Lists the version keys of an object from the raw entries the database returned: the
    master entry first, then the raw versions.
   */
  method ListVersionKeys(master: Option<Metadata>, rawVersions: seq<RawVersion>, limit: Option<nat>)
    returns (versions: seq<ListedVersion>)
    requires HasNullKey(rawVersions) ==> rawVersions[0].value.versionId.Some?
    requires master == None ==> rawVersions == []
    ensures versions == match limit
                        case None => Arranged(rawVersions)
                        case Some(n) => Take(Arranged(rawVersions), n)
  {
    hide Lt;
    hide Insert;
    hide AsListed;
    if rawVersions == [] {
      return [];
    }
    versions := AsListed(rawVersions);
    if rawVersions[0].vid == [] {
      var nullVid := rawVersions[0].value.versionId.value;
      var nullPos := 1;
      while nullPos < |versions| && !Lt(nullVid, versions[nullPos].vid)
        invariant 1 <= nullPos <= |versions|
        invariant forall j :: 1 <= j < nullPos ==> !Lt(nullVid, versions[j].vid)
      {
        nullPos := nullPos + 1;
      }
      var nullVersion := ListedVersion(nullVid, rawVersions[0].value, true);
      assert versions[1..] == AsListed(rawVersions[1..]);
      InsertAt(nullVersion, versions[1..], nullPos - 1);
      assert versions[1..][..nullPos-1] == versions[1..nullPos];
      versions := versions[1..nullPos] + [nullVersion] + versions[nullPos..];
    }
    if limit.Some? && limit.value < |versions| {
      versions := versions[..limit.value];
    }
  }

  lemma {:induction false} InsertAt(v: ListedVersion, listed: seq<ListedVersion>, n: nat)
    requires n <= |listed|
    requires forall j :: 0 <= j < n ==> !Lt(v.vid, listed[j].vid)
    requires n < |listed| ==> Lt(v.vid, listed[n].vid)
    ensures Insert(v, listed) == listed[..n] + [v] + listed[n..]
  {
    hide Lt;
    if n > 0 {
      InsertAt(v, listed[1..], n - 1);
      assert listed[1..][..n-1] == listed[1..n];
    }
  }
}
