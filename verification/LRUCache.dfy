/**
  A cache with a capped number of entries that evicts the least recently used one: a map
  and a doubly linked list, edited in place, proved against a sequence in order of use.
 */
module LRUCaches {
  import opened Keys

  // ---------------------------------------------------------------------------
  // Specification

  /** Keys with their values, the most recently used first. */
  type Key = string
  type Value = int
  type Recency = seq<(Key, Value)>

  predicate Has(s: Recency, k: Key) {
    exists i :: 0 <= i < |s| && s[i].0 == k
  }

  function Without(s: Recency, k: Key): (r: Recency)
    ensures |r| <= |s|
  {
    if s == [] then []
    else if s[0].0 == k then Without(s[1..], k)
    else [s[0]] + Without(s[1..], k)
  }

  function ValueOf(s: Recency, k: Key): Option<Value> {
    if s == [] then None else if s[0].0 == k then Some(s[0].1) else ValueOf(s[1..], k)
  }

  function Added(s: Recency, k: Key, v: Value, max: nat): Recency
    requires max >= 1
  {
    if Has(s, k) || |s| < max then [(k, v)] + Without(s, k) else [(k, v)] + s[..max-1]
  }

  function Used(s: Recency, k: Key): Recency {
    match ValueOf(s, k)
    case None => s
    case Some(v) => [(k, v)] + Without(s, k)
  }

  ghost predicate IsDistinct(s: Recency) {
    forall i, j :: 0 <= i < j < |s| ==> s[i].0 != s[j].0
  }

  // ---------------------------------------------------------------------------
  // The cache

  class Entry {
    const key: Key
    var value: Value
    var lruNext: Entry?
    var lruPrev: Entry?

    constructor (key: Key, value: Value)
      ensures this.key == key && this.value == value
    {
      this.key := key;
      this.value := value;
      lruNext := null;
      lruPrev := null;
    }
  }

  function Next(l: seq<Entry>, i: nat): Entry? {
    if i + 1 < |l| then l[i+1] else null
  }

  function Prev(l: seq<Entry>, i: nat): Entry? {
    if 0 < i <= |l| then l[i-1] else null
  }

  /** A list without the entry at position `n`. */
  function Rest(l: seq<Entry>, n: nat): (r: seq<Entry>)
    requires n < |l|
    ensures |r| == |l| - 1
    ensures forall i :: 0 <= i < |r| ==> r[i] == l[if i < n then i else i + 1]
  {
    l[..n] + l[n+1..]
  }

  ghost predicate NoneTwice(l: seq<Entry>) {
    forall i, j :: 0 <= i < j < |l| ==> l[i] != l[j]
  }

  lemma Elsewhere(l: seq<Entry>, n: nat)
    requires NoneTwice(l) && n < |l|
    ensures forall i :: 0 <= i < |l| && i != n ==> l[i] != l[n]
  {
  }

  lemma NoneTwiceInParts(l: seq<Entry>, n: nat, e: Entry)
    requires NoneTwice(l)
    ensures n < |l| ==> NoneTwice(Rest(l, n)) && l[n] !in Rest(l, n)
    ensures e !in l ==> NoneTwice([e] + l)
  {
  }

  /** The map holds the entries of the list. */
  ghost predicate IsMapOf(m: map<Key, Entry>, l: seq<Entry>) {
    && (forall e :: e in l ==> e.key in m && m[e.key] == e)
    && (forall k :: k in m ==> m[k] in l && m[k].key == k)
  }

  lemma InRest(l: seq<Entry>, n: nat, e: Entry)
    requires n < |l| && e in l
    ensures e == l[n] || e in Rest(l, n)
  {
    var i :| 0 <= i < |l| && l[i] == e;
    if i != n {
      assert Rest(l, n)[if i < n then i else i - 1] == e;
    }
  }

  lemma MapOfMoved(m: map<Key, Entry>, l: seq<Entry>, n: nat)
    requires n < |l| && IsMapOf(m, l)
    ensures IsMapOf(m, [l[n]] + Rest(l, n))
  {
    var l' := [l[n]] + Rest(l, n);
    forall e | e in l
      ensures e in l'
    {
      InRest(l, n, e);
    }
  }

  /** Without an entry, the map holds the other ones. */
  lemma MapOfRest(m: map<Key, Entry>, l: seq<Entry>, n: nat)
    requires n < |l| && IsMapOf(m, l) && NoneTwice(l)
    ensures IsMapOf(m - {l[n].key}, Rest(l, n))
  {
    NoneTwiceInParts(l, n, l[n]);
    hide NoneTwice;
    forall k | k in m && k != l[n].key
      ensures m[k] in Rest(l, n)
    {
      InRest(l, n, m[k]);
    }
  }

  lemma MapOfPushed(m: map<Key, Entry>, l: seq<Entry>, e: Entry)
    requires IsMapOf(m, l) && e.key !in m
    ensures IsMapOf(m[e.key := e], [e] + l) && e !in l
  {
    var m' := m[e.key := e];
    forall d | d in [e] + l
      ensures d.key in m' && m'[d.key] == d
    {
      if d != e {
        assert d in l;
      }
    }
  }

  /** The neighbours after an entry has been pushed to the front. */
  lemma PushedNeighbours(l: seq<Entry>, e: Entry, i: nat)
    requires i <= |l|
    ensures var l' := [e] + l;
            && Next(l', i) == (if i == 0 then (if l == [] then null else l[0]) else Next(l, i - 1))
            && Prev(l', i) == (if i == 0 then null else if i == 1 then e else Prev(l, i - 1))
  {
  }

  /** The neighbours after an entry has been taken out. */
  lemma SplicedNeighbours(l: seq<Entry>, n: nat, i: nat)
    requires n < |l| && i + 1 < |l|
    ensures var l' := l[..n] + l[n+1..];
            && Next(l', i) == (if i + 1 == n then Next(l, n) else Next(l, if i < n then i else i + 1))
            && Prev(l', i) == (if i == n then Prev(l, n) else Prev(l, if i < n then i else i + 1))
  {
  }

  lemma Neighbours(l: seq<Entry>, n: nat)
    requires n < |l|
    ensures Next(l, n) == (if n + 1 < |l| then l[n+1] else null) && Prev(l, n) == (if n > 0 then l[n-1] else null)
  {
  }

  class LRUCache {
    const maxEntries: nat
    var entryMap: map<Key, Entry>
    var entryCount: nat
    var lruHead: Entry?
    var lruTail: Entry?
    ghost var list: seq<Entry>

    /** The entries of `l` are linked in this order, and each is there once. */
    ghost predicate Linked(l: seq<Entry>)
      reads this`lruHead, this`lruTail, l`lruNext, l`lruPrev
    {
      && lruHead == (if l == [] then null else l[0])
      && lruTail == (if l == [] then null else l[|l|-1])
      && (forall i :: 0 <= i < |l| ==> l[i].lruNext == Next(l, i) && l[i].lruPrev == Prev(l, i))
      && NoneTwice(l)
    }

    ghost predicate Valid()
      reads this, list
    {
      Linked(list) && IsMapOf(entryMap, list) && entryCount == |list| <= maxEntries && maxEntries >= 1
    }

    ghost function ContentsOf(l: seq<Entry>): (r: Recency)
      reads l`value
      ensures |r| == |l| && forall i :: 0 <= i < |l| ==> r[i] == (l[i].key, l[i].value)
    {
      if l == [] then [] else [(l[0].key, l[0].value)] + ContentsOf(l[1..])
    }

    ghost function Contents(): Recency
      reads this, list
    {
      ContentsOf(list)
    }

    constructor (maxEntries: nat)
      requires maxEntries >= 1
      ensures Valid() && Contents() == [] && this.maxEntries == maxEntries
    {
      this.maxEntries := maxEntries;
      entryMap := map[];
      entryCount := 0;
      lruHead := null;
      lruTail := null;
      list := [];
    }

    /** Pushes an entry to the front of the linked list. */
    method LruPushEntry(entry: Entry, ghost l: seq<Entry>)
      requires Linked(l) && entry !in l
      modifies this`lruHead, this`lruTail, entry`lruNext, entry`lruPrev, l`lruPrev
      ensures Linked([entry] + l)
    {
      ghost var l' := [entry] + l;
      hide Next;
      hide Prev;
      NoneTwiceInParts(l, 0, entry);
      if l != [] {
        Elsewhere(l, 0);
      }
      hide NoneTwice;
      entry.lruNext := lruHead;
      entry.lruPrev := null;
      if lruHead != null {
        lruHead.lruPrev := entry;
      }
      lruHead := entry;
      if lruTail == null {
        lruTail := entry;
      }
      forall i | 0 <= i < |l'|
        ensures l'[i].lruNext == Next(l', i) && l'[i].lruPrev == Prev(l', i)
      {
        PushedNeighbours(l, entry, i);
        assert i > 0 ==> l'[i] == l[i-1];
      }
    }

    /** The list without the entry at `n` once its neighbours are linked to each other. */
    ghost predicate Spliced(l: seq<Entry>, n: nat)
      requires n < |l|
      reads this`lruHead, this`lruTail, l
    {
      && lruHead == (if n > 0 then l[0] else Next(l, n))
      && lruTail == (if n + 1 < |l| then l[|l|-1] else Prev(l, n))
      && forall i :: 0 <= i < |l| && i != n ==>
           && l[i].lruNext == (if i + 1 == n then Next(l, n) else Next(l, i))
           && l[i].lruPrev == (if i == n + 1 then Prev(l, n) else Prev(l, i))
    }

    lemma SplicedIsLinked(l: seq<Entry>, n: nat)
      requires NoneTwice(l) && n < |l| && Spliced(l, n)
      ensures Linked(Rest(l, n))
    {
      hide Next;
      hide Prev;
      Neighbours(l, n);
      NoneTwiceInParts(l, n, l[n]);
      hide NoneTwice;
      var l' := l[..n] + l[n+1..];
      forall i | 0 <= i < |l'|
        ensures l'[i].lruNext == Next(l', i) && l'[i].lruPrev == Prev(l', i)
      {
        SplicedNeighbours(l, n, i);
        assert l'[i] == if i < n then l[i] else l[i+1];
      }
    }

    /** Takes an entry out of the linked list. */
    method LruRemoveEntry(entry: Entry, ghost l: seq<Entry>, ghost n: nat)
      requires Linked(l) && n < |l| && l[n] == entry
      modifies this`lruHead, this`lruTail, l`lruNext, l`lruPrev
      ensures Linked(Rest(l, n))
    {
      hide Next;
      hide Prev;
      Neighbours(l, n);
      if n > 0 {
        Elsewhere(l, n - 1);
      }
      if n + 1 < |l| {
        Elsewhere(l, n + 1);
      }
      assert NoneTwice(l);
      hide NoneTwice;
      if entry.lruPrev != null {
        entry.lruPrev.lruNext := entry.lruNext;
      } else {
        lruHead := entry.lruNext;
      }
      if entry.lruNext != null {
        entry.lruNext.lruPrev := entry.lruPrev;
      } else {
        lruTail := entry.lruPrev;
      }
      SplicedIsLinked(l, n);
    }

    lemma OnceEach(l: seq<Entry>)
      requires Linked(l)
      ensures NoneTwice(l)
    {
    }

    /** Position of the entry of a key in the list. */
    ghost function PositionOf(k: Key): (n: nat)
      requires Valid() && k in entryMap
      reads this, list
      ensures n < |list| && list[n] == entryMap[k]
    {
      var n: nat :| n < |list| && list[n] == entryMap[k];
      n
    }

    /** Makes an entry the most recently used. */
    method Touch(entry: Entry, ghost n: nat)
      requires Valid() && n < |list| && list[n] == entry
      modifies this`lruHead, this`lruTail, this`list, list`lruNext, list`lruPrev
      ensures Valid() && list == [entry] + Rest(old(list), n)
    {
      hide Linked;
      hide NoneTwice;
      hide IsMapOf;
      ghost var rest := Rest(list, n);
      OnceEach(list);
      NoneTwiceInParts(list, n, entry);
      MapOfMoved(entryMap, list, n);
      LruRemoveEntry(entry, list, n);
      LruPushEntry(entry, rest);
      list := [entry] + rest;
    }

    /** Removes an entry. */
    method RemoveEntry(entry: Entry, ghost n: nat)
      requires Valid() && n < |list| && list[n] == entry
      modifies this`lruHead, this`lruTail, this`list, this`entryMap, this`entryCount, list`lruNext, list`lruPrev
      ensures Valid() && list == Rest(old(list), n)
      ensures entryMap == old(entryMap) - {entry.key} && entryCount == old(entryCount) - 1
    {
      hide Linked;
      hide NoneTwice;
      hide IsMapOf;
      ghost var rest := Rest(list, n);
      OnceEach(list);
      MapOfRest(entryMap, list, n);
      LruRemoveEntry(entry, list, n);
      entryMap := entryMap - {entry.key};
      entryCount := entryCount - 1;
      list := rest;
    }

    /** The entry of a key that is in the map, and where it is in the list. */
    lemma Found(k: Key)
      requires Valid() && k in entryMap
      ensures PositionOf(k) < |list| && list[PositionOf(k)] == entryMap[k] && entryMap[k].key == k
    {
    }

    /** The map knows the keys of the contents. */
    lemma KeysOfContents(k: Key)
      requires Valid()
      ensures k in entryMap <==> Has(Contents(), k)
      ensures IsDistinct(Contents()) && |Contents()| == entryCount
    {
      hide Next;
      hide Prev;
      var s := Contents();
      if k in entryMap {
        Found(k);
        assert s[PositionOf(k)].0 == k;
      }
      forall i, j | 0 <= i < j < |s|
        ensures s[i].0 != s[j].0
      {
        assert list[i] in list && list[j] in list;
        OnceEach(list);
      }
    }

    /** The contents with one entry moved to the front. */
    lemma ContentsOfMoved(l: seq<Entry>, n: nat, s: Recency)
      requires n < |l| && NoneTwice(l) && IsDistinct(s) && |s| == |l|
      requires forall i :: 0 <= i < |l| && i != n ==> s[i] == (l[i].key, l[i].value)
      requires s[n].0 == l[n].key
      ensures ContentsOf([l[n]] + Rest(l, n)) == [(l[n].key, l[n].value)] + Without(s, l[n].key)
      ensures ContentsOf(Rest(l, n)) == Without(s, l[n].key)
    {
      hide NoneTwice;
      hide IsDistinct;
      hide Without;
      hide Has;
      hide ContentsOf;
      hide Rest;
      WithoutIs(s, n);
      var rest, w := Rest(l, n), Without(s, l[n].key);
      forall i | 0 <= i < |rest|
        ensures ContentsOf(rest)[i] == w[i]
      {
        assert w[i] == s[if i < n then i else i + 1];
      }
      assert ContentsOf(rest) == w;
      PushedContents(l[n], rest);
    }

    lemma PushedContents(e: Entry, rest: seq<Entry>)
      ensures ContentsOf([e] + rest) == [(e.key, e.value)] + ContentsOf(rest)
    {
      assert ([e] + rest)[1..] == rest;
    }

    /** Adds or updates a value and makes it the most recently used one; if the cache is
        full, the least recently used one goes. */
    method Add(key: Key, value: Value) returns (had: bool)
      requires Valid()
      modifies this, list
      ensures Valid() && fresh(set e | e in list && e !in old(list))
      ensures had == Has(old(Contents()), key)
      ensures Contents() == Added(old(Contents()), key, value, maxEntries)
    {
      hide Linked;
      hide IsMapOf;
      hide NoneTwice;
      hide IsDistinct;
      hide ContentsOf;
      hide Without;
      hide Has;
      ghost var s := Contents();
      KeysOfContents(key);
      if !Has(s, key) {
        NotHad(s, key);
      }
      if key in entryMap {
        Found(key);
        UpdateEntry(entryMap[key], value, PositionOf(key));
        return true;
      }
      if entryCount == maxEntries {
        EvictLast();
        assert forall i :: 0 <= i < |list| ==> list[i] in old(list);
      }
      PushNew(key, value);
      return false;
    }

    /** Gets a value and makes it the most recently used one. */
    method Get(key: Key) returns (r: Option<Value>)
      requires Valid()
      modifies this`lruHead, this`lruTail, this`list, list`lruNext, list`lruPrev
      ensures Valid() && Contents() == Used(old(Contents()), key)
      ensures r == ValueOf(old(Contents()), key)
      ensures forall e :: e in list ==> e in old(list)
    {
      hide Linked;
      hide IsMapOf;
      hide NoneTwice;
      hide IsDistinct;
      hide ContentsOf;
      hide Without;
      hide Has;
      ghost var l, s := list, Contents();
      KeysOfContents(key);
      if key in entryMap {
        Found(key);
        var entry := entryMap[key];
        ghost var n := PositionOf(key);
        ValueAt(s, n);
        OnceEach(l);
        ContentsOfMoved(l, n, s);
        MovedSame(l, n);
        Touch(entry, n);
        return Some(entry.value);
      }
      NotHad(s, key);
      return None;
    }

    lemma MovedSame(l: seq<Entry>, n: nat)
      requires n < |l|
      ensures forall e :: e in [l[n]] + Rest(l, n) ==> e in l
    {
    }

    /** Removes a key. */
    method Remove(key: Key) returns (had: bool)
      requires Valid()
      modifies this`lruHead, this`lruTail, this`list, this`entryMap, this`entryCount, list`lruNext, list`lruPrev
      ensures Valid() && had == Has(old(Contents()), key)
      ensures Contents() == Without(old(Contents()), key)
      ensures forall e :: e in list ==> e in old(list)
    {
      hide Linked;
      hide IsMapOf;
      hide NoneTwice;
      hide IsDistinct;
      hide ContentsOf;
      hide Without;
      hide Has;
      ghost var l, s := list, Contents();
      KeysOfContents(key);
      if key in entryMap {
        Found(key);
        ghost var n := PositionOf(key);
        OnceEach(l);
        ContentsOfMoved(l, n, s);
        MovedSame(l, n);
        RemoveEntry(entryMap[key], n);
        assert forall e :: e in list ==> e in [l[n]] + Rest(l, n);
        return true;
      }
      NotHad(s, key);
      return false;
    }

    method Count() returns (n: nat)
      requires Valid()
      ensures n == |Contents()|
    {
      n := entryCount;
    }

    method Clear()
      requires Valid()
      modifies this
      ensures Valid() && Contents() == []
    {
      entryMap := map[];
      entryCount := 0;
      lruHead := null;
      lruTail := null;
      list := [];
    }

    /** The least recently used entry goes. */
    method EvictLast()
      requires Valid() && entryCount == maxEntries
      modifies this`lruHead, this`lruTail, this`list, this`entryMap, this`entryCount, list`lruNext, list`lruPrev
      ensures Valid() && entryCount < maxEntries
      ensures Contents() == old(Contents())[..maxEntries-1]
      ensures |list| == |old(list)| - 1 && forall e :: e in list ==> e in old(list)
      ensures forall k :: k in entryMap ==> k in old(entryMap)
    {
      hide IsMapOf;
      hide NoneTwice;
      hide Next;
      hide Prev;
      ghost var l, s := list, Contents();
      RemoveEntry(lruTail, |l| - 1);
      assert Contents() == s[..|l|-1];
    }

    method PushNew(key: Key, value: Value)
      requires Valid() && key !in entryMap && entryCount < maxEntries
      modifies this`lruHead, this`lruTail, this`list, this`entryMap, this`entryCount, list`lruPrev
      ensures Valid() && Contents() == [(key, value)] + old(Contents())
      ensures |list| == |old(list)| + 1 && list[1..] == old(list) && fresh(list[0])
    {
      hide Linked;
      hide IsMapOf;
      hide NoneTwice;
      ghost var l, s := list, Contents();
      var entry := new Entry(key, value);
      MapOfPushed(entryMap, l, entry);
      entryMap := entryMap[key := entry];
      entryCount := entryCount + 1;
      LruPushEntry(entry, l);
      list := [entry] + l;
      assert list[1..] == l;
    }

    method UpdateEntry(entry: Entry, value: Value, ghost n: nat)
      requires Valid() && n < |list| && list[n] == entry
      modifies this`lruHead, this`lruTail, this`list, list
      ensures Valid() && Contents() == [(entry.key, value)] + Without(old(Contents()), entry.key)
      ensures list == [entry] + Rest(old(list), n)
    {
      hide Linked;
      hide IsMapOf;
      hide NoneTwice;
      hide IsDistinct;
      hide Without;
      ghost var l, s := list, Contents();
      KeysOfContents(entry.key);
      OnceEach(l);
      Elsewhere(l, n);
      entry.value := value;
      Touch(entry, n);
      ContentsOfMoved(l, n, s);
    }
  }

  lemma {:induction false} ValueAt(s: Recency, n: nat)
    requires IsDistinct(s) && n < |s|
    ensures ValueOf(s, s[n].0) == Some(s[n].1)
  {
    hide IsDistinct;
    TailIsDistinct(s);
    if n > 0 {
      ValueAt(s[1..], n - 1);
    }
  }

  lemma {:induction false} NoValue(s: Recency, k: Key)
    requires forall i :: 0 <= i < |s| ==> s[i].0 != k
    ensures ValueOf(s, k) == None
  {
    if s != [] {
      NoValue(s[1..], k);
    }
  }

  lemma {:induction false} WithoutIs(s: Recency, n: nat)
    requires IsDistinct(s) && n < |s|
    ensures Without(s, s[n].0) == s[..n] + s[n+1..]
  {
    hide IsDistinct;
    hide Has;
    TailIsDistinct(s);
    if n == 0 {
      WithoutNone(s[1..], s[0].0);
    } else {
      assert s[n].0 != s[0].0;
      WithoutIs(s[1..], n - 1);
      assert s[1..][..n-1] == s[1..n] && s[1..][n..] == s[n+1..];
    }
  }

  lemma TailIsDistinct(s: Recency)
    requires IsDistinct(s) && s != []
    ensures IsDistinct(s[1..]) && forall i :: 1 <= i < |s| ==> s[i].0 != s[0].0
  {
  }

  lemma NotHad(s: Recency, k: Key)
    requires !Has(s, k)
    ensures Without(s, k) == s && ValueOf(s, k) == None
  {
    WithoutNone(s, k);
    NoValue(s, k);
  }

  lemma {:induction false} WithoutNone(s: Recency, k: Key)
    requires forall i :: 0 <= i < |s| ==> s[i].0 != k
    ensures Without(s, k) == s
  {
    if s != [] {
      WithoutNone(s[1..], k);
    }
  }

  // ---------------------------------------------------------------------------
  // What goes is what has not been used for longest

  datatype Op = AddOp(key: Key, value: Value) | GetOp(key: Key) | RemoveOp(key: Key) | ClearOp

  /** The contents of a cache after some operations. */
  function After(ops: seq<Op>, max: nat): Recency
    requires max >= 1
  {
    if ops == [] then []
    else
      var s := After(ops[..|ops|-1], max);
      match ops[|ops|-1]
      case AddOp(k, v) => Added(s, k, v, max)
      case GetOp(k) => Used(s, k)
      case RemoveOp(k) => Without(s, k)
      case ClearOp => []
  }

  /** When a key was last used: added, or found by a get; 0 if never. */
  function LastUse(ops: seq<Op>, k: Key, max: nat): nat
    requires max >= 1
  {
    if ops == [] then 0
    else
      var before := ops[..|ops|-1];
      match ops[|ops|-1]
      case AddOp(key, _) => if key == k then |ops| else LastUse(before, k, max)
      case GetOp(key) => if key == k && Has(After(before, max), k) then |ops| else LastUse(before, k, max)
      case _ => LastUse(before, k, max)
  }

  /** The value with which a key was last added. */
  function LastAdded(ops: seq<Op>, k: Key): Option<Value> {
    if ops == [] then None
    else if ops[|ops|-1].AddOp? && ops[|ops|-1].key == k then Some(ops[|ops|-1].value)
    else LastAdded(ops[..|ops|-1], k)
  }

  /** In order of last use, with the values last added. */
  ghost predicate ByUse(s: Recency, ops: seq<Op>, max: nat)
    requires max >= 1
  {
    && |s| <= max
    && (forall i, j :: 0 <= i < j < |s| ==> LastUse(ops, s[i].0, max) > LastUse(ops, s[j].0, max))
    && (forall i :: 0 <= i < |s| ==> LastUse(ops, s[i].0, max) <= |ops| && LastAdded(ops, s[i].0) == Some(s[i].1))
  }

  lemma {:induction false} WithoutByUse(s: Recency, k: Key, ops: seq<Op>, max: nat)
    requires max >= 1 && ByUse(s, ops, max)
    ensures ByUse(Without(s, k), ops, max)
    ensures forall p :: p in Without(s, k) ==> p in s && p.0 != k
  {
    hide ByUse;
    if s != [] {
      TailByUse(s, ops, max);
      WithoutByUse(s[1..], k, ops, max);
      if s[0].0 != k {
        ConsByUse(s[0], Without(s[1..], k), ops, max);
      }
    }
  }

  lemma TailByUse(s: Recency, ops: seq<Op>, max: nat)
    requires max >= 1 && ByUse(s, ops, max) && s != []
    ensures ByUse(s[1..], ops, max) && |s[1..]| < max
    ensures LastUse(ops, s[0].0, max) <= |ops| && LastAdded(ops, s[0].0) == Some(s[0].1)
    ensures forall q :: q in s[1..] ==> LastUse(ops, s[0].0, max) > LastUse(ops, q.0, max)
  {
    hide LastUse;
    hide LastAdded;
  }

  lemma ConsByUse(p: (Key, Value), rest: Recency, ops: seq<Op>, max: nat)
    requires max >= 1 && ByUse(rest, ops, max) && |rest| < max
    requires LastUse(ops, p.0, max) <= |ops| && LastAdded(ops, p.0) == Some(p.1)
    requires forall q :: q in rest ==> LastUse(ops, p.0, max) > LastUse(ops, q.0, max)
    ensures ByUse([p] + rest, ops, max)
  {
    hide LastUse;
    hide LastAdded;
    assert forall i :: 0 <= i < |rest| ==> rest[i] in rest;
  }

  /** A key in front that has just been used, and others that have not. */
  lemma FrontByUse(p: (Key, Value), rest: seq<(Key, Value)>, ops: seq<Op>, ops': seq<Op>, max: nat)
    requires max >= 1 && ByUse(rest, ops, max) && |rest| < max && |ops'| == |ops| + 1
    requires LastUse(ops', p.0, max) == |ops'| && LastAdded(ops', p.0) == Some(p.1)
    requires forall q :: q in rest ==>
               LastUse(ops', q.0, max) == LastUse(ops, q.0, max) && LastAdded(ops', q.0) == LastAdded(ops, q.0)
    ensures ByUse([p] + rest, ops', max)
  {
    hide LastUse;
    hide LastAdded;
    assert forall i :: 0 <= i < |rest| ==> rest[i] in rest;
  }

  /** At any time the cache holds keys in the order in which they were last used, with the
      values last added. */
  lemma {:induction false} ContentsByUse(ops: seq<Op>, max: nat)
    requires max >= 1
    ensures ByUse(After(ops, max), ops, max)
  {
    hide ByUse;
    if ops == [] {
      NothingByUse(max);
      return;
    }
    var n := |ops| - 1;
    var before, op := ops[..n], ops[n];
    var s := After(before, max);
    ContentsByUse(before, max);
    match op {
      case AddOp(k, v) =>
        WithoutByUse(s, k, before, max);
        if Has(s, k) || |s| < max {
          HasOneMore(s, k, before, max);
          FrontByUse((k, v), Without(s, k), before, ops, max);
        } else {
          FirstByUse(s, max - 1, before, max);
          assert forall q :: q in s[..max-1] ==> q in s;
          FrontByUse((k, v), s[..max-1], before, ops, max);
        }
      case GetOp(k) =>
        if Has(s, k) {
          WithoutByUse(s, k, before, max);
          HasOneMore(s, k, before, max);
          FrontByUse((k, ValueOf(s, k).value), Without(s, k), before, ops, max);
        } else {
          NotHad(s, k);
          UnusedByUse(s, before, ops, max);
        }
      case RemoveOp(k) =>
        WithoutByUse(s, k, before, max);
        UnusedByUse(Without(s, k), before, ops, max);
      case ClearOp =>
        NothingByUse(max);
        EmptyByUse(ops, max);
    }
  }

  lemma NothingByUse(max: nat)
    requires max >= 1
    ensures ByUse([], [], max)
  {
  }

  lemma EmptyByUse(ops: seq<Op>, max: nat)
    requires max >= 1
    ensures ByUse([], ops, max)
  {
  }

  lemma FirstByUse(s: Recency, n: nat, ops: seq<Op>, max: nat)
    requires max >= 1 && ByUse(s, ops, max) && n <= |s|
    ensures ByUse(s[..n], ops, max)
  {
    hide LastUse;
    hide LastAdded;
  }

  lemma UnusedByUse(s: Recency, ops: seq<Op>, ops': seq<Op>, max: nat)
    requires max >= 1 && ByUse(s, ops, max) && |ops'| == |ops| + 1
    requires forall q :: q in s ==>
               LastUse(ops', q.0, max) == LastUse(ops, q.0, max) && LastAdded(ops', q.0) == LastAdded(ops, q.0)
    ensures ByUse(s, ops', max)
  {
    hide LastUse;
    hide LastAdded;
    assert forall i :: 0 <= i < |s| ==> s[i] in s;
  }

  /** Without a key that it has, the cache has room for one more. */
  lemma HasOneMore(s: Recency, k: Key, ops: seq<Op>, max: nat)
    requires max >= 1 && ByUse(s, ops, max)
    ensures Has(s, k) ==>
              |Without(s, k)| == |s| - 1 < max
              && ValueOf(s, k).Some? && LastAdded(ops, k) == ValueOf(s, k)
  {
    hide LastUse;
    hide LastAdded;
    if Has(s, k) {
      var n :| 0 <= n < |s| && s[n].0 == k;
      assert IsDistinct(s);
      WithoutIs(s, n);
      ValueAt(s, n);
    }
  }

  /** Adding a key to a full cache drops one key, the one used least recently. */
  lemma EvictedIsLeastRecent(ops: seq<Op>, k: Key, v: Value, max: nat)
    requires max >= 1 && |After(ops, max)| == max && !Has(After(ops, max), k)
    ensures var s, s' := After(ops, max), After(ops + [AddOp(k, v)], max);
            var gone := s[max-1].0;
            && s' == [(k, v)] + s[..max-1] && !Has(s', gone)
            && forall p :: p in s && p.0 != gone ==>
                 Has(s', p.0) && LastUse(ops, p.0, max) > LastUse(ops, gone, max)
  {
    hide LastUse;
    hide LastAdded;
    var s := After(ops, max);
    ContentsByUse(ops, max);
    assert (ops + [AddOp(k, v)])[..|ops|] == ops;
    var s' := [(k, v)] + s[..max-1];
    assert Has(s, s[max-1].0);
    forall p | p in s && p.0 != s[max-1].0
      ensures Has(s', p.0) && LastUse(ops, p.0, max) > LastUse(ops, s[max-1].0, max)
    {
      var i :| 0 <= i < |s| && s[i] == p;
      assert s'[i+1] == p;
    }
  }
}
