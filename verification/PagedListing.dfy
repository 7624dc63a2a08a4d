/**
  Listings of a bucket: one page from a marker, and all the pages one after another, each
  run by the state machine on the raw keys that the database returns for its range.
 */
module PagedListing {
  import opened Strings
  import opened Keys
  import opened Paging
  import opened MasterListing
  import opened ListingPages
  import opened DelimiterMasters
  import opened CurrentListings
  import Gaps

  /** A gap that holds no object of the bucket holds none of what a page reads of it. */
  lemma PageAnswersAreSound(b: seq<Entry>, scope: Scope, marker: Str, schedule: Schedule)
    requires IsBucket(b) && IsPlain(scope, marker) && SoundAnswers(b, schedule)
    ensures SoundAnswers(Select(b, GenMDParamsV0(scope, marker)), schedule)
  {
    hide Live;
    hide Select;
    hide GenMDParamsV0;
    forall o | o in Live(Select(b, GenMDParamsV0(scope, marker)))
      ensures o in Live(b)
    {
      LiveOfRange(b, scope, marker, o);
    }
  }

  /** A range holds all keys between two of its keys. */
  lemma RangeIsConvex(r: Range, a: Str, k: Str, c: Str)
    requires InRange(a, r) && InRange(c, r) && Le(a, k) && Le(k, c)
    ensures InRange(k, r)
  {
    hide Lt;
    Ordered();
  }

  lemma SelectedIsInRange(b: seq<Entry>, r: Range, e: Entry)
    requires SortedEntries(b) && e in Select(b, r)
    ensures InRange(e.key, r)
  {
    hide Lt;
    SeekIsSuffix(b, r);
    var s := SeekFrom(b, r);
    ReadIsPrefix(s, r);
    var i :| 0 <= i < |ReadUntil(s, r)| && ReadUntil(s, r)[i] == e;
    var n := |b| - |s|;
    assert s[i] == b[n+i];
    NotBelow(r, b[n].key, e.key);
    if i > 0 {
      assert Lt(b[n].key, b[n+i].key);
      Transitive(b[n].key, e.key, e.key);
    }
  }

  lemma NotBelow(r: Range, a: Str, k: Str)
    requires !Below(a, r)
    ensures Le(a, k) || a == k ==> !Below(k, r)
  {
    hide Lt;
    Ordered();
  }

  /** A gap that a page saves holds no object of the whole bucket, read by the page or not. */
  lemma SavedGapHoldsNoObject(b: seq<Entry>, scope: Scope, marker: Str, g: Gap)
    requires IsBucket(b) && IsPlain(scope, marker)
    requires IsSound(Select(b, GenMDParamsV0(scope, marker)), g)
    ensures HoldsNoObject(b, g)
  {
    hide Lt;
    hide Live;
    hide Select;
    hide InRange;
    hide GenMDParamsV0;
    hide IsPlain;
    var r := GenMDParamsV0(scope, marker);
    var s := Select(b, r);
    var i :| 0 <= i < |s| && Le(s[i].key, g.firstKey);
    var j :| 0 <= j < |s| && Le(g.lastKey, s[j].key);
    SelectedIsInRange(b, r, s[i]);
    SelectedIsInRange(b, r, s[j]);
    forall o | o in Live(b)
      ensures !Gaps.Within(g, o.key)
    {
      if Gaps.Within(g, o.key) {
        Transitive(s[i].key, g.firstKey, o.key);
        Transitive(o.key, g.lastKey, s[j].key);
        RangeIsConvex(r, s[i].key, o.key, s[j].key);
        LiveOfRange(b, scope, marker, o);
      }
    }
  }

  lemma SoundIsRange(s: seq<Entry>, g: Gap)
    requires IsSound(s, g)
    ensures Le(g.firstKey, g.lastKey)
  {
  }

  lemma SelectIsShorter(b: seq<Entry>, r: Range)
    ensures |Select(b, r)| <= |b|
  {
    SeekIsSuffix(b, r);
    ReadIsPrefix(SeekFrom(b, r), r);
  }

  /** What there is to list in a bucket after a marker: the objects under the prefix that have
      no common prefix, and the common prefixes of the others. */
  ghost predicate IsItemAfter(b: seq<Entry>, scope: Scope, marker: Str, item: Item) {
    && (marker == [] || Lt(marker, ItemKey(item)))
    && match item
       case Content(k, v) =>
         && Object(k, v) in Live(b) && StartsWith(k, scope.prefix)
         && CommonPrefixOf(k, scope.prefix, scope.delimiter) == None
       case CommonPrefix(p) =>
         exists o :: o in Live(b) && StartsWith(o.key, scope.prefix)
                     && CommonPrefixOf(o.key, scope.prefix, scope.delimiter) == Some(p)
  }

  lemma ItemsAreThose(b: seq<Entry>, scope: Scope, marker: Str)
    requires IsBucket(b)
    ensures SortedItems(ItemsAfter(AllItems(b, scope), marker))
    ensures forall item :: item in ItemsAfter(AllItems(b, scope), marker) <==> IsItemAfter(b, scope, marker, item)
  {
    hide Lt;
    hide Live;
    hide Group;
    hide CommonPrefixOf;
    var objects := UnderPrefix(Live(b), scope.prefix);
    LiveSorted(b);
    UnderPrefixSorted(Live(b), scope.prefix);
    GroupedItems(objects, scope);
    ItemsAfterSorted(AllItems(b, scope), marker);
    forall item
      ensures IsItem(objects, scope, item) && (marker == [] || Lt(marker, ItemKey(item)))
         <==> IsItemAfter(b, scope, marker, item)
    {
      if item.CommonPrefix? && IsItem(objects, scope, item) {
        var o :| o in objects && CommonPrefixOf(o.key, scope.prefix, scope.delimiter) == Some(item.prefix);
        assert o in Live(b);
      }
    }
  }

  lemma BucketPageIsRight(b: seq<Entry>, scope: Scope, marker: Str, maxKeys: int, v2: bool)
    requires IsBucket(b)
    ensures IsPage(PageResult(ItemsAfter(AllItems(b, scope), marker), maxKeys, marker, scope.delimiter, v2),
                   (iset item | IsItemAfter(b, scope, marker, item)), maxKeys, scope.delimiter, v2)
  {
    hide Lt;
    hide AllItems;
    hide ItemsAfter;
    hide IsItemAfter;
    hide IsPage;
    hide PageResult;
    ItemsAreThose(b, scope, marker);
    PageIsRight(ItemsAfter(AllItems(b, scope), marker), (iset item | IsItemAfter(b, scope, marker, item)),
                maxKeys, marker, scope.delimiter, v2);
  }

  /** One page of the listing of a bucket, whatever the schedule; and the gaps it has saved,
      which the listings of all pages share. */
  method ListPage(b: seq<Entry>, scope: Scope, marker: Str, maxKeys: int, v2: bool,
                  exposureDelayMs: int, schedule: Schedule)
    returns (result: ListingResult, saved: seq<Gap>)
    requires IsBucket(b) && IsPlain(scope, marker)
    requires SoundAnswers(b, schedule)
    ensures result == PageResult(
              ItemsAfter(AllItems(b, scope), marker), if maxKeys == 0 then 1000 else maxKeys,
              marker, scope.delimiter, v2)
    ensures IsPage(result, (iset item | IsItemAfter(b, scope, marker, item)),
                   if maxKeys == 0 then 1000 else maxKeys, scope.delimiter, v2)
    ensures forall g :: g in saved ==> HoldsNoObject(b, g) && Le(g.firstKey, g.lastKey)
  {
    hide Live;
    hide Group;
    hide Lt;
    hide GenMDParamsV0;
    hide Select;
    hide SoundAnswers;
    hide WellFormed;
    hide HoldsNoObject;
    hide IsSound;
    hide ItemsAfter;
    hide AllItems;
    hide PageResult;
    hide IsPage;
    hide IsItemAfter;
    var stream := Select(b, GenMDParamsV0(scope, marker));
    SelectIsWellFormed(b, scope, marker);
    SelectIsShorter(b, GenMDParamsV0(scope, marker));
    PageAnswersAreSound(b, scope, marker, schedule);
    RangeListsItemsAfter(b, scope, marker);
    BucketPageIsRight(b, scope, marker, if maxKeys == 0 then 1000 else maxKeys, v2);
    result, saved := ListCurrentVersions(stream, scope, marker, maxKeys, v2, exposureDelayMs, schedule);
    forall g | g in saved
      ensures HoldsNoObject(b, g) && Le(g.firstKey, g.lastKey)
    {
      SavedGapHoldsNoObject(b, scope, marker, g);
      SoundIsRange(stream, g);
    }
  }

  lemma {:induction false} ContentsOfConcat(a: seq<Item>, b: seq<Item>)
    ensures Contents(a + b) == Contents(a) + Contents(b)
    ensures CommonPrefixes(a + b) == CommonPrefixes(a) + CommonPrefixes(b)
  {
    if b == [] {
      assert a + b == a;
    } else {
      var n := |b| - 1;
      ContentsOfConcat(a, b[..n]);
      assert (a + b)[..|a+b|-1] == a + b[..n];
    }
  }

  /** A bucket has items with non-empty keys only. */
  lemma AllItemsHaveKeys(b: seq<Entry>, scope: Scope)
    requires IsBucket(b)
    ensures SortedItems(AllItems(b, scope))
    ensures forall item :: item in AllItems(b, scope) ==> ItemKey(item) != [] && !IsVersionKey(ItemKey(item))
  {
    hide Lt;
    var objects := UnderPrefix(Live(b), scope.prefix);
    LiveSorted(b);
    UnderPrefixSorted(Live(b), scope.prefix);
    GroupIsDistinct(objects, scope);
    forall item | item in AllItems(b, scope)
      ensures ItemKey(item) != [] && !IsVersionKey(ItemKey(item))
    {
      var o :| o in objects && ItemOf(o, scope) == item;
      LiveIsStored(b, o);
      ItemKeyIsPrefix(o, scope);
      NoSeparator(o.key);
      NoSeparator(ItemKey(item));
      assert forall i :: 0 <= i < |ItemKey(item)| ==> ItemKey(item)[i] == o.key[..|ItemKey(item)|][i] == o.key[i];
      if item.CommonPrefix? {
        CommonPrefixStarts(o.key, scope.prefix, scope.delimiter);
      }
    }
  }

  /** One page on: the page and what the next marker leaves make up what was left before. */
  lemma PageAdvances(items: seq<Item>, marker: Str, maxKeys: nat)
    requires maxKeys >= 1 && SortedItems(items)
    requires forall item :: item in items ==> ItemKey(item) != [] && !IsVersionKey(ItemKey(item))
    requires |ItemsAfter(items, marker)| > maxKeys
    ensures var rest := ItemsAfter(items, marker);
            var next := NextMarker(Page(rest, maxKeys), marker);
            && Page(rest, maxKeys) + ItemsAfter(items, next) == rest
            && |ItemsAfter(items, next)| < |rest|
            && !IsVersionKey(next)
  {
    PageLeaves(items, marker, maxKeys);
    hide *;
    FullPage(ItemsAfter(items, marker), marker, maxKeys);
    assert forall item :: item in ItemsAfter(items, marker) ==> item in items;
  }

  lemma FullPage(rest: seq<Item>, marker: Str, maxKeys: nat)
    requires 1 <= maxKeys < |rest|
    ensures Page(rest, maxKeys) + rest[maxKeys..] == rest
    ensures exists item :: item in rest && NextMarker(Page(rest, maxKeys), marker) == ItemKey(item)
  {
    assert rest[maxKeys-1] in rest;
  }

  /**
    All pages of a bucket, each requested with the continuation token or the next marker of
    the one before; without a delimiter only the newer kind of listing returns one.  Together
    they are the whole listing after `startAfter`, whatever happens to each page.
   */
  method ListAllPages(b: seq<Entry>, scope: Scope, startAfter: Str, maxKeys: nat, v2: bool,
                      exposureDelayMs: int, schedules: nat -> Schedule)
    returns (contents: seq<Object>, commonPrefixes: seq<Str>, saved: seq<Gap>)
    requires IsBucket(b) && IsPlain(scope, startAfter) && maxKeys >= 1 && (v2 || scope.delimiter != [])
    requires forall n: nat :: SoundAnswers(b, schedules(n))
    ensures contents == Contents(ItemsAfter(AllItems(b, scope), startAfter))
    ensures commonPrefixes == CommonPrefixes(ItemsAfter(AllItems(b, scope), startAfter))
    ensures forall k, v :: Object(k, v) in contents <==> IsItemAfter(b, scope, startAfter, Content(k, v))
    ensures forall p :: p in commonPrefixes <==> IsItemAfter(b, scope, startAfter, CommonPrefix(p))
    ensures SortedObjects(contents) && AscendingPrefixes(commonPrefixes)
    ensures forall g :: g in saved ==> HoldsNoObject(b, g) && Le(g.firstKey, g.lastKey)
  {
    hide Lt;
    hide HoldsNoObject;
    hide AllItems;
    hide IsBucket;
    hide IsVersionKey;
    hide SoundAnswers;
    hide Contents;
    hide CommonPrefixes;
    hide SortedItems;
    hide ItemKey;
    hide ItemsAfter;
    hide IsItemAfter;
    hide IsPage;
    hide SortedObjects;
    hide AscendingPrefixes;
    ghost var items := AllItems(b, scope);
    AllItemsHaveKeys(b, scope);
    ghost var all := ItemsAfter(items, startAfter);
    ghost var listed: seq<Item> := [];
    var marker := startAfter;
    contents, commonPrefixes, saved := [], [], [];
    NoItems();
    var n: nat := 0;
    while true
      invariant IsPlain(scope, marker)
      invariant n + |ItemsAfter(items, marker)| <= |items|
      invariant listed + ItemsAfter(items, marker) == all
      invariant forall g :: g in saved ==> HoldsNoObject(b, g) && Le(g.firstKey, g.lastKey)
      invariant contents == Contents(listed) && commonPrefixes == CommonPrefixes(listed)
      decreases |ItemsAfter(items, marker)|
    {
      var page, newGaps := ListPage(b, scope, marker, maxKeys, v2, exposureDelayMs, schedules(n));
      saved := saved + newGaps;
      ghost var rest := ItemsAfter(items, marker);
      contents := contents + page.contents;
      commonPrefixes := commonPrefixes + page.commonPrefixes;
      ContentsOfConcat(listed, Page(rest, maxKeys));
      listed := listed + Page(rest, maxKeys);
      var next := if v2 then page.nextContinuationToken else page.nextMarker;
      if next == None {
        ItemsAreThose(b, scope, startAfter);
        ReturnedItems(all);
        ReturnedInOrder(all);
        return;
      }
      PageAdvances(items, marker, maxKeys);
      marker := next.value;
      n := n + 1;
    }
  }

  lemma NoItems()
    ensures Contents([]) == [] && CommonPrefixes([]) == []
  {
  }
}
