/**
  Following the markers of a listing whose delimiter ends with the greatest code unit: the
  page after a common prefix may list it again, and exactly when that never ends.
 */
module EndlessPages {
  import opened Strings
  import opened Keys
  import opened Paging
  import opened MasterListing
  import opened ListingPages
  import opened WrappedRanges
  import PagedListing

  /** A delimiter that is wrapped around, below a prefix that is not. */
  ghost predicate IsWrappedScope(scope: Scope) {
    IsPlain(Scope(scope.prefix, []), []) && !IsVersionKey(scope.delimiter) && IsWrapped(scope.delimiter)
  }

  /** What is listed from a marker on. */
  ghost function ItemsFrom(b: seq<Entry>, scope: Scope, marker: Str): seq<Item> {
    Group(Live(Select(b, GenMDParamsV0(scope, marker))), scope)
  }

  lemma RangeIsAfterKey(k: Str, scope: Scope, marker: Str)
    requires IsWrappedScope(scope)
    ensures InRange(k, GenMDParamsV0(scope, marker))
       <==> StartsWith(k, scope.prefix) && (marker == [] || Lt(marker, k))
  {
    hide Lt;
    InPrefix(k, Scope(scope.prefix, []));
    if marker != [] && CommonPrefixOf(marker, scope.prefix, scope.delimiter).Some? {
      WrappedDelimiterRange(k, scope, marker);
    }
    Ordered();
  }

  lemma ObjectsFrom(b: seq<Entry>, scope: Scope, marker: Str, o: Object)
    requires IsBucket(b) && IsWrappedScope(scope)
    ensures o in Live(Select(b, GenMDParamsV0(scope, marker)))
       <==> o in Live(b) && StartsWith(o.key, scope.prefix) && (marker == [] || Lt(marker, o.key))
  {
    hide Lt;
    hide Live;
    var r := GenMDParamsV0(scope, marker);
    IncIsPlain(scope.prefix);
    SeekIsSuffix(b, r);
    LiveIsRead(SeekFrom(b, r), r, o);
    LiveIsSought(b, r, o);
    RangeIsAfterKey(o.key, scope, marker);
  }

  /** An item that comes again after a marker is the common prefix that is the marker. */
  lemma OnlyMarkerComesAgain(o: Object, scope: Scope, marker: Str, at: Object)
    requires marker == ItemKey(ItemOf(at, scope)) && Lt(marker, o.key) && !Lt(marker, ItemKey(ItemOf(o, scope)))
    ensures ItemOf(o, scope) == CommonPrefix(marker) && StartsWith(o.key, marker) && o.key != marker
  {
    hide Lt;
    hide CommonPrefixOf;
    var q := ItemKey(ItemOf(o, scope));
    ItemKeyIsPrefix(o, scope);
    ItemKeyIsPrefix(at, scope);
    Transitive(q, marker, o.key);
    Transitive(marker, o.key, o.key);
    assert StartsWith(q, q);
    StartsWithBetween(q, marker, o.key, q);
    StrictTotalOrder(marker, o.key, marker);
    CommonPrefixShared(o.key, marker, scope.prefix, scope.delimiter);
    if ItemOf(at, scope).CommonPrefix? {
      assert StartsWith(marker, marker);
      CommonPrefixShared(at.key, marker, scope.prefix, scope.delimiter);
    }
  }

  /** What is listed from the key of an item on: the item again, if it repeats, and the items
      after it. */
  lemma ItemsFromMarker(b: seq<Entry>, scope: Scope, i: nat)
    requires IsBucket(b) && IsWrappedScope(scope) && i < |AllItems(b, scope)|
    ensures var all := AllItems(b, scope);
            ItemsFrom(b, scope, ItemKey(all[i]))
            == (if all[i].CommonPrefix? && Repeats(b, all[i].prefix) then all[i..] else all[i+1..])
  {
    hide Lt;
    hide Live;
    hide Group;
    hide GenMDParamsV0;
    hide ItemOf;
    hide IsWrappedScope;
    var all := AllItems(b, scope);
    var marker := ItemKey(all[i]);
    var found := ItemsFrom(b, scope, marker);
    ItemsAreDistinct(b, scope, marker);
    var expected := if all[i].CommonPrefix? && Repeats(b, all[i].prefix) then all[i..] else all[i+1..];
    forall item
      ensures item in found <==> item in expected
    {
      IsListedFrom(b, scope, i, item);
    }
    PartIsSorted(all, i);
    PartIsSorted(all, i + 1);
    SortedItemsAreUnique(found, expected);
  }

  lemma PartIsSorted(items: seq<Item>, i: nat)
    requires SortedItems(items) && i <= |items|
    ensures SortedItems(items[i..])
  {
    hide Lt;
  }

  lemma ItemsAreDistinct(b: seq<Entry>, scope: Scope, marker: Str)
    requires IsBucket(b) && IsWrappedScope(scope)
    ensures SortedItems(AllItems(b, scope)) && SortedItems(ItemsFrom(b, scope, marker))
    ensures forall item :: item in AllItems(b, scope)
              <==> exists o :: o in Live(b) && StartsWith(o.key, scope.prefix) && ItemOf(o, scope) == item
    ensures forall item :: item in ItemsFrom(b, scope, marker)
              <==> exists o :: o in Live(b) && StartsWith(o.key, scope.prefix) && ItemOf(o, scope) == item
                               && (marker == [] || Lt(marker, o.key))
  {
    hide Lt;
    hide Live;
    hide Group;
    hide GenMDParamsV0;
    hide ItemOf;
    hide Select;
    var r := GenMDParamsV0(scope, marker);
    var objects, selected := UnderPrefix(Live(b), scope.prefix), Live(Select(b, r));
    LiveSorted(b);
    UnderPrefixSorted(Live(b), scope.prefix);
    SelectedSorted(b, r);
    GroupIsDistinct(objects, scope);
    GroupIsDistinct(selected, scope);
    forall o
      ensures o in selected <==> o in Live(b) && StartsWith(o.key, scope.prefix) && (marker == [] || Lt(marker, o.key))
    {
      ObjectsFrom(b, scope, marker, o);
    }
  }

  lemma IsListedFrom(b: seq<Entry>, scope: Scope, i: nat, item: Item)
    requires IsBucket(b) && IsWrappedScope(scope) && i < |AllItems(b, scope)|
    ensures var all := AllItems(b, scope);
            item in ItemsFrom(b, scope, ItemKey(all[i]))
            <==> item in (if all[i].CommonPrefix? && Repeats(b, all[i].prefix) then all[i..] else all[i+1..])
  {
    hide Lt;
    hide Live;
    hide ItemOf;
    hide ItemsFrom;
    hide IsWrappedScope;
    hide AllItems;
    var all := AllItems(b, scope);
    var marker := ItemKey(all[i]);
    PagedListing.AllItemsHaveKeys(b, scope);
    ItemsAreDistinct(b, scope, marker);
    assert all[i] in all;
    var at :| at in Live(b) && StartsWith(at.key, scope.prefix) && ItemOf(at, scope) == all[i];
    if item in ItemsFrom(b, scope, marker) {
      var o :| o in Live(b) && StartsWith(o.key, scope.prefix) && ItemOf(o, scope) == item && Lt(marker, o.key);
      assert item in all;
      var j :| 0 <= j < |all| && all[j] == item;
      ListedFrom(all, i, j, o, at, scope);
      assert j == i ==> Repeats(b, all[i].prefix);
      assert item == all[i..][j-i] && (j > i ==> item == all[i+1..][j-i-1]);
    }
    var expected := if all[i].CommonPrefix? && Repeats(b, all[i].prefix) then all[i..] else all[i+1..];
    if item in expected {
      var j :| i <= j < |all| && all[j] == item && (j == i ==> all[i].CommonPrefix? && Repeats(b, all[i].prefix));
      if j == i {
        ComesAgain(b, at, scope);
      } else {
        assert all[j] in all;
        var o :| o in Live(b) && StartsWith(o.key, scope.prefix) && ItemOf(o, scope) == item;
        ItemKeyIsPrefix(o, scope);
        Transitive(marker, ItemKey(item), o.key);
        assert Lt(marker, o.key);
      }
    }
  }

  lemma ListedFrom(all: seq<Item>, i: nat, j: nat, o: Object, at: Object, scope: Scope)
    requires SortedItems(all) && i < |all| && j < |all| && all[i] == ItemOf(at, scope) && all[j] == ItemOf(o, scope)
    requires Lt(ItemKey(all[i]), o.key)
    ensures i <= j
    ensures j == i ==> all[i].CommonPrefix? && StartsWith(o.key, all[i].prefix) && o.key != all[i].prefix
  {
    hide Lt;
    hide ItemOf;
    var marker := ItemKey(all[i]);
    StrictTotalOrder(marker, ItemKey(all[j]), marker);
    if j <= i {
      assert j < i ==> Lt(ItemKey(all[j]), marker);
      OnlyMarkerComesAgain(o, scope, marker, at);
    }
  }

  lemma ComesAgain(b: seq<Entry>, at: Object, scope: Scope)
    requires StartsWith(at.key, scope.prefix) && ItemOf(at, scope).CommonPrefix?
    requires Repeats(b, ItemOf(at, scope).prefix)
    ensures var c := ItemOf(at, scope).prefix;
            exists o :: o in Live(b) && StartsWith(o.key, scope.prefix) && ItemOf(o, scope) == CommonPrefix(c)
                        && Lt(c, o.key)
  {
    hide Lt;
    hide Live;
    hide CommonPrefixOf;
    var c := ItemOf(at, scope).prefix;
    CommonPrefixStarts(at.key, scope.prefix, scope.delimiter);
    assert StartsWith(c, c);
    CommonPrefixShared(at.key, c, scope.prefix, scope.delimiter);
    var o :| o in Live(b) && StartsWith(o.key, c) && o.key != c;
    UnderCommonPrefix(o, scope, c);
  }

  // ---------------------------------------------------------------------------
  // Following the markers

  /** The marker after `n` pages, unless the listing has ended before. */
  ghost function Follow(b: seq<Entry>, scope: Scope, maxKeys: nat, n: nat): Option<Str>
    requires maxKeys >= 1
  {
    if n == 0 then Some([])
    else
      match Follow(b, scope, maxKeys, n - 1)
      case None => None
      case Some(marker) =>
        var items := ItemsFrom(b, scope, marker);
        if |items| > maxKeys then Some(NextMarker(Page(items, maxKeys), marker)) else None
  }

  /** A common prefix that is listed again, before other items. */
  ghost predicate IsStuck(b: seq<Entry>, scope: Scope, i: nat) {
    var all := AllItems(b, scope);
    i + 1 < |all| && all[i].CommonPrefix? && Repeats(b, all[i].prefix)
  }

  /** A page moves on from the item at `i`, but for pages of one that are stuck. */
  lemma PageMovesOn(b: seq<Entry>, scope: Scope, maxKeys: nat, i: nat, n: nat)
    requires IsBucket(b) && IsWrappedScope(scope) && maxKeys >= 1 && i < |AllItems(b, scope)|
    requires Follow(b, scope, maxKeys, n) == Some(ItemKey(AllItems(b, scope)[i]))
    ensures var all := AllItems(b, scope);
            var next := i + maxKeys - if all[i].CommonPrefix? && Repeats(b, all[i].prefix) then 1 else 0;
            Follow(b, scope, maxKeys, n + 1) == if next + 1 < |all| then Some(ItemKey(all[next])) else None
  {
    hide ItemsFrom;
    hide AllItems;
    hide Repeats;
    hide IsWrappedScope;
    hide IsBucket;
    ItemsFromMarker(b, scope, i);
  }

  lemma FirstPage(b: seq<Entry>, scope: Scope, maxKeys: nat)
    requires IsBucket(b) && IsWrappedScope(scope) && maxKeys >= 1
    ensures var all := AllItems(b, scope);
            Follow(b, scope, maxKeys, 1) == if |all| > maxKeys then Some(ItemKey(all[maxKeys-1])) else None
  {
    hide Lt;
    hide ItemsFrom;
    hide AllItems;
    hide IsWrappedScope;
    hide IsBucket;
    ItemsFromStart(b, scope);
    assert Follow(b, scope, maxKeys, 0) == Some([]);
  }

  lemma ItemsFromStart(b: seq<Entry>, scope: Scope)
    requires IsBucket(b) && IsWrappedScope(scope)
    ensures ItemsFrom(b, scope, []) == AllItems(b, scope)
  {
    hide Lt;
    hide Live;
    hide ItemOf;
    hide ItemsFrom;
    hide AllItems;
    ItemsAreDistinct(b, scope, []);
    SortedItemsAreUnique(ItemsFrom(b, scope, []), AllItems(b, scope));
  }

  /** Larger pages, or pages that are not stuck, come to an end. */
  lemma {:induction false} PagesEnd(b: seq<Entry>, scope: Scope, maxKeys: nat, i: nat, n: nat)
    requires IsBucket(b) && IsWrappedScope(scope) && maxKeys >= 1 && i < |AllItems(b, scope)|
    requires Follow(b, scope, maxKeys, n) == Some(ItemKey(AllItems(b, scope)[i]))
    requires maxKeys > 1 || forall j :: !IsStuck(b, scope, j)
    ensures exists m :: Follow(b, scope, maxKeys, m) == None
    decreases |AllItems(b, scope)| - i
  {
    hide ItemsFrom;
    hide AllItems;
    hide Repeats;
    hide IsWrappedScope;
    hide IsBucket;
    hide Follow;
    var all := AllItems(b, scope);
    PageMovesOn(b, scope, maxKeys, i, n);
    var next := i + maxKeys - if all[i].CommonPrefix? && Repeats(b, all[i].prefix) then 1 else 0;
    if next + 1 < |all| {
      assert maxKeys == 1 ==> !IsStuck(b, scope, i);
      PagesEnd(b, scope, maxKeys, next, n + 1);
    }
  }

  /** Pages of one list item after item, up to the first that is stuck. */
  lemma {:induction false} PagesOfOne(b: seq<Entry>, scope: Scope, n: nat)
    requires IsBucket(b) && IsWrappedScope(scope) && n + 1 < |AllItems(b, scope)|
    requires forall j :: 0 <= j < n ==> !IsStuck(b, scope, j)
    ensures Follow(b, scope, 1, n + 1) == Some(ItemKey(AllItems(b, scope)[n]))
  {
    hide ItemsFrom;
    hide AllItems;
    hide Repeats;
    hide IsWrappedScope;
    hide IsBucket;
    hide Follow;
    if n == 0 {
      FirstPage(b, scope, 1);
    } else {
      PagesOfOne(b, scope, n - 1);
      PageMovesOn(b, scope, 1, n - 1, n);
      assert !IsStuck(b, scope, n - 1);
    }
  }

  lemma {:induction false} StuckForEver(b: seq<Entry>, scope: Scope, i: nat, n: nat, more: nat)
    requires IsBucket(b) && IsWrappedScope(scope) && IsStuck(b, scope, i)
    requires Follow(b, scope, 1, n) == Some(ItemKey(AllItems(b, scope)[i]))
    ensures Follow(b, scope, 1, n + more) == Follow(b, scope, 1, n)
  {
    hide ItemsFrom;
    hide AllItems;
    hide Repeats;
    hide IsWrappedScope;
    hide IsBucket;
    hide Follow;
    if more > 0 {
      StuckForEver(b, scope, i, n, more - 1);
      PageMovesOn(b, scope, 1, i, n + more - 1);
    }
  }

  lemma {:induction false} StaysEnded(b: seq<Entry>, scope: Scope, maxKeys: nat, n: nat, more: nat)
    requires maxKeys >= 1 && Follow(b, scope, maxKeys, n) == None
    ensures Follow(b, scope, maxKeys, n + more) == None
  {
    hide ItemsFrom;
    if more > 0 {
      StaysEnded(b, scope, maxKeys, n, more - 1);
    }
  }

  /**
    Exactly when following the markers from the start comes to an end: when pages hold more
    than one key, or no common prefix with an object of a longer key comes before another
    item.
   */
  lemma FollowingEndsExactly(b: seq<Entry>, scope: Scope, maxKeys: nat)
    requires IsBucket(b) && IsWrappedScope(scope) && maxKeys >= 1
    ensures (exists n :: Follow(b, scope, maxKeys, n) == None)
       <==> maxKeys > 1 || forall i :: !IsStuck(b, scope, i)
  {
    hide ItemsFrom;
    hide AllItems;
    hide IsStuck;
    hide IsWrappedScope;
    hide IsBucket;
    hide Follow;
    var all := AllItems(b, scope);
    if maxKeys > 1 || forall i :: !IsStuck(b, scope, i) {
      FirstPage(b, scope, maxKeys);
      if |all| > maxKeys {
        PagesEnd(b, scope, maxKeys, maxKeys - 1, 1);
      }
    } else {
      var i := FirstStuck(b, scope);
      PagesOfOne(b, scope, i);
      forall n
        ensures Follow(b, scope, 1, n) != None
      {
        if i + 1 <= n {
          StuckForEver(b, scope, i, i + 1, n - (i + 1));
        } else if Follow(b, scope, 1, n) == None {
          StaysEnded(b, scope, 1, n, i + 1 - n);
        }
      }
    }
  }

  lemma FirstStuck(b: seq<Entry>, scope: Scope) returns (i: nat)
    requires exists j :: IsStuck(b, scope, j)
    ensures IsStuck(b, scope, i) && i + 1 < |AllItems(b, scope)| && forall j :: 0 <= j < i ==> !IsStuck(b, scope, j)
  {
    hide AllItems;
    hide Repeats;
    var last: nat :| IsStuck(b, scope, last);
    i := 0;
    while !IsStuck(b, scope, i)
      invariant i <= last && forall j :: 0 <= j < i ==> !IsStuck(b, scope, j)
      decreases last - i
    {
      i := i + 1;
    }
  }
}
