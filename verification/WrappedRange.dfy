/**
  Listings whose prefix or delimiter ends with the greatest code unit, which `inc` wraps
  around: what the range of such a listing holds, and exactly when it is the right one.
 */
module WrappedRanges {
  import opened Strings
  import opened Keys
  import opened Paging
  import opened MasterListing
  import opened ListingPages
  import PagedListing

  predicate IsWrapped(s: Str) {
    s != [] && s[|s|-1] == 0xFFFF
  }

  // ---------------------------------------------------------------------------
  // Prefixes

  /** No key is in the range of a prefix that is wrapped around. */
  lemma WrappedPrefixRange(k: Str, scope: Scope, marker: Str)
    requires IsWrapped(scope.prefix)
    ensures !InRange(k, GenMDParamsV0(scope, marker))
  {
    hide Lt;
    IncWraps(scope.prefix);
    Ordered();
  }

  /** A listing under such a prefix lists nothing, and so is right exactly when there is no
      object under the prefix with an item after the marker. */
  lemma WrappedPrefixExactly(b: seq<Entry>, scope: Scope, marker: Str)
    requires IsBucket(b) && IsWrapped(scope.prefix)
    ensures var items := Group(Live(Select(b, GenMDParamsV0(scope, marker))), scope);
            && items == []
            && (items == ItemsAfter(AllItems(b, scope), marker)
                <==> forall o :: o in Live(b) && StartsWith(o.key, scope.prefix) ==>
                       marker != [] && Le(ItemKeyOf(o.key, scope), marker))
  {
    hide Lt;
    hide Live;
    hide Group;
    hide GenMDParamsV0;
    hide InRange;
    hide ItemOf;
    var r := GenMDParamsV0(scope, marker);
    var s := Select(b, r);
    if s != [] {
      PagedListing.SelectedIsInRange(b, r, s[0]);
      WrappedPrefixRange(s[0].key, scope, marker);
    }
    NothingListed(scope);
    var objects := UnderPrefix(Live(b), scope.prefix);
    LiveSorted(b);
    UnderPrefixSorted(Live(b), scope.prefix);
    GroupIsDistinct(objects, scope);
    var after := ItemsAfter(AllItems(b, scope), marker);
    Ordered();
    forall o | o in Live(b) && StartsWith(o.key, scope.prefix)
      ensures ItemOf(o, scope) in after <==> marker == [] || Lt(marker, ItemKeyOf(o.key, scope))
    {
      ItemKeyOfObject(o, scope);
    }
    if after != [] {
      assert after[0] in after;
      var o :| o in objects && ItemOf(o, scope) == after[0];
      ItemKeyOfObject(o, scope);
    }
  }

  lemma NothingListed(scope: Scope)
    ensures Group(Live([]), scope) == []
  {
  }

  // ---------------------------------------------------------------------------
  // Delimiters

  /** With a delimiter that is wrapped around, the range does not end the common prefix of
      the marker. */
  lemma WrappedDelimiterRange(k: Str, scope: Scope, marker: Str)
    requires IsPlain(Scope(scope.prefix, []), []) && IsWrapped(scope.delimiter)
    requires CommonPrefixOf(marker, scope.prefix, scope.delimiter).Some?
    ensures InRange(k, GenMDParamsV0(scope, marker))
       <==> StartsWith(k, scope.prefix) && Lt(marker, k)
  {
    hide Lt;
    var c := CommonPrefixOf(marker, scope.prefix, scope.delimiter).value;
    CommonPrefixStarts(marker, scope.prefix, scope.delimiter);
    assert c[|c|-1] == c[|c|-|scope.delimiter|..][|scope.delimiter|-1];
    IncWraps(c);
    PrefixIsLe(marker, c);
    InPrefix(k, Scope(scope.prefix, []));
    Ordered();
  }

  /** Some object under the common prefix has a longer key. */
  ghost predicate Repeats(b: seq<Entry>, c: Str) {
    exists o :: o in Live(b) && StartsWith(o.key, c) && o.key != c
  }

  /**
    A page that ended with the common prefix `c`, and is followed by another one, starts with
    `c` again exactly when some object under it has a longer key.
   */
  lemma WrappedDelimiterRepeats(b: seq<Entry>, scope: Scope, c: Str)
    requires IsBucket(b) && IsPlain(Scope(scope.prefix, []), []) && IsWrapped(scope.delimiter)
    requires CommonPrefixOf(c, scope.prefix, scope.delimiter) == Some(c) && StartsWith(c, scope.prefix)
    ensures var items := Group(Live(Select(b, GenMDParamsV0(scope, c))), scope);
            items != [] && items[0] == CommonPrefix(c)
            <==> Repeats(b, c)
  {
    hide Lt;
    hide Live;
    hide Group;
    hide GenMDParamsV0;
    hide InRange;
    hide ItemOf;
    hide CommonPrefixOf;
    var r := GenMDParamsV0(scope, c);
    var objects := Live(Select(b, r));
    var items := Group(objects, scope);
    forall o
      ensures o in objects <==> o in Live(b) && StartsWith(o.key, scope.prefix) && Lt(c, o.key)
    {
      LiveAfter(b, scope, c, o);
    }
    SelectedSorted(b, r);
    GroupIsDistinct(objects, scope);
    if exists o :: o in Live(b) && StartsWith(o.key, c) && o.key != c {
      var o :| o in Live(b) && StartsWith(o.key, c) && o.key != c;
      UnderCommonPrefix(o, scope, c);
      assert CommonPrefix(c) in items;
      var i :| 0 <= i < |items| && items[i] == CommonPrefix(c);
      NothingBefore(objects, scope, c);
      assert items[0] in items;
      if i > 0 {
        StrictTotalOrder(c, ItemKey(items[0]), c);
      }
    }
    if items != [] && items[0] == CommonPrefix(c) {
      assert items[0] in items;
      var o :| o in objects && ItemOf(o, scope) == CommonPrefix(c);
      ItemKeyIsPrefix(o, scope);
      StrictTotalOrder(c, o.key, c);
    }
  }

  lemma LiveAfter(b: seq<Entry>, scope: Scope, c: Str, o: Object)
    requires IsBucket(b) && IsPlain(Scope(scope.prefix, []), []) && IsWrapped(scope.delimiter)
    requires CommonPrefixOf(c, scope.prefix, scope.delimiter) == Some(c)
    ensures var r := GenMDParamsV0(scope, c);
            o in Live(Select(b, r)) <==> o in Live(b) && StartsWith(o.key, scope.prefix) && Lt(c, o.key)
  {
    hide Lt;
    hide Live;
    var r := GenMDParamsV0(scope, c);
    IncIsPlain(scope.prefix);
    SeekIsSuffix(b, r);
    LiveIsRead(SeekFrom(b, r), r, o);
    LiveIsSought(b, r, o);
    WrappedDelimiterRange(o.key, scope, c);
  }

  lemma SelectedSorted(b: seq<Entry>, r: Range)
    requires IsBucket(b)
    ensures SortedObjects(Live(Select(b, r)))
  {
    hide Lt;
    SeekIsSuffix(b, r);
    ReadIsPrefix(SeekFrom(b, r), r);
    LiveSorted(Select(b, r));
  }

  lemma UnderCommonPrefix(o: Object, scope: Scope, c: Str)
    requires CommonPrefixOf(c, scope.prefix, scope.delimiter) == Some(c) && StartsWith(c, scope.prefix)
    requires StartsWith(o.key, c)
    ensures ItemOf(o, scope) == CommonPrefix(c) && StartsWith(o.key, scope.prefix)
    ensures o.key != c ==> Lt(c, o.key)
  {
    hide Lt;
    CommonPrefixShared(c, o.key, scope.prefix, scope.delimiter);
    PrefixIsLe(o.key, c);
    Ordered();
  }

  /** Items of keys beyond a common prefix are not before it. */
  lemma NothingBefore(objects: seq<Object>, scope: Scope, c: Str)
    requires CommonPrefixOf(c, scope.prefix, scope.delimiter) == Some(c)
    requires forall o :: o in objects ==> Lt(c, o.key)
    requires SortedObjects(objects)
    ensures forall item :: item in Group(objects, scope) ==> !Lt(ItemKey(item), c)
  {
    hide Lt;
    hide Group;
    GroupIsDistinct(objects, scope);
    var first := Object(c, Value(false, false, 0));
    forall item | item in Group(objects, scope)
      ensures !Lt(ItemKey(item), c)
    {
      var o :| o in objects && ItemOf(o, scope) == item;
      ItemsAscend(first, o, scope);
      StrictTotalOrder(c, ItemKey(item), c);
    }
  }

  /** A skip under such a prefix asks for a key before the last one read. */
  lemma WrappedTargetIsBehind(q: Str, last: Str)
    requires IsWrapped(q) && StartsWith(last, q)
    ensures Lt(Inc(q), last)
  {
    hide Lt;
    IncWraps(q);
    PrefixIsLe(last, q);
    Transitive(Inc(q), q, last);
    Ordered();
  }
}
