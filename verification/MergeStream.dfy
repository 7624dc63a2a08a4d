/**
  The merge of two input streams by event handlers: items, ends and read requests arrive in
  any order that pausing and resuming the inputs allows.  What is pushed is proved to be
  the merge of the inputs, ended exactly once, and the merge never gets stuck.
 */
module MergeStreams {
  import opened Keys

  /** The latest item of an input: nothing yet, none any more, or an item. */
  datatype Peek<T> = NotStarted | NoMore | Item(item: T)

  type Index = i: int | 0 <= i < 2 witness 0

  type Compare<!T> = (T, T) -> int

  /** Merges by comparing the first items. */
  function Merge<T>(a: seq<T>, b: seq<T>, compare: Compare<T>): seq<T>
    decreases |a| + |b|
  {
    if a == [] then b
    else if b == [] then a
    else if compare(a[0], b[0]) <= 0 then [a[0]] + Merge(a[1..], b, compare)
    else [b[0]] + Merge(a, b[1..], compare)
  }

  /** Items of different inputs never compare equal, and compare alike both ways round. */
  ghost predicate AreApart<T(!new)>(a: seq<T>, b: seq<T>, compare: Compare<T>) {
    forall x, y :: x in a && y in b ==>
      compare(x, y) != 0 && compare(y, x) != 0 && (compare(x, y) < 0 <==> compare(y, x) > 0)
  }

  /** The merge as seen from the input at index `i`. */
  function MergeOf<T>(i: Index, mine: seq<T>, others: seq<T>, compare: Compare<T>): seq<T> {
    if i == 0 then Merge(mine, others, compare) else Merge(others, mine, compare)
  }

  lemma MergeOfIndex<T>(i: Index, mine: seq<T>, others: seq<T>, compare: Compare<T>)
    ensures MergeOf(i, mine, others, compare)
         == if i == 0 then Merge(mine, others, compare) else Merge(others, mine, compare)
  {
  }

  /** An item comes next when it is not greater than the first one of the other input. */
  lemma TakeMine<T>(i: Index, x: T, mine: seq<T>, others: seq<T>, compare: Compare<T>)
    requires others != [] ==>
               && compare(x, others[0]) < 0
               && (i == 1 ==> compare(others[0], x) > 0)
    ensures MergeOf(i, [x] + mine, others, compare) == [x] + MergeOf(i, mine, others, compare)
  {
    assert ([x] + mine)[1..] == mine;
    if i == 1 {
      TakeSecond(x, mine, others, compare);
    }
  }

  lemma TakeSecond<T>(x: T, mine: seq<T>, others: seq<T>, compare: Compare<T>)
    requires others != [] ==> compare(others[0], x) > 0
    ensures Merge(others, [x] + mine, compare) == [x] + Merge(others, mine, compare)
  {
    assert ([x] + mine)[1..] == mine;
    if others == [] {
      assert Merge(others, mine, compare) == mine;
    }
  }

  /** What is left of an input, and its latest item, belong to it. */
  ghost predicate IsKnown<T(!new)>(input: seq<T>, rest: seq<T>, peek: Peek<T>) {
    (forall x :: x in rest ==> x in input) && (peek.Item? ==> peek.item in input)
  }

  lemma KnownNext<T(!new)>(input: seq<T>, rest: seq<T>, peek: Peek<T>)
    requires IsKnown(input, rest, peek)
    ensures rest != [] ==> rest[0] in input && IsKnown(input, rest[1..], Item(rest[0]))
    ensures IsKnown(input, rest, NoMore) && (peek.Item? ==> peek.item in input)
  {
  }

  class MergeStream<T(==,!new)> {
    const compare: Compare<T>
    var peekItems: seq<Peek<T>>
    var streamEof: seq<bool>
    var streamToResume: Option<Index>
    /** The inputs: whether they flow, and what they have still to deliver. */
    var flowing: seq<bool>
    var source: seq<seq<T>>
    /** What has been pushed, and how often the end of the stream. */
    var pushed: seq<T>
    var ends: nat

    /** The whole inputs, and which of the latest items are still to be pushed. */
    ghost const inputs: seq<seq<T>>
    ghost var held: seq<bool>

    /** What of an input is still to be pushed. */
    ghost function Pending(i: Index): seq<T>
      requires |peekItems| == |source| == |held| == 2
      reads this`peekItems, this`source, this`held
    {
      (if held[i] && peekItems[i].Item? then [peekItems[i].item] else []) + source[i]
    }

    ghost predicate Shaped()
      reads this`peekItems, this`streamEof, this`flowing, this`source, this`held
    {
      |inputs| == 2 && |peekItems| == 2 && |streamEof| == 2 && |flowing| == 2 && |source| == 2 && |held| == 2
    }

    /** What holds of one input, the other being at index `1 - i`. */
    ghost predicate InputValid(i: Index)
      requires Shaped()
      reads this`peekItems, this`streamEof, this`flowing, this`source, this`held, this`streamToResume
    {
      var o := 1 - i;
      && (peekItems[i].NotStarted? ==> !streamEof[i] && flowing[i])
      && (peekItems[i].NoMore? ==> streamEof[i])
      && (streamEof[i] ==> source[i] == [])
      // an item still to be pushed waits for the other input, which is not over
      && (held[i] ==>
            && peekItems[i].Item? && !flowing[i] && !held[o] && streamToResume != Some(i) && !streamEof[o]
            && !peekItems[o].NoMore?
            && (peekItems[o].Item? ==>
                  compare(peekItems[i].item, peekItems[o].item) > 0
                  && compare(peekItems[o].item, peekItems[i].item) < 0))
      // an input that nothing waits for goes on
      && (!held[i] && !streamEof[i] ==> flowing[i] || streamToResume == Some(i))
      && (streamToResume == Some(i) && flowing[i] ==> streamEof[o])
    }

    /** Items to push come from the inputs. */
    ghost predicate AreKnown()
      requires Shaped()
      reads this`peekItems, this`streamEof, this`flowing, this`source, this`held
    {
      IsKnown(inputs[0], source[0], peekItems[0]) && IsKnown(inputs[1], source[1], peekItems[1])
    }

    ghost predicate Valid()
      reads this
    {
      && Shaped() && AreApart(inputs[0], inputs[1], compare) && AreKnown()
      && InputValid(0) && InputValid(1)
      && (!held[0] && !held[1] ==>
            && (peekItems[0].Item? ==> peekItems[1].NoMore?)
            && (peekItems[1].Item? ==> peekItems[0].NoMore?))
      && (ends == if streamEof[0] && streamEof[1] then 1 else 0)
      && Conserved()
    }

    /** What has been pushed and what is still to be pushed make up the merge. */
    ghost predicate Conserved()
      reads this`peekItems, this`source, this`held, this`pushed
    {
      && |peekItems| == |source| == |held| == |inputs| == 2
      && pushed + Merge(Pending(0), Pending(1), compare) == Merge(inputs[0], inputs[1], compare)
    }

    constructor (compare: Compare<T>, stream0: seq<T>, stream1: seq<T>)
      requires AreApart(stream0, stream1, compare)
      ensures Valid() && pushed == [] && ends == 0 && inputs == [stream0, stream1] && this.compare == compare
    {
      this.compare := compare;
      peekItems := [NotStarted, NotStarted];
      streamEof := [false, false];
      streamToResume := None;
      flowing := [true, true];
      source := [stream0, stream1];
      pushed := [];
      ends := 0;
      inputs := [stream0, stream1];
      held := [false, false];
      new;
      assert Pending(0) == stream0 && Pending(1) == stream1;
      assert [] + Merge(stream0, stream1, compare) == Merge(stream0, stream1, compare);
    }

    /** Pushes an item; `more` is whether the reader wants more. */
    method Push(item: T)
      modifies this`pushed
      ensures pushed == old(pushed) + [item]
    {
      pushed := pushed + [item];
    }

    ghost function Rest(): seq<T>
      requires |peekItems| == |source| == |held| == 2
      reads this`peekItems, this`source, this`held
    {
      Merge(Pending(0), Pending(1), compare)
    }

    lemma Apart(my: Index, x: T, y: T)
      requires |inputs| == 2 && AreApart(inputs[0], inputs[1], compare)
      requires x in inputs[my] && y in inputs[1-my]
      ensures compare(x, y) != 0 && (compare(x, y) < 0 <==> compare(y, x) > 0)
      ensures compare(y, x) != 0
    {
      var a, b := if my == 0 then x else y, if my == 0 then y else x;
      assert a in inputs[0] && b in inputs[1];
      assert compare(a, b) != 0 && (compare(a, b) < 0 <==> compare(b, a) > 0);
    }

    /** The item `x` is the next one to be delivered by the input at index `my`. */
    ghost predicate Arrives(my: Index, x: T)
      reads this
    {
      Valid() && flowing[my] && source[my] != [] && source[my][0] == x
    }

    lemma NextItem(my: Index, x: T)
      requires Arrives(my, x)
      ensures x in inputs[my] && !held[my] && !streamEof[my] && Pending(my) == [x] + source[my][1..]
      ensures peekItems[1-my].Item? ==> held[1-my] && Pending(1-my) == [peekItems[1-my].item] + source[1-my]
      ensures !peekItems[1-my].Item? ==> Pending(1-my) == source[1-my]
    {
      hide Merge;
      hide AreApart;
      assert source[my][0] in source[my];
    }

    /** The item that arrives is the next one of the merge. */
    lemma MineIsNext(my: Index, x: T)
      requires Arrives(my, x)
      requires !peekItems[1-my].NotStarted?
      requires peekItems[1-my].Item? ==> compare(x, peekItems[1-my].item) <= 0
      ensures pushed + [x] + MergeOf(my, source[my][1..], Pending(1 - my), compare)
           == Merge(inputs[0], inputs[1], compare)
      ensures peekItems[1-my].Item? ==> compare(x, peekItems[1-my].item) < 0 < compare(peekItems[1-my].item, x)
    {
      hide Merge;
      hide AreApart;
      hide IsKnown;
      KnownNext(inputs[my], source[my], peekItems[my]);
      KnownNext(inputs[1-my], source[1-my], peekItems[1-my]);
      NextItem(my, x);
      var mine, others := source[my][1..], Pending(1 - my);
      if peekItems[1-my].Item? {
        Apart(my, x, peekItems[1-my].item);
      } else {
        assert others == [];
      }
      TakeMine(my, x, mine, others, compare);
      assert pushed + ([x] + MergeOf(my, mine, others, compare)) == pushed + [x] + MergeOf(my, mine, others, compare);
    }

    /** The waiting item of the other input is, and then, if it was the last, the new one. */
    lemma OtherIsNext(my: Index, x: T)
      requires Arrives(my, x) && peekItems[1-my].Item? && compare(x, peekItems[1-my].item) > 0
      ensures var y, mine, others := peekItems[1-my].item, source[my][1..], source[1-my];
              && pushed + [y] + MergeOf(my, [x] + mine, others, compare) == Merge(inputs[0], inputs[1], compare)
              && compare(y, x) < 0
              && (streamEof[1-my] ==>
                    pushed + [y] + [x] + MergeOf(my, mine, [], compare) == Merge(inputs[0], inputs[1], compare))
    {
      hide Merge;
      hide AreApart;
      hide IsKnown;
      KnownNext(inputs[my], source[my], peekItems[my]);
      KnownNext(inputs[1-my], source[1-my], peekItems[1-my]);
      NextItem(my, x);
      var y, mine, others := peekItems[1-my].item, source[my][1..], source[1-my];
      Apart(my, x, y);
      TakeMine(1 - my, y, others, [x] + mine, compare);
      var rest := MergeOf(my, [x] + mine, others, compare);
      assert pushed + ([y] + rest) == pushed + [y] + rest;
      if streamEof[1-my] {
        TakeMine(my, x, mine, [], compare);
        var last := MergeOf(my, mine, [], compare);
        assert pushed + [y] + ([x] + last) == pushed + [y] + [x] + last;
      }
    }

    /** The first item of an input waits until the other one starts. */
    method WaitForOther(my: Index, myItem: T)
      requires Arrives(my, myItem) && peekItems[1-my].NotStarted?
      modifies this
      ensures Valid() && streamEof == old(streamEof) && source == old(source)[my := old(source)[my][1..]]
    {
      hide Merge;
      hide AreApart;
      hide IsKnown;
      KnownNext(inputs[my], source[my], peekItems[my]);
      KnownNext(inputs[1-my], source[1-my], peekItems[1-my]);
      NextItem(my, myItem);
      ghost var mine, others := Pending(my), Pending(1 - my);
      source := source[my := source[my][1..]];
      peekItems := peekItems[my := Item(myItem)];
      flowing := flowing[my := false];
      held := held[my := true];
      assert Pending(my) == mine && Pending(1 - my) == others;
      assert Conserved() && AreKnown() by {
        hide InputValid;
        hide MergeOf;
      }
      hide Conserved;
      hide Pending;
      hide AreKnown;
    }

    /** The item is pushed; if the reader wants no more, its input pauses. */
    method PushMine(my: Index, myItem: T, more: bool)
      requires Arrives(my, myItem) && !peekItems[1-my].NotStarted?
      requires peekItems[1-my].Item? ==> compare(myItem, peekItems[1-my].item) <= 0
      modifies this
      ensures Valid() && streamEof == old(streamEof) && source == old(source)[my := old(source)[my][1..]]
    {
      hide Merge;
      hide AreApart;
      hide IsKnown;
      hide MergeOf;
      KnownNext(inputs[my], source[my], peekItems[my]);
      KnownNext(inputs[1-my], source[1-my], peekItems[1-my]);
      NextItem(my, myItem);
      ghost var mine, others := source[my][1..], Pending(1 - my);
      MineIsNext(my, myItem);
      source := source[my := source[my][1..]];
      peekItems := peekItems[my := Item(myItem)];
      Push(myItem);
      if !more {
        flowing := flowing[my := false];
        streamToResume := Some(my);
      }
      assert Pending(my) == mine && Pending(1 - my) == others;
      assert Conserved() && AreKnown() by {
        MergeOfIndex(my, mine, others, compare);
      }
      hide Conserved;
      hide Pending;
      hide AreKnown;
    }

    /** The waiting item of the other input is pushed; it was the last one, and so the item
        that has arrived is pushed, too. */
    method PushBoth(my: Index, myItem: T)
      requires Arrives(my, myItem) && peekItems[1-my].Item? && compare(myItem, peekItems[1-my].item) > 0
      requires streamEof[1-my]
      modifies this
      ensures Valid() && streamEof == old(streamEof) && source == old(source)[my := old(source)[my][1..]]
    {
      hide Merge;
      hide AreApart;
      hide IsKnown;
      KnownNext(inputs[my], source[my], peekItems[my]);
      KnownNext(inputs[1-my], source[1-my], peekItems[1-my]);
      NextItem(my, myItem);
      var other: Index := 1 - my;
      var otherItem := peekItems[other].item;
      ghost var mine := source[my][1..];
      OtherIsNext(my, myItem);
      source := source[my := source[my][1..]];
      Push(otherItem);
      held := held[other := false];
      peekItems := peekItems[my := Item(myItem)][other := NoMore];
      Push(myItem);
      assert Pending(my) == mine && Pending(other) == [];
      assert Conserved() && AreKnown() by {
        hide InputValid;
        hide MergeOf;
      }
      hide Conserved;
      hide Pending;
      hide AreKnown;
    }

    /** The waiting item of the other input is pushed, and the new one waits in its turn. */
    method PushOther(my: Index, myItem: T, more: bool)
      requires Arrives(my, myItem) && !streamEof[1-my]
      requires peekItems[1-my].Item? && compare(myItem, peekItems[1-my].item) > 0
      modifies this
      ensures Valid() && streamEof == old(streamEof) && source == old(source)[my := old(source)[my][1..]]
    {
      hide Merge;
      hide AreApart;
      hide IsKnown;
      hide MergeOf;
      KnownNext(inputs[my], source[my], peekItems[my]);
      KnownNext(inputs[1-my], source[1-my], peekItems[1-my]);
      NextItem(my, myItem);
      var other: Index := 1 - my;
      var otherItem := peekItems[other].item;
      ghost var mine, others := source[my][1..], source[other];
      OtherIsNext(my, myItem);
      source := source[my := source[my][1..]];
      peekItems := peekItems[my := Item(myItem)];
      Push(otherItem);
      held := held[other := false];
      held := held[my := true];
      flowing := flowing[my := false];
      assert Pending(my) == [myItem] + mine && Pending(other) == others;
      assert Conserved() && AreKnown() by {
        MergeOfIndex(my, [myItem] + mine, others, compare);
      }
      hide Conserved;
      hide Pending;
      hide AreKnown;
      if more {
        flowing := flowing[other := true];
      } else {
        streamToResume := Some(other);
      }
    }

    /** An item arrives from the input at index `my`; `more` is whether the reader wants
        more after the first item pushed. */
    method OnItem(my: Index, more: bool)
      requires Valid() && flowing[my] && source[my] != []
      modifies this
      ensures Valid() && streamEof == old(streamEof) && source == old(source)[my := old(source)[my][1..]]
    {
      hide Merge;
      hide AreApart;
      var myItem, otherItem := source[my][0], peekItems[1-my];
      if otherItem.NotStarted? {
        WaitForOther(my, myItem);
      } else if otherItem.NoMore? || compare(myItem, otherItem.item) <= 0 {
        PushMine(my, myItem, more);
      } else if streamEof[1-my] {
        PushBoth(my, myItem);
      } else {
        PushOther(my, myItem, more);
      }
    }

    /** When an input ends with nothing to push, the waiting item of the other one is next. */
    lemma WaitingIsNext(my: Index)
      requires Valid() && source[my] == [] && !streamEof[my] && peekItems[1-my].Item?
      requires peekItems[my].Item? ==> compare(peekItems[my].item, peekItems[1-my].item) <= 0
      ensures held[1-my] && !held[my] && !peekItems[my].NoMore?
      ensures pushed + [peekItems[1-my].item] + MergeOf(my, [], source[1-my], compare)
           == Merge(inputs[0], inputs[1], compare)
    {
      hide Merge;
      hide AreApart;
      var x, others := peekItems[1-my].item, source[1-my];
      if peekItems[my].Item? {
        Apart(my, peekItems[my].item, x);
      }
      assert Pending(my) == [] && Pending(1 - my) == [x] + others;
      TakeMine(1 - my, x, others, [], compare);
      var rest := MergeOf(my, [], others, compare);
      assert pushed + ([x] + rest) == pushed + [x] + rest;
    }

    /** The part of the end of an input that pushes what waited for it. */
    method PushLast(my: Index)
      requires Valid() && source[my] == [] && !streamEof[my] && peekItems[1-my].Item?
      requires peekItems[my].Item? ==> compare(peekItems[my].item, peekItems[1-my].item) <= 0
      modifies this
      ensures Valid() && streamEof == old(streamEof)[my := true] && source == old(source)
    {
      hide Merge;
      hide AreApart;
      hide IsKnown;
      KnownNext(inputs[my], source[my], peekItems[my]);
      WaitingIsNext(my);
      var other: Index := 1 - my;
      streamEof := streamEof[my := true];
      Push(peekItems[other].item);
      peekItems := peekItems[my := NoMore];
      held := held[other := false];
      assert Pending(my) == [] && Pending(other) == source[other];
      assert Conserved() && AreKnown() by {
        hide InputValid;
        hide MergeOf;
      }
      hide Conserved;
      hide Pending;
      hide AreKnown;
      if streamEof[other] {
        ends := ends + 1;
        return;
      }
      flowing := flowing[other := true];
    }

    /** The input at index `my` ends; it may be a paused one. */
    method OnEnd(my: Index)
      requires Valid() && source[my] == [] && !streamEof[my]
      modifies this
      ensures Valid() && streamEof == old(streamEof)[my := true] && source == old(source)
    {
      hide Merge;
      hide AreApart;
      var other: Index := 1 - my;
      var myItem := if peekItems[my].NotStarted? then NoMore else peekItems[my];
      var otherItem := peekItems[other];
      if otherItem.Item? && (myItem.NoMore? || compare(myItem.item, otherItem.item) <= 0) {
        PushLast(my);
        return;
      }
      ghost var mine, others := Pending(my), Pending(other);
      streamEof := streamEof[my := true];
      peekItems := peekItems[my := myItem];
      assert Pending(my) == mine && Pending(other) == others;
      assert Conserved() && AreKnown() by {
        hide InputValid;
      }
      hide Conserved;
      hide Pending;
      hide AreKnown;
      if otherItem.NotStarted? {
        return;
      }
      if otherItem.NoMore? {
        ends := ends + 1;
        return;
      }
      if streamEof[other] {
        // the item of an input that is over does not make another one wait
        assert false;
      }
      flowing := flowing[other := true];
    }

    /** The reader wants more. */
    method Read()
      requires Valid()
      modifies this`flowing, this`streamToResume
      ensures Valid() && streamToResume == None
      ensures flowing == if old(streamToResume).Some? then old(flowing)[old(streamToResume).value := true]
                         else old(flowing)
    {
      hide Merge;
      hide AreApart;
      if streamToResume.Some? {
        flowing := flowing[streamToResume.value := true];
        streamToResume := None;
      }
    }

    /** An input that is not over and flows, or will when the reader wants more. */
    predicate CanGoOn(i: Index)
      requires |streamEof| == |flowing| == 2
      reads this`streamEof, this`flowing, this`streamToResume
    {
      !streamEof[i] && (flowing[i] || streamToResume == Some(i))
    }

    /** The merge never gets stuck: until it has ended, some input can go on. */
    lemma NeverStuck()
      requires Valid() && ends == 0
      ensures CanGoOn(0) || CanGoOn(1)
    {
      hide Merge;
      hide AreApart;
    }

    /** Once the merge has ended, everything has been pushed. */
    lemma EndIsComplete()
      requires Valid() && ends > 0
      ensures ends == 1 && pushed == Merge(inputs[0], inputs[1], compare)
    {
      hide AreApart;
      assert Pending(0) == [] && Pending(1) == [];
    }

    /** What has been pushed at any time is the beginning of the merge. */
    lemma PushedIsBeginning()
      requires Valid()
      ensures |pushed| <= |Merge(inputs[0], inputs[1], compare)|
      ensures pushed == Merge(inputs[0], inputs[1], compare)[..|pushed|]
    {
      hide Merge;
      hide AreApart;
      hide InputValid;
    }
  }

  // ---------------------------------------------------------------------------
  // What the merge is

  ghost predicate Sorted<T(!new)>(s: seq<T>, compare: Compare<T>) {
    forall i, j :: 0 <= i < j < |s| ==> compare(s[i], s[j]) < 0
  }

  ghost predicate IsTransitive<T(!new)>(compare: Compare<T>) {
    forall x, y, z :: compare(x, y) < 0 && compare(y, z) < 0 ==> compare(x, z) < 0
  }

  /** Of two sorted inputs, the merge is sorted and holds the items of both. */
  lemma {:induction false} MergeIsSorted<T(!new)>(a: seq<T>, b: seq<T>, compare: Compare<T>)
    requires Sorted(a, compare) && Sorted(b, compare) && AreApart(a, b, compare)
    requires IsTransitive(compare)
    ensures Sorted(Merge(a, b, compare), compare)
    ensures multiset(Merge(a, b, compare)) == multiset(a) + multiset(b)
    decreases |a| + |b|
  {
    hide Sorted;
    hide AreApart;
    hide IsTransitive;
    if a == [] {
      assert multiset(a) + multiset(b) == multiset(b);
    } else if b == [] {
      assert multiset(a) + multiset(b) == multiset(a);
    } else if compare(a[0], b[0]) <= 0 {
      Parts(a, b, compare);
      HeadIsLeast(a[0], a[1..], b[0], b[1..], compare);
      MergeIsSorted(a[1..], b, compare);
      MergeHas(a[1..], b, compare);
      ConsSorted(a[0], Merge(a[1..], b, compare), compare);
    } else {
      Parts(a, b, compare);
      HeadIsLeast(b[0], b[1..], a[0], a[1..], compare);
      MergeIsSorted(a, b[1..], compare);
      MergeHas(a, b[1..], compare);
      ConsSorted(b[0], Merge(a, b[1..], compare), compare);
    }
  }

  lemma ConsSorted<T(!new)>(x: T, s: seq<T>, compare: Compare<T>)
    requires Sorted(s, compare) && forall z :: z in s ==> compare(x, z) < 0
    ensures Sorted([x] + s, compare)
  {
  }

  lemma Parts<T(!new)>(a: seq<T>, b: seq<T>, compare: Compare<T>)
    requires Sorted(a, compare) && Sorted(b, compare) && AreApart(a, b, compare) && a != [] && b != []
    ensures a == [a[0]] + a[1..] && b == [b[0]] + b[1..]
    ensures Sorted(a[1..], compare) && Sorted(b[1..], compare)
    ensures AreApart(a[1..], b, compare) && AreApart(a, b[1..], compare)
    ensures compare(a[0], b[0]) != 0 && (compare(a[0], b[0]) > 0 ==> compare(b[0], a[0]) < 0)
  {
    assert a[0] in a && b[0] in b;
    TailIsApart(a, b, compare);
  }

  lemma TailIsApart<T(!new)>(a: seq<T>, b: seq<T>, compare: Compare<T>)
    requires AreApart(a, b, compare) && a != [] && b != []
    ensures AreApart(a[1..], b, compare) && AreApart(a, b[1..], compare)
  {
    forall x, y | x in a[1..] && y in b
      ensures compare(x, y) != 0 && compare(y, x) != 0 && (compare(x, y) < 0 <==> compare(y, x) > 0)
    {
      assert x in a;
    }
    forall x, y | x in a && y in b[1..]
      ensures compare(x, y) != 0 && compare(y, x) != 0 && (compare(x, y) < 0 <==> compare(y, x) > 0)
    {
      assert y in b;
    }
  }

  lemma HeadIsLeast<T(!new)>(x: T, a: seq<T>, y: T, b: seq<T>, compare: Compare<T>)
    requires Sorted([x] + a, compare) && Sorted([y] + b, compare) && compare(x, y) < 0
    requires IsTransitive(compare)
    ensures forall z :: z in a || z in [y] + b ==> compare(x, z) < 0
  {
    var p, q := [x] + a, [y] + b;
    forall z | z in a
      ensures compare(x, z) < 0
    {
      var i :| 0 <= i < |a| && a[i] == z;
      assert p[i+1] == z && p[0] == x;
    }
    forall z | z in q
      ensures compare(x, z) < 0
    {
      var i :| 0 <= i < |q| && q[i] == z;
      assert p[0] == x && q[0] == y;
      assert i > 0 ==> compare(q[0], q[i]) < 0;
    }
  }

  lemma {:induction false} MergeHas<T>(a: seq<T>, b: seq<T>, compare: Compare<T>)
    ensures forall x :: x in Merge(a, b, compare) <==> x in a || x in b
    decreases |a| + |b|
  {
    if a != [] && b != [] {
      if compare(a[0], b[0]) <= 0 {
        MergeHas(a[1..], b, compare);
      } else {
        MergeHas(a, b[1..], compare);
      }
    }
  }

  // ---------------------------------------------------------------------------
  // Whole runs

  /** What is tried next: an input, whether the reader wants more, and first of all or not. */
  datatype Choice = Choice(input: Index, more: bool, readFirst: bool)

  /**
    A whole run: items, ends and read requests come in any order that the inputs allow.  It
    comes to an end, and has pushed the merge of the inputs.
   */
  method Run<T(==,!new)>(compare: Compare<T>, stream0: seq<T>, stream1: seq<T>, choose: nat -> Choice)
    returns (pushed: seq<T>)
    requires AreApart(stream0, stream1, compare)
    ensures pushed == Merge(stream0, stream1, compare)
  {
    hide Merge;
    hide AreApart;
    var merge := new MergeStream(compare, stream0, stream1);
    var n: nat := 0;
    while merge.ends == 0
      invariant merge.Valid() && fresh(merge)
      invariant merge.inputs == [stream0, stream1] && merge.compare == compare
      decreases |merge.source[0]| + |merge.source[1]|
                + (if merge.streamEof[0] then 0 else 1) + (if merge.streamEof[1] then 0 else 1),
                if merge.streamToResume.Some? then 1 else 0
    {
      merge.NeverStuck();
      var c := choose(n);
      n := n + 1;
      var mayEnd := !merge.streamEof[c.input] && merge.source[c.input] == [];
      var i: Index := if mayEnd || merge.CanGoOn(c.input) then c.input else 1 - c.input;
      if merge.streamToResume.Some? && (c.readFirst || (!merge.flowing[i] && !mayEnd)) {
        merge.Read();
      } else if merge.source[i] != [] {
        merge.OnItem(i, c.more);
      } else {
        merge.OnEnd(i);
      }
    }
    merge.EndIsComplete();
    pushed := merge.pushed;
  }
}
