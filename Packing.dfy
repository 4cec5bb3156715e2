/** Greedy packing of text items into length-bounded blocks, the rule the
    digest's message splitter follows: items are taken in order, and a new
    block is begun whenever appending the next item to the current block
    would make it longer than `max`. */
module Packing {
  import Text

  /** The total length of the items of a group. */
  function Size(group: seq<string>): nat {
    if group == [] then 0 else Size(group[..|group| - 1]) + |group[|group| - 1]|
  }

  /** The items of all groups, group after group. */
  function Flatten(groups: seq<seq<string>>): seq<string> {
    if groups == [] then [] else Flatten(groups[..|groups| - 1]) + groups[|groups| - 1]
  }

  /** One step of the packer: `item` joins the last group unless that would
      make it longer than `max`, in which case it begins a new group. */
  function Place(groups: seq<seq<string>>, item: string, max: nat): seq<seq<string>> {
    if groups == [] then [[item]]
    else if Size(groups[|groups| - 1]) + |item| > max then groups + [[item]]
    else groups[..|groups| - 1] + [groups[|groups| - 1] + [item]]
  }

  /** The greedy packing of `items`, item by item. */
  function Pack(items: seq<string>, max: nat): seq<seq<string>> {
    if items == [] then [] else Place(Pack(items[..|items| - 1], max), items[|items| - 1], max)
  }

  /** The text of each group. */
  function Texts(groups: seq<seq<string>>): seq<string> {
    seq(|groups|, k requires 0 <= k < |groups| => Text.Concat(groups[k]))
  }

  /** The text of each block of the greedy packing. */
  function Blocks(items: seq<string>, max: nat): seq<string> {
    Texts(Pack(items, max))
  }

  /** A packing of `items` is greedy when its groups, in order, are exactly
      the items; no group is empty; a group longer than `max` is a single
      item; and no group could have taken the first item of the next. */
  ghost predicate IsGreedyPacking(items: seq<string>, groups: seq<seq<string>>, max: nat) {
    && Flatten(groups) == items
    && GroupsFit(groups, max)
    && (forall k :: 0 < k < |groups| ==> Size(groups[k - 1]) + |groups[k][0]| > max)
  }

  /** No group is empty, and a group longer than `max` is a single item. */
  ghost predicate GroupsFit(groups: seq<seq<string>>, max: nat) {
    forall k :: 0 <= k < |groups| ==> groups[k] != [] && (Size(groups[k]) <= max || |groups[k]| == 1)
  }

  lemma {:induction false} SizeIsLength(group: seq<string>)
    ensures Size(group) == |Text.Concat(group)|
  {
    if group != [] {
      SizeIsLength(group[..|group| - 1]);
    }
  }

  lemma FlattenAppend(groups: seq<seq<string>>, group: seq<string>)
    ensures Flatten(groups + [group]) == Flatten(groups) + group
  {
    assert (groups + [group])[..|groups|] == groups;
  }

  lemma SizeAppend(group: seq<string>, item: string)
    ensures Size(group + [item]) == Size(group) + |item|
  {
    assert (group + [item])[..|group|] == group;
  }

  lemma PackStep(items: seq<string>, item: string, max: nat)
    ensures Pack(items + [item], max) == Place(Pack(items, max), item, max)
  {
    assert (items + [item])[..|items|] == items;
  }

  lemma PlaceFlattens(groups: seq<seq<string>>, item: string, max: nat)
    ensures Flatten(Place(groups, item, max)) == Flatten(groups) + [item]
  {
    if groups == [] || Size(groups[|groups| - 1]) + |item| > max {
      FlattenAppend(groups, [item]);
    } else {
      var front := groups[..|groups| - 1];
      var last := groups[|groups| - 1];
      assert groups == front + [last];
      FlattenAppend(front, last);
      FlattenAppend(front, last + [item]);
    }
  }

  lemma PlaceFits(groups: seq<seq<string>>, item: string, max: nat)
    requires GroupsFit(groups, max)
    ensures GroupsFit(Place(groups, item, max), max)
  {
    if groups != [] && Size(groups[|groups| - 1]) + |item| <= max {
      SizeAppend(groups[|groups| - 1], item);
    }
  }

  lemma PlaceKeepsBoundaries(groups: seq<seq<string>>, item: string, max: nat)
    requires GroupsFit(groups, max)
    requires forall k :: 0 < k < |groups| ==> Size(groups[k - 1]) + |groups[k][0]| > max
    ensures var placed := Place(groups, item, max);
            forall k :: 0 < k < |placed| ==> placed[k] != [] && Size(placed[k - 1]) + |placed[k][0]| > max
  {
    var placed := Place(groups, item, max);
    PlaceFits(groups, item, max);
    if groups != [] && Size(groups[|groups| - 1]) + |item| <= max {
      forall k | 0 < k < |placed|
        ensures Size(placed[k - 1]) + |placed[k][0]| > max
      {
        assert placed[k - 1] == groups[k - 1];
        assert placed[k][0] == groups[k][0];
      }
    }
  }

  /** The greedy packing satisfies the greedy-packing conditions, and has a
      group exactly when there is an item. */
  lemma {:induction false} PackIsGreedy(items: seq<string>, max: nat)
    ensures IsGreedyPacking(items, Pack(items, max), max)
    ensures Pack(items, max) == [] <==> items == []
  {
    if items != [] {
      var init := items[..|items| - 1];
      var item := items[|items| - 1];
      assert items == init + [item];
      PackIsGreedy(init, max);
      var groups := Pack(init, max);
      PlaceFlattens(groups, item, max);
      PlaceFits(groups, item, max);
      PlaceKeepsBoundaries(groups, item, max);
    }
  }

  /** Removing the last group, when it is a single item, leaves a greedy
      packing of the other items. */
  lemma GreedyWithoutLastGroup(items: seq<string>, groups: seq<seq<string>>, max: nat)
    requires IsGreedyPacking(items, groups, max)
    requires groups != [] && |groups[|groups| - 1]| == 1
    ensures IsGreedyPacking(items[..|items| - 1], groups[..|groups| - 1], max)
  {
    var n := |groups|;
    var front := groups[..n - 1];
    assert groups == front + [groups[n - 1]];
    FlattenAppend(front, groups[n - 1]);
  }

  /** Removing the last item of the last group, when it has several, leaves a
      greedy packing of the other items. */
  lemma GreedyWithoutLastItem(items: seq<string>, groups: seq<seq<string>>, max: nat)
    requires IsGreedyPacking(items, groups, max)
    requires groups != [] && |groups[|groups| - 1]| > 1
    ensures var last := groups[|groups| - 1];
            IsGreedyPacking(items[..|items| - 1], groups[..|groups| - 1] + [last[..|last| - 1]], max)
  {
    var n := |groups|;
    var front := groups[..n - 1];
    var last := groups[n - 1];
    var shorter := last[..|last| - 1];
    var item := last[|last| - 1];
    assert groups == front + [last];
    assert last == shorter + [item];
    FlattenAppend(front, last);
    FlattenAppend(front, shorter);
    SizeAppend(shorter, item);
    var groups' := front + [shorter];
    assert items[..|items| - 1] == Flatten(groups');
    forall k | 0 <= k < |groups'|
      ensures groups'[k] != [] && (Size(groups'[k]) <= max || |groups'[k]| == 1)
    {
      if k < n - 1 {
        assert groups'[k] == groups[k];
      }
    }
    forall k | 0 < k < |groups'|
      ensures Size(groups'[k - 1]) + |groups'[k][0]| > max
    {
      assert groups'[k - 1] == groups[k - 1];
      assert groups'[k][0] == groups[k][0];
    }
  }

  lemma PlaceStartsGroup(groups: seq<seq<string>>, item: string, max: nat)
    requires groups != [] ==> Size(groups[|groups| - 1]) + |item| > max
    ensures Place(groups, item, max) == groups + [[item]]
  {
  }

  lemma PlaceExtendsGroup(front: seq<seq<string>>, last: seq<string>, item: string, max: nat)
    requires Size(last) + |item| <= max
    ensures Place(front + [last], item, max) == front + [last + [item]]
  {
    var groups := front + [last];
    assert groups[..|groups| - 1] == front;
  }

  /** The last item of a greedy packing is the last item of its last
      group. */
  lemma GreedyLastItem(items: seq<string>, groups: seq<seq<string>>, max: nat)
    requires IsGreedyPacking(items, groups, max) && groups != []
    ensures var last := groups[|groups| - 1];
            items != [] && items[|items| - 1] == last[|last| - 1]
  {
    var n := |groups|;
    assert groups == groups[..n - 1] + [groups[n - 1]];
    FlattenAppend(groups[..n - 1], groups[n - 1]);
  }

  /** Packing the last item after the other groups gives it a group of its
      own when that is how the greedy packing ends. */
  lemma RebuildLastGroup(items: seq<string>, groups: seq<seq<string>>, max: nat)
    requires IsGreedyPacking(items, groups, max)
    requires groups != [] && |groups[|groups| - 1]| == 1
    requires Pack(items[..|items| - 1], max) == groups[..|groups| - 1]
    ensures groups == Pack(items, max)
  {
    GreedyLastItem(items, groups, max);
    var n := |groups|;
    var front := groups[..n - 1];
    var item := items[|items| - 1];
    assert groups[n - 1] == [item];
    if front != [] {
      assert Size(front[n - 2]) + |item| > max by {
        assert groups[n - 1][0] == item && front[n - 2] == groups[n - 2];
      }
    }
    PlaceStartsGroup(front, item, max);
    assert groups == front + [[item]];
  }

  /** Packing the last item after the other groups extends the last group
      when that is how the greedy packing ends. */
  lemma RebuildLastItem(items: seq<string>, groups: seq<seq<string>>, max: nat)
    requires IsGreedyPacking(items, groups, max)
    requires groups != [] && |groups[|groups| - 1]| > 1
    requires var last := groups[|groups| - 1];
             Pack(items[..|items| - 1], max) == groups[..|groups| - 1] + [last[..|last| - 1]]
    ensures groups == Pack(items, max)
  {
    GreedyLastItem(items, groups, max);
    var n := |groups|;
    var front := groups[..n - 1];
    var last := groups[n - 1];
    var item := items[|items| - 1];
    var shorter := last[..|last| - 1];
    assert last == shorter + [item];
    assert Size(last) <= max;
    SizeAppend(shorter, item);
    PlaceExtendsGroup(front, shorter, item, max);
    assert groups == front + [last];
  }

  /** The greedy packing is the only greedy packing: the conditions of
      IsGreedyPacking determine the groups. */
  lemma {:induction false} GreedyPackingIsUnique(items: seq<string>, groups: seq<seq<string>>, max: nat)
    requires IsGreedyPacking(items, groups, max)
    ensures groups == Pack(items, max)
  {
    if groups == [] {
      assert items == [];
    } else {
      var last := groups[|groups| - 1];
      if |last| == 1 {
        GreedyWithoutLastGroup(items, groups, max);
        GreedyPackingIsUnique(items[..|items| - 1], groups[..|groups| - 1], max);
        RebuildLastGroup(items, groups, max);
      } else {
        GreedyWithoutLastItem(items, groups, max);
        GreedyPackingIsUnique(items[..|items| - 1], groups[..|groups| - 1] + [last[..|last| - 1]], max);
        RebuildLastItem(items, groups, max);
      }
    }
  }

  lemma ConcatSingle(item: string)
    ensures Text.Concat([item]) == item
  {
    assert [item][..0] == [];
  }

  lemma {:induction false} ConcatFlatten(groups: seq<seq<string>>)
    ensures Text.Concat(Flatten(groups)) == Text.Concat(Texts(groups))
  {
    if groups != [] {
      var n := |groups|;
      var front := groups[..n - 1];
      ConcatFlatten(front);
      Text.ConcatAppend(Flatten(front), groups[n - 1]);
      assert Texts(groups)[..n - 1] == Texts(front);
    }
  }

  /** Nothing is lost, repeated or reordered: the blocks, joined, are the
      items joined. */
  lemma BlocksJoinToItems(items: seq<string>, max: nat)
    ensures Text.Concat(Blocks(items, max)) == Text.Concat(items)
  {
    PackIsGreedy(items, max);
    ConcatFlatten(Pack(items, max));
  }

  lemma {:induction false} GroupItemsAreItems(groups: seq<seq<string>>, k: nat, x: string)
    requires k < |groups| && x in groups[k]
    ensures x in Flatten(groups)
  {
    var n := |groups|;
    var front := groups[..n - 1];
    assert groups == front + [groups[n - 1]];
    FlattenAppend(front, groups[n - 1]);
    if k < n - 1 {
      assert front[k] == groups[k];
      GroupItemsAreItems(front, k, x);
    }
  }

  /** Each block is non-empty when the items are, and is no longer than
      `max` unless it is a single item that is longer on its own: an item is
      never split. */
  lemma BlocksAreBounded(items: seq<string>, max: nat)
    requires forall j :: 0 <= j < |items| ==> items[j] != []
    ensures Blocks(items, max) == [] <==> items == []
    ensures forall k :: 0 <= k < |Blocks(items, max)| ==>
              Blocks(items, max)[k] != [] &&
              (|Blocks(items, max)[k]| <= max || (Blocks(items, max)[k] in items && |Blocks(items, max)[k]| > max))
  {
    PackIsGreedy(items, max);
    var groups := Pack(items, max);
    forall k | 0 <= k < |groups|
      ensures Text.Concat(groups[k]) != [] &&
              (|Text.Concat(groups[k])| <= max || Text.Concat(groups[k]) in items)
    {
      var g := groups[k];
      var x := g[|g| - 1];
      assert g == g[..|g| - 1] + [x];
      GroupItemsAreItems(groups, k, x);
      SizeIsLength(g);
      Text.ConcatAppend(g[..|g| - 1], [x]);
      ConcatSingle(x);
      if |g| == 1 {
        assert g[..0] == [];
      }
    }
  }

  /** How the blocks change when one more item is packed: it either extends
      the last block or, when that would exceed `max`, begins a new block. */
  lemma BlocksStep(items: seq<string>, item: string, max: nat)
    requires items != []
    ensures var blocks := Blocks(items, max);
            blocks != [] &&
            Blocks(items + [item], max) ==
              if |blocks[|blocks| - 1]| + |item| > max then blocks + [item]
              else blocks[..|blocks| - 1] + [blocks[|blocks| - 1] + item]
  {
    PackStep(items, item, max);
    PackStartsWithFirstItem(items, max);
    var groups := Pack(items, max);
    var last := groups[|groups| - 1];
    SizeIsLength(last);
    assert Blocks(items, max)[|groups| - 1] == Text.Concat(last);
    if Size(last) + |item| > max {
      assert Pack(items + [item], max) == groups + [[item]];
      TextsAppendGroup(groups, item);
    } else {
      assert Pack(items + [item], max) == groups[..|groups| - 1] + [last + [item]];
      TextsExtendLast(groups, item);
    }
  }

  lemma TextsAppendGroup(groups: seq<seq<string>>, item: string)
    ensures Texts(groups + [[item]]) == Texts(groups) + [item]
  {
    ConcatSingle(item);
  }

  lemma TextsExtendLast(groups: seq<seq<string>>, item: string)
    requires groups != []
    ensures var n := |groups|;
            Texts(groups[..n - 1] + [groups[n - 1] + [item]]) == Texts(groups)[..n - 1] + [Texts(groups)[n - 1] + item]
  {
    Text.ConcatAppend(groups[|groups| - 1], [item]);
    ConcatSingle(item);
  }

  /** The first group of the packing begins with the first item. */
  lemma {:induction false} PackStartsWithFirstItem(items: seq<string>, max: nat)
    requires items != []
    ensures Pack(items, max) != [] && Pack(items, max)[0] != [] && Pack(items, max)[0][0] == items[0]
  {
    var n := |items|;
    if n > 1 {
      var init := items[..n - 1];
      PackStartsWithFirstItem(init, max);
      var groups := Pack(init, max);
      var placed := Place(groups, items[n - 1], max);
      assert Pack(items, max) == placed;
      if |groups| > 1 || Size(groups[|groups| - 1]) + |items[n - 1]| > max {
        assert placed[0] == groups[0];
      } else {
        assert placed[0] == groups[0] + [items[n - 1]];
      }
    }
  }

  /** The first block begins with the first item. */
  lemma FirstBlockStartsWithFirstItem(items: seq<string>, max: nat)
    requires items != []
    ensures Blocks(items, max) != []
    ensures |Blocks(items, max)[0]| >= |items[0]| && Blocks(items, max)[0][..|items[0]|] == items[0]
  {
    PackStartsWithFirstItem(items, max);
    ConcatStartsWithFirst(Pack(items, max)[0]);
  }

  /** A single item makes a single block. */
  lemma BlocksOfOne(item: string, max: nat)
    ensures Blocks([item], max) == [item]
  {
    PackStep([], item, max);
    ConcatSingle(item);
  }

  /** BlocksStep, stated for blocks kept as the finished ones and the one
      being filled. */
  lemma BlocksStepFrom(items: seq<string>, item: string, max: nat, finished: seq<string>, current: string)
    requires items != [] && finished + [current] == Blocks(items, max)
    ensures |current| + |item| > max ==> Blocks(items + [item], max) == (finished + [current]) + [item]
    ensures |current| + |item| <= max ==> Blocks(items + [item], max) == finished + [current + item]
  {
    BlocksStep(items, item, max);
    var blocks := finished + [current];
    assert blocks[|blocks| - 1] == current && blocks[..|blocks| - 1] == finished;
  }

  lemma {:induction false} FlattenStartsWithFirstGroup(groups: seq<seq<string>>)
    requires groups != []
    ensures |Flatten(groups)| >= |groups[0]| && Flatten(groups)[..|groups[0]|] == groups[0]
  {
    var n := |groups|;
    if n > 1 {
      FlattenStartsWithFirstGroup(groups[..n - 1]);
    } else {
      assert groups[..0] == [];
    }
  }

  lemma {:induction false} FlattenConcat(a: seq<seq<string>>, b: seq<seq<string>>)
    ensures Flatten(a + b) == Flatten(a) + Flatten(b)
  {
    if b != [] {
      var init := b[..|b| - 1];
      assert (a + b)[..|a + b| - 1] == a + init;
      FlattenConcat(a, init);
    } else {
      assert a + b == a;
    }
  }

  /** Joining a non-empty group begins with its first item. */
  lemma ConcatStartsWithFirst(group: seq<string>)
    requires group != []
    ensures |Text.Concat(group)| >= |group[0]| && Text.Concat(group)[..|group[0]|] == group[0]
  {
    assert group == [group[0]] + group[1..];
    Text.ConcatAppend([group[0]], group[1..]);
    ConcatSingle(group[0]);
  }

  /** Group `k` of a packing begins at position `|Flatten(groups[..k])|` of
      the items, which is past the start when `k > 0`. */
  lemma GroupPosition(groups: seq<seq<string>>, k: nat)
    requires k < |groups| && groups[k] != [] && (k > 0 ==> groups[0] != [])
    ensures var j := |Flatten(groups[..k])|;
            j < |Flatten(groups)| && Flatten(groups)[j] == groups[k][0] && (k > 0 ==> j > 0)
  {
    assert groups == groups[..k] + groups[k..];
    FlattenConcat(groups[..k], groups[k..]);
    FlattenStartsWithFirstGroup(groups[k..]);
    if k > 0 {
      FlattenStartsWithFirstGroup(groups[..k]);
    }
  }

  /** The packing is greedy: each block but the first begins with the item
      that follows everything in the blocks before it, and that item did not
      fit after the block before it. */
  lemma BlocksAreGreedy(items: seq<string>, max: nat, k: nat)
    requires 0 < k < |Blocks(items, max)|
    ensures exists j :: 0 < j < |items| &&
                        Text.Concat(items[..j]) == Text.Concat(Blocks(items, max)[..k]) &&
                        |Blocks(items, max)[k - 1]| + |items[j]| > max &&
                        Text.StartsWith(Blocks(items, max)[k], items[j])
  {
    var j := BlockStart(items, max, k);
  }

  /** The position in `items` of the first item of block `k`. */
  lemma BlockStart(items: seq<string>, max: nat, k: nat) returns (j: nat)
    requires 0 < k < |Blocks(items, max)|
    ensures 0 < j < |items|
    ensures Text.Concat(items[..j]) == Text.Concat(Blocks(items, max)[..k])
    ensures |Blocks(items, max)[k - 1]| + |items[j]| > max
    ensures Text.StartsWith(Blocks(items, max)[k], items[j])
  {
    PackIsGreedy(items, max);
    var groups := Pack(items, max);
    GroupPosition(groups, k);
    j := |Flatten(groups[..k])|;
    SizeIsLength(groups[k - 1]);
    ConcatStartsWithFirst(groups[k]);
    assert items[j] == groups[k][0];
    BlocksBefore(groups, k);
  }

  /** The items of the first `k` groups, joined, are the first `k` texts
      joined. */
  lemma BlocksBefore(groups: seq<seq<string>>, k: nat)
    requires k <= |groups|
    ensures var j := |Flatten(groups[..k])|;
            j <= |Flatten(groups)| &&
            Text.Concat(Flatten(groups)[..j]) == Text.Concat(Texts(groups)[..k])
  {
    assert groups == groups[..k] + groups[k..];
    FlattenConcat(groups[..k], groups[k..]);
    assert Flatten(groups)[..|Flatten(groups[..k])|] == Flatten(groups[..k]);
    ConcatFlatten(groups[..k]);
    assert Texts(groups[..k]) == Texts(groups)[..k];
  }
}
