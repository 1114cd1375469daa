/**
 * `updated_legislation_items` exactly as the repository writes it: one pass
 * over the existing items with an `inserted` flag and a chain of independent
 * `if` tests (not `elif`), then a stable sort by start. Three discrepancies
 * with its own documentation are exhibited here; `LegislationPatch` holds the
 * corrected algorithm.
 */
module LegislationPatchAsWritten {
  import opened Base
  import opened Periods
  import opened Timeline

  /** `[new item]` unless it was already inserted. */
  function NewUnless<V>(nw: Item<V>, inserted: bool): seq<Item<V>> {
    if inserted then [] else [nw]
  }

  /**
   * One iteration of the loop body for existing item `b`, test by test as the
   * source runs them: the pieces it appends and the new `inserted` flag. After
   * the "non-overlapping" and "exact matching" tests (each ending in
   * `continue`) come four independent `if` tests: "left edge", "new item
   * contained", "right edge" and "drop"; the last only skips to the next item.
   */
  function LoopBody<V>(b: Item<V>, nw: Item<V>, inserted: bool): (seq<Item<V>>, bool) {
    if b.stop < nw.start || b.start > nw.stop then ([b], inserted)
    else if b.stop == nw.stop && b.start == nw.start then (NewUnless(nw, inserted), true)
    else
      var leftEdge := b.start < nw.start && b.stop <= nw.stop;
      var e1 := if leftEdge then [LeftRemainder(b, nw.start)] + NewUnless(nw, inserted) else [];
      var inserted1 := inserted || leftEdge;
      var contains := b.start < nw.start && b.stop > nw.stop;
      var e2 := if contains
        then [LeftRemainder(b, nw.start)] + NewUnless(nw, inserted1) + [RightRemainder(b, nw.stop)]
        else [];
      var inserted2 := inserted1 || contains;
      var rightEdge := b.start >= nw.start && b.stop < nw.stop;
      var e3 := if rightEdge then NewUnless(nw, inserted2) + [RightRemainder(b, nw.stop)] else [];
      (e1 + e2 + e3, inserted2 || rightEdge)
  }

  /**
   * The same iteration as one `if` chain: the "left edge", "contained" and
   * "right edge" tests exclude one another, so at most one of them appends.
   */
  function Step<V>(b: Item<V>, nw: Item<V>, inserted: bool): (seq<Item<V>>, bool) {
    if b.stop < nw.start || b.start > nw.stop then ([b], inserted)
    else if b.stop == nw.stop && b.start == nw.start then (NewUnless(nw, inserted), true)
    else if b.start < nw.start && b.stop <= nw.stop then
      ([LeftRemainder(b, nw.start)] + NewUnless(nw, inserted), true)
    else if b.start < nw.start && b.stop > nw.stop then
      ([LeftRemainder(b, nw.start)] + NewUnless(nw, inserted) + [RightRemainder(b, nw.stop)], true)
    else if b.start >= nw.start && b.stop < nw.stop then
      (NewUnless(nw, inserted) + [RightRemainder(b, nw.stop)], true)
    else ([], inserted)
  }

  lemma StepIsLoopBody<V>(b: Item<V>, nw: Item<V>, inserted: bool)
    ensures Step(b, nw, inserted) == LoopBody(b, nw, inserted)
  {
    var e := Step(b, nw, inserted).0;
    assert e + [] + [] == e && [] + e + [] == e && [] + [] + e == e;
  }

  /** The loop; nothing is appended after it. */
  function Pass<V>(items: seq<Item<V>>, nw: Item<V>, inserted: bool): seq<Item<V>>
    decreases |items|
  {
    if |items| == 0 then []
    else
      var (emitted, inserted') := Step(items[0], nw, inserted);
      emitted + Pass(items[1..], nw, inserted')
  }

  /** `updated_legislation_items(items, start, stop, value)`. */
  function UpdatedItems<V>(items: seq<Item<V>>, start: Instant, stop: Instant, value: V): (r: seq<Item<V>>)
    ensures SortedByStart(r)
  {
    SortByStart(Pass(items, Item(start, stop, value), false))
  }

  /** Whether meeting `b` appends the new item (if not yet inserted). */
  predicate EmitsNewItem<V>(b: Item<V>, nw: Item<V>) {
    !Apart(b, nw) && ((b.start == nw.start && b.stop == nw.stop) || b.start < nw.start || b.stop < nw.stop)
  }

  /** The pieces other than the new item that the loop appends for `b`. */
  function Kept<V>(b: Item<V>, nw: Item<V>): seq<Item<V>> {
    if Apart(b, nw) then [b]
    else if b.start == nw.start && b.stop == nw.stop then []
    else if b.start < nw.start && b.stop <= nw.stop then [LeftRemainder(b, nw.start)]
    else if b.start < nw.start then [LeftRemainder(b, nw.start), RightRemainder(b, nw.stop)]
    else if b.stop < nw.stop then [RightRemainder(b, nw.stop)]
    else []
  }

  function AllKept<V>(items: seq<Item<V>>, nw: Item<V>): seq<Item<V>>
    decreases |items|
  {
    if |items| == 0 then [] else Kept(items[0], nw) + AllKept(items[1..], nw)
  }

  lemma StepItems<V>(b: Item<V>, nw: Item<V>, inserted: bool)
    ensures multiset(Step(b, nw, inserted).0)
         == multiset(Kept(b, nw)) + (if !inserted && EmitsNewItem(b, nw) then multiset{nw} else multiset{})
    ensures Step(b, nw, inserted).1 == (inserted || EmitsNewItem(b, nw))
  {
  }

  /**
   * What the loop appends: the kept pieces of every item, plus the new item
   * once if it was not inserted yet and some item triggers its insertion.
   */
  lemma {:induction false} PassItems<V>(items: seq<Item<V>>, nw: Item<V>, inserted: bool)
    ensures multiset(Pass(items, nw, inserted))
         == multiset(AllKept(items, nw))
          + (if !inserted && Triggered(items, nw) then multiset{nw} else multiset{})
    decreases |items|
  {
    if |items| > 0 {
      var b, rest := items[0], items[1..];
      var step := Step(b, nw, inserted);
      assert Pass(items, nw, inserted) == step.0 + Pass(rest, nw, step.1);
      assert AllKept(items, nw) == Kept(b, nw) + AllKept(rest, nw);
      StepItems(b, nw, inserted);
      PassItems(rest, nw, step.1);
      TriggeredCons(items, nw);
    }
  }

  /** Some item of the list triggers the insertion of the new item. */
  ghost predicate Triggered<V>(items: seq<Item<V>>, nw: Item<V>) {
    exists b | b in items :: EmitsNewItem(b, nw)
  }

  lemma TriggeredCons<V>(items: seq<Item<V>>, nw: Item<V>)
    requires |items| > 0
    ensures Triggered(items, nw) <==> EmitsNewItem(items[0], nw) || Triggered(items[1..], nw)
  {
    assert items == [items[0]] + items[1..];
    if Triggered(items, nw) && !EmitsNewItem(items[0], nw) {
      var b :| b in items && EmitsNewItem(b, nw);
      assert b in items[1..];
    }
  }

  /** The items of the result: the kept pieces, plus the new item once if some item triggered it. */
  lemma UpdatedItemsMultiset<V>(items: seq<Item<V>>, start: Instant, stop: Instant, value: V)
    ensures multiset(UpdatedItems(items, start, stop, value))
         == multiset(AllKept(items, Item(start, stop, value)))
          + (if Triggered(items, Item(start, stop, value)) then multiset{Item(start, stop, value)} else multiset{})
  {
    PassItems(items, Item(start, stop, value), false);
  }

  /** The kept pieces of every item are among the pieces the loop appends. */
  lemma {:induction false} KeptInAllKept<V>(items: seq<Item<V>>, nw: Item<V>, k: nat, x: Item<V>)
    requires k < |items| && x in Kept(items[k], nw)
    ensures x in AllKept(items, nw)
    decreases k
  {
    if k > 0 {
      KeptInAllKept(items[1..], nw, k - 1, x);
    }
  }

  /** No kept piece spans exactly the new interval; in particular the new item is never kept. */
  lemma NewNotKept<V>(items: seq<Item<V>>, nw: Item<V>)
    requires nw.start <= nw.stop
    ensures forall x | x in AllKept(items, nw) :: !(x.start == nw.start && x.stop == nw.stop)
  {
    forall x | x in AllKept(items, nw) ensures !(x.start == nw.start && x.stop == nw.stop) {
      var k := KeptOrigin(items, nw, x);
    }
  }

  lemma {:induction false} KeptOrigin<V>(items: seq<Item<V>>, nw: Item<V>, x: Item<V>) returns (k: nat)
    requires x in AllKept(items, nw)
    ensures k < |items| && x in Kept(items[k], nw)
    decreases |items|
  {
    if x in Kept(items[0], nw) {
      k := 0;
    } else {
      k := KeptOrigin(items[1..], nw, x);
      k := k + 1;
    }
  }

  /** Every item lying wholly before or after the new interval is copied unchanged. */
  lemma KeepsApartItems<V>(items: seq<Item<V>>, start: Instant, stop: Instant, value: V, b: Item<V>)
    requires b in items && (b.stop < start || b.start > stop)
    ensures b in UpdatedItems(items, start, stop, value)
  {
    var k :| 0 <= k < |items| && items[k] == b;
    KeptInAllKept(items, Item(start, stop, value), k, b);
    UpdatedItemsMultiset(items, start, stop, value);
    assert b in multiset(UpdatedItems(items, start, stop, value));
  }

  /**
   * The new item appears once when some existing item triggers its insertion
   * and not at all otherwise: never twice.
   */
  lemma NewItemCount<V>(items: seq<Item<V>>, start: Instant, stop: Instant, value: V)
    requires start <= stop
    ensures multiset(UpdatedItems(items, start, stop, value))[Item(start, stop, value)]
        == if Triggered(items, Item(start, stop, value)) then 1 else 0
  {
    UpdatedItemsMultiset(items, start, stop, value);
    NewNotKept(items, Item(start, stop, value));
  }

  /** An existing item with exactly the new start and stop is replaced by the new item. */
  lemma ExactMatchReplaced<V>(items: seq<Item<V>>, start: Instant, stop: Instant, value: V, b: Item<V>)
    requires start <= stop && b in items && b.start == start && b.stop == stop
    ensures var r := UpdatedItems(items, start, stop, value);
      && multiset(r)[Item(start, stop, value)] == 1
      && (b.value != value ==> b !in r)
  {
    var nw := Item(start, stop, value);
    var r := UpdatedItems(items, start, stop, value);
    var kept := AllKept(items, nw);
    assert EmitsNewItem(b, nw);
    assert Triggered(items, nw);
    UpdatedItemsMultiset(items, start, stop, value);
    assert multiset(r) == multiset(kept) + multiset{nw};
    NewNotKept(items, nw);
    assert nw !in kept && b !in kept;
    assert multiset(kept)[nw] == 0;
    if b.value != value {
      assert multiset(kept)[b] == 0;
      assert multiset(r)[b] == 0;
    }
  }

  /**
   * An existing item starting before `start` and reaching into the new interval
   * leaves its left part `[item.start, start - 1]`, and also its right part
   * `[stop + 1, item.stop]` when it ends after `stop`.
   */
  lemma LeftRemainderKept<V>(items: seq<Item<V>>, start: Instant, stop: Instant, value: V, b: Item<V>)
    requires start <= stop && b in items && b.start < start <= b.stop
    ensures var r := UpdatedItems(items, start, stop, value);
      && LeftRemainder(b, start) in r
      && (b.stop > stop ==> RightRemainder(b, stop) in r)
  {
    var nw := Item(start, stop, value);
    var r := UpdatedItems(items, start, stop, value);
    var k :| 0 <= k < |items| && items[k] == b;
    UpdatedItemsMultiset(items, start, stop, value);
    assert LeftRemainder(b, start) in Kept(b, nw);
    KeptInAllKept(items, nw, k, LeftRemainder(b, start));
    assert LeftRemainder(b, start) in multiset(r);
    if b.stop > stop {
      assert RightRemainder(b, stop) in Kept(b, nw);
      KeptInAllKept(items, nw, k, RightRemainder(b, stop));
      assert RightRemainder(b, stop) in multiset(r);
    }
  }

  /**
   * A period strictly inside the one existing item splits it into three
   * pieces, in order: its part before the period, the new item, and its part
   * after the period.
   */
  lemma ThreePieces<V>(b: Item<V>, start: Instant, stop: Instant, value: V)
    requires b.start < start <= stop < b.stop
    ensures UpdatedItems([b], start, stop, value)
         == [LeftRemainder(b, start), Item(start, stop, value), RightRemainder(b, stop)]
  {
    var nw := Item(start, stop, value);
    var pieces := [LeftRemainder(b, start), nw, RightRemainder(b, stop)];
    assert Step(b, nw, false) == ([LeftRemainder(b, start)] + [nw] + [RightRemainder(b, stop)], true);
    assert [b][1..] == [];
    assert Pass([b], nw, false) == pieces;
    assert SortedByStart(pieces);
    SortSortedIsIdentity(pieces);
  }

  /** The worked example: a three-year item patched with its middle year. */
  lemma ThreePiecesExample()
    ensures UpdatedItems([Item(733773, 734868, 10)], 734138, 734502, 20)  // 2010-01-01..2012-12-31, patched 2011
         == [Item(733773, 734137, 10), Item(734138, 734502, 20), Item(734503, 734868, 10)]
  {
    ThreePieces(Item(733773, 734868, 10), 734138, 734502, 20);
  }

  /** Items apart from the new interval go through the loop untouched. */
  lemma {:induction false} PassApart<V>(items: seq<Item<V>>, nw: Item<V>, inserted: bool)
    requires forall b | b in items :: Apart(b, nw)
    ensures Pass(items, nw, inserted) == items
    decreases |items|
  {
    if |items| > 0 {
      assert items[0] in items;
      assert forall b | b in items[1..] :: b in items;
      PassApart(items[1..], nw, inserted);
      assert items == [items[0]] + items[1..];
    }
  }

  lemma {:induction false} PassFixed<V>(items: seq<Item<V>>, nw: Item<V>)
    requires nw.start <= nw.stop
    requires multiset(items)[nw] == 1
    requires forall b | b in items && b != nw :: Apart(b, nw)
    ensures Pass(items, nw, false) == items
    decreases |items|
  {
    var b, rest := items[0], items[1..];
    assert items == [b] + rest;
    assert multiset(items) == multiset{b} + multiset(rest);
    assert forall c | c in rest :: c in items;
    if b == nw {
      assert Pass(items, nw, false) == [nw] + Pass(rest, nw, true);
      assert multiset(rest)[nw] == 0;
      assert forall c | c in rest :: c != nw;
      PassApart(rest, nw, true);
    } else {
      assert Apart(b, nw);
      assert Pass(items, nw, false) == [b] + Pass(rest, nw, false);
      PassFixed(rest, nw);
    }
  }

  /**
   * Re-applying an interval already present (once, with the same value, every
   * other item apart from it) to a list sorted by start returns the list unchanged.
   */
  lemma ReapplyIsIdentity<V>(items: seq<Item<V>>, start: Instant, stop: Instant, value: V)
    requires start <= stop && SortedByStart(items)
    requires multiset(items)[Item(start, stop, value)] == 1
    requires forall b | b in items && b != Item(start, stop, value) :: b.stop < start || b.start > stop
    ensures UpdatedItems(items, start, stop, value) == items
  {
    PassFixed(items, Item(start, stop, value));
    SortSortedIsIdentity(items);
  }

  // Discrepancies with the documentation.

  /**
   * The documentation says a period matching no existing item is yielded
   * as-is, but nothing is appended after the loop: when no item triggers the
   * insertion the new item is missing from the result.
   */
  lemma UnmatchedPeriodDropped<V>(items: seq<Item<V>>, start: Instant, stop: Instant, value: V)
    requires start <= stop
    requires forall b | b in items :: !EmitsNewItem(b, Item(start, stop, value))
    ensures Item(start, stop, value) !in UpdatedItems(items, start, stop, value)
  {
    NewItemCount(items, start, stop, value);
  }

  /** Concretely, patching an empty timeline yields an empty timeline. */
  lemma EmptyTimelineStaysEmpty<V>(start: Instant, stop: Instant, value: V)
    ensures UpdatedItems([], start, stop, value) == []
  {
  }

  /**
   * The test commented "right edge overlapping" fires for an item lying inside
   * the new interval and appends `[stop + 1, item.stop]`, which starts after it stops.
   */
  lemma InvertedRightRemainder()
    ensures UpdatedItems([Item(5, 6, 1)], 3, 10, 2) == [Item(3, 10, 2), Item(11, 6, 1)]
    ensures Item(11, 6, 1).start > Item(11, 6, 1).stop
  {
  }

  /**
   * An item starting inside the new interval and ending after it matches none
   * of the tests: it disappears, tail included, and the new item is not inserted.
   */
  lemma TailLost()
    ensures UpdatedItems([Item(5, 15, 1)], 3, 10, 2) == []
  {
  }
}
