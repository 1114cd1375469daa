/**
 * Looking up the legislation item in force on a date (`find_item_at_date` in
 * openfisca_core/reforms.py). Items are compared on their ISO date strings in
 * the source; on day ordinals the order is the same.
 */
module LegislationLookup {
  import opened Base
  import opened Periods
  import opened Timeline

  /** The source calls `min` on the item list, which raises on an empty list. */
  datatype LookupError = NoItems

  /**
   * Position of the item with the smallest start; on a tie the first one, as
   * Python's `min` keeps the first minimum it meets.
   */
  function Earliest<V>(s: seq<Item<V>>): (r: nat)
    requires |s| > 0
    ensures r < |s|
    ensures forall j | 0 <= j < |s| :: s[r].start <= s[j].start
    ensures forall j | 0 <= j < r :: s[r].start < s[j].start
  {
    if |s| == 1 then 0
    else
      var k := Earliest(s[1..]) + 1;
      if s[0].start <= s[k].start then 0 else k
  }

  /**
   * Position of the item with the largest stop; on a tie the first one, as
   * Python's `max` keeps the first maximum it meets.
   */
  function Latest<V>(s: seq<Item<V>>): (r: nat)
    requires |s| > 0
    ensures r < |s|
    ensures forall j | 0 <= j < |s| :: s[j].stop <= s[r].stop
    ensures forall j | 0 <= j < r :: s[j].stop < s[r].stop
  {
    if |s| == 1 then 0
    else
      var k := Latest(s[1..]) + 1;
      if s[k].stop <= s[0].stop then 0 else k
  }

  /** `it` is the first item of `s`, in list order, that is in force on `d`. */
  ghost predicate FirstInForce<V>(s: seq<Item<V>>, d: Instant, it: Item<V>) {
    exists k | 0 <= k < |s| :: s[k] == it && Covers(it, d) && forall j | 0 <= j < k :: !Covers(s[j], d)
  }

  /** `it` is the first item of `s` whose start is the smallest. */
  ghost predicate FirstEarliest<V>(s: seq<Item<V>>, it: Item<V>) {
    exists k | 0 <= k < |s| :: s[k] == it
      && (forall j | 0 <= j < |s| :: it.start <= s[j].start)
      && (forall j | 0 <= j < k :: it.start < s[j].start)
  }

  /** `it` is the first item of `s` whose stop is the largest. */
  ghost predicate FirstLatest<V>(s: seq<Item<V>>, it: Item<V>) {
    exists k | 0 <= k < |s| :: s[k] == it
      && (forall j | 0 <= j < |s| :: s[j].stop <= it.stop)
      && (forall j | 0 <= j < k :: s[j].stop < it.stop)
  }

  /** Some item of `s` is in force on `d`. */
  predicate InForce<V>(s: seq<Item<V>>, d: Instant) {
    exists i | 0 <= i < |s| :: Covers(s[i], d)
  }

  /** `d` precedes every item of `s`. */
  predicate BeforeAll<V>(s: seq<Item<V>>, d: Instant) {
    forall i | 0 <= i < |s| :: d < s[i].start
  }

  /** `d` follows every item of `s`. */
  predicate AfterAll<V>(s: seq<Item<V>>, d: Instant) {
    forall i | 0 <= i < |s| :: s[i].stop < d
  }

  /** The search may be widened to the ends of the timeline. */
  predicate Widened(nearest: Option<Period>, d: Instant) {
    nearest.Some? && InPeriod(nearest.value, d)
  }

  /**
   * The item in force on `d`. When none is, and `d` lies in `nearest`, the
   * timeline is extended at its ends: a date before every start gets the
   * earliest item and a date after every stop gets the latest one.
   */
  function FindItemAtDate<V>(items: seq<Item<V>>, d: Instant, nearest: Option<Period>)
    : (r: Result<Option<Item<V>>, LookupError>)
    // an item in force wins, whatever `nearest` says
    ensures InForce(items, d) ==> r.Success? && r.value.Some? && FirstInForce(items, d, r.value.value)
    // otherwise the search is widened only inside `nearest`
    ensures !InForce(items, d) && !Widened(nearest, d) ==> r == Success(None)
    ensures !InForce(items, d) && Widened(nearest, d) && |items| == 0 ==> r == Failure(NoItems)
    ensures !InForce(items, d) && Widened(nearest, d) && |items| > 0 && BeforeAll(items, d) ==>
      r.Success? && r.value.Some? && FirstEarliest(items, r.value.value)
    ensures !InForce(items, d) && Widened(nearest, d) && !BeforeAll(items, d) && AfterAll(items, d) ==>
      r.Success? && r.value.Some? && FirstLatest(items, r.value.value)
    ensures !InForce(items, d) && Widened(nearest, d) && !BeforeAll(items, d) && !AfterAll(items, d) ==>
      r == Success(None)
  {
    match FirstCovering(items, d)
    case Some(k) => Success(Some(items[k]))
    case None =>
      if Widened(nearest, d) then
        if |items| == 0 then Failure(NoItems)
        else
          var earliest := items[Earliest(items)];
          if d < earliest.start then Success(Some(earliest))
          else
            var latest := items[Latest(items)];
            if d > latest.stop then Success(Some(latest)) else Success(None)
      else Success(None)
  }

  /**
   * On a timeline of disjoint items, the item found for a date in force is
   * the one that carries the timeline's value on that date.
   */
  lemma FindAgreesWithValueAt<V>(items: seq<Item<V>>, d: Instant, nearest: Option<Period>)
    requires AllWellFormed(items) && Disjoint(items)
    requires ValueAt(items, d).Some?
    ensures FindItemAtDate(items, d, nearest).Success?
    ensures FindItemAtDate(items, d, nearest).value.Some?
    ensures FindItemAtDate(items, d, nearest).value.value.value == ValueAt(items, d).value
  {
  }
}
