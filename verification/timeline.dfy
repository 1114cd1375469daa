/**
 * Dated legislation items and the ordering operations shared by the patch
 * algorithms: an item is a closed interval of days `[start, stop]` carrying a
 * value, and a timeline is a list of such items.
 *
 * Dates are ISO 8601 calendar dates (YYYY-MM-DD); because the format has fixed
 * width, comparing the strings orders them like the dates themselves, so an
 * instant is modelled as an integer day ordinal and "offset by one day" as +/-1.
 */
module Timeline {
  import opened Base
  import opened Periods

  datatype Item<V> = Item(start: Instant, stop: Instant, value: V)

  predicate Covers<V>(it: Item<V>, d: Instant) {
    it.start <= d <= it.stop
  }

  /** The part of `b` before day `start`, keeping its value. */
  function LeftRemainder<V>(b: Item<V>, start: Instant): Item<V> {
    Item(b.start, start - 1, b.value)
  }

  /** The part of `b` after day `stop`, keeping its value. */
  function RightRemainder<V>(b: Item<V>, stop: Instant): Item<V> {
    Item(stop + 1, b.stop, b.value)
  }

  /** Two items share no day. */
  predicate Apart<V>(a: Item<V>, b: Item<V>) {
    a.stop < b.start || b.stop < a.start
  }

  /** `a` lies inside `b`. */
  predicate Within<V>(a: Item<V>, b: Item<V>) {
    b.start <= a.start && a.stop <= b.stop
  }

  /** Every item of the list is a non-empty interval. */
  ghost predicate AllWellFormed<V>(s: seq<Item<V>>) {
    forall a | a in s :: a.start <= a.stop
  }

  /** Items at distinct positions share no day: the timeline is non-overlapping, and holds no well-formed item twice. */
  ghost predicate Disjoint<V>(s: seq<Item<V>>) {
    forall i, j | 0 <= i < j < |s| :: Apart(s[i], s[j])
  }

  predicate SortedByStart<V>(s: seq<Item<V>>) {
    forall i, j | 0 <= i < j < |s| :: s[i].start <= s[j].start
  }

  /** The position of the first item of the list, in list order, whose interval contains `d`. */
  function FirstCovering<V>(s: seq<Item<V>>, d: Instant): (r: Option<nat>)
    ensures r.Some? ==> r.value < |s| && Covers(s[r.value], d)
    ensures r.Some? ==> forall j | 0 <= j < r.value :: !Covers(s[j], d)
    ensures r.None? <==> forall j | 0 <= j < |s| :: !Covers(s[j], d)
  {
    if |s| == 0 then None
    else if Covers(s[0], d) then Some(0)
    else
      match FirstCovering(s[1..], d)
      case None => None
      case Some(k) => Some(k + 1)
  }

  /** The first item of the list, in list order, whose interval contains `d`. */
  function ItemAt<V>(s: seq<Item<V>>, d: Instant): (r: Option<Item<V>>)
    ensures r.Some? ==> r.value in s && Covers(r.value, d)
    ensures r.None? <==> forall a | a in s :: !Covers(a, d)
  {
    match FirstCovering(s, d)
    case None => None
    case Some(k) => Some(s[k])
  }

  /** The value the timeline holds on day `d`, if any item covers it. */
  function ValueAt<V>(s: seq<Item<V>>, d: Instant): Option<V> {
    match ItemAt(s, d)
    case None => None
    case Some(it) => Some(it.value)
  }

  /** On a non-overlapping timeline the first covering item is the only one. */
  lemma {:induction false} ValueAtDisjoint<V>(s: seq<Item<V>>, a: Item<V>, d: Instant)
    requires Disjoint(s) && a in s && Covers(a, d)
    ensures ValueAt(s, d) == Some(a.value)
  {
    var m :| 0 <= m < |s| && s[m] == a;
    var k := FirstCovering(s, d).value;
    assert Covers(s[k], d) && Covers(s[m], d);
  }

  /** The lookup in a concatenation tries the first part, then the second. */
  lemma {:induction false} ValueAtConcat<V>(s: seq<Item<V>>, t: seq<Item<V>>, d: Instant)
    ensures ValueAt(s + t, d) == if ValueAt(s, d).Some? then ValueAt(s, d) else ValueAt(t, d)
  {
    if |s| > 0 {
      assert (s + t)[1..] == s[1..] + t;
      ValueAtConcat(s[1..], t, d);
    } else {
      assert s + t == t;
    }
  }

  /** Two non-overlapping timelines with the same items answer every lookup alike. */
  lemma ValueAtSameItems<V>(s: seq<Item<V>>, t: seq<Item<V>>, d: Instant)
    requires Disjoint(s) && multiset(s) == multiset(t)
    ensures ValueAt(s, d) == ValueAt(t, d)
  {
    SameItems(s, t);
    var r := ItemAt(s, d);
    if r.Some? {
      ValueAtDisjoint(t, r.value, d);
    } else {
      assert ItemAt(t, d).None?;
    }
  }

  /** Inserts `x` before the first element that does not start earlier: stable. */
  function InsertByStart<V>(x: Item<V>, t: seq<Item<V>>): (r: seq<Item<V>>)
    requires SortedByStart(t)
    ensures SortedByStart(r)
    ensures multiset(r) == multiset(t) + multiset{x}
  {
    if |t| == 0 || x.start <= t[0].start then [x] + t
    else
      var rest := InsertByStart(x, t[1..]);
      assert t == [t[0]] + t[1..];
      assert forall k | 0 <= k < |rest| :: t[0].start <= rest[k].start by {
        forall k | 0 <= k < |rest| ensures t[0].start <= rest[k].start {
          assert rest[k] in multiset(rest);
        }
      }
      [t[0]] + rest
  }

  /**
   * Python's `sorted(items, key = lambda item: item['start'])`: a stable sort
   * by start, written as an insertion sort.
   */
  function SortByStart<V>(s: seq<Item<V>>): (r: seq<Item<V>>)
    ensures SortedByStart(r)
    ensures multiset(r) == multiset(s)
  {
    if |s| == 0 then []
    else
      assert s == [s[0]] + s[1..];
      InsertByStart(s[0], SortByStart(s[1..]))
  }

  /** A list already sorted by start comes back unchanged, in the same order. */
  lemma {:induction false} SortSortedIsIdentity<V>(s: seq<Item<V>>)
    requires SortedByStart(s)
    ensures SortByStart(s) == s
  {
    if |s| > 0 {
      SortSortedIsIdentity(s[1..]);
      assert SortByStart(s[1..]) == s[1..];
      if |s| > 1 {
        assert s[0].start <= s[1].start;
      }
    }
  }

  /** Membership, well-formedness and disjointness only depend on the multiset of items. */
  lemma SameItems<V>(s: seq<Item<V>>, t: seq<Item<V>>)
    requires multiset(s) == multiset(t)
    ensures forall x :: x in s <==> x in t
    ensures AllWellFormed(s) ==> AllWellFormed(t)
    ensures Disjoint(s) ==> Disjoint(t)
  {
    forall x ensures x in s <==> x in t {
      assert x in s <==> x in multiset(s);
      assert x in t <==> x in multiset(t);
    }
    if Disjoint(s) {
      forall i, j | 0 <= i < j < |t| ensures Apart(t[i], t[j]) {
        if t[i] == t[j] {
          TwiceCounted(t, i, j);
          var p, q := TwicePositions(s, t[i]);
          assert Apart(s[p], s[q]);
        } else {
          assert t[i] in s && t[j] in s;
          var p :| 0 <= p < |s| && s[p] == t[i];
          var q :| 0 <= q < |s| && s[q] == t[j];
          if p < q {
            assert Apart(s[p], s[q]);
          } else {
            assert Apart(s[q], s[p]);
          }
        }
      }
    }
  }

  /** An item at two positions of a list occurs at least twice in its multiset. */
  lemma TwiceCounted<V>(s: seq<Item<V>>, i: nat, j: nat)
    requires i < j < |s| && s[i] == s[j]
    ensures multiset(s)[s[i]] >= 2
  {
    assert s == s[..j] + s[j..];
    assert s[i] in s[..j];
    assert s[j..][0] == s[j];
  }

  /** An item occurring at least twice in the multiset of a list sits at two positions of it. */
  lemma {:induction false} TwicePositions<V>(s: seq<Item<V>>, x: Item<V>) returns (p: nat, q: nat)
    requires multiset(s)[x] >= 2
    ensures p < q < |s| && s[p] == x && s[q] == x
    decreases |s|
  {
    assert s == [s[0]] + s[1..];
    if s[0] == x {
      assert x in multiset(s[1..]);
      var k :| 0 <= k < |s[1..]| && s[1..][k] == x;
      p, q := 0, k + 1;
    } else {
      var p', q' := TwicePositions(s[1..], x);
      p, q := p' + 1, q' + 1;
    }
  }
}
