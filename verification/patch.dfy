/**
 * The timeline patch as its documentation describes it: every existing item
 * that overlaps the new interval is cut down to the parts outside it, the new
 * item is emitted exactly once, and the result is sorted by start. This is the
 * corrected counterpart of `LegislationPatchAsWritten`, which the
 * legislation tree update can apply in its place.
 */
module LegislationPatch {
  import opened Base
  import opened Periods
  import opened Timeline

  /** What survives of an existing item `b` once `nw` is laid over it. */
  function Pieces<V>(b: Item<V>, nw: Item<V>): seq<Item<V>> {
    if Apart(b, nw) then [b]
    else
      (if b.start < nw.start then [LeftRemainder(b, nw.start)] else [])
      + (if b.stop > nw.stop then [RightRemainder(b, nw.stop)] else [])
  }

  /**
   * One iteration of the loop over existing items: the pieces emitted for `b`
   * (left remainder, new item when not yet inserted, right remainder) and the
   * new value of the `inserted` flag.
   */
  function Step<V>(b: Item<V>, nw: Item<V>, inserted: bool): (seq<Item<V>>, bool) {
    if Apart(b, nw) then ([b], inserted)
    else
      ((if b.start < nw.start then [LeftRemainder(b, nw.start)] else [])
       + (if inserted then [] else [nw])
       + (if b.stop > nw.stop then [RightRemainder(b, nw.stop)] else []),
       true)
  }

  /** The loop, with the new item appended at the end if no existing item overlapped it. */
  function Pass<V>(items: seq<Item<V>>, nw: Item<V>, inserted: bool): seq<Item<V>>
    decreases |items|
  {
    if |items| == 0 then (if inserted then [] else [nw])
    else
      var (emitted, inserted') := Step(items[0], nw, inserted);
      emitted + Pass(items[1..], nw, inserted')
  }

  /** Overlays `[start, stop] = value` on `items`; the new item is always part of the result. */
  function UpdatedItems<V>(items: seq<Item<V>>, start: Instant, stop: Instant, value: V): (r: seq<Item<V>>)
    ensures SortedByStart(r)
    ensures Item(start, stop, value) in r
  {
    var nw := Item(start, stop, value);
    PassItems(items, nw, false);
    assert nw in multiset(Pass(items, nw, false));
    SortByStart(Pass(items, nw, false))
  }

  /** All the pieces that survive of `items`, in order. */
  function Remainders<V>(items: seq<Item<V>>, nw: Item<V>): seq<Item<V>>
    decreases |items|
  {
    if |items| == 0 then [] else Pieces(items[0], nw) + Remainders(items[1..], nw)
  }

  /** The loop emits the surviving pieces, plus the new item exactly once unless it was already inserted. */
  lemma {:induction false} PassItems<V>(items: seq<Item<V>>, nw: Item<V>, inserted: bool)
    ensures multiset(Pass(items, nw, inserted))
         == multiset(Remainders(items, nw)) + (if inserted then multiset{} else multiset{nw})
    decreases |items|
  {
    if |items| > 0 {
      var (emitted, inserted') := Step(items[0], nw, inserted);
      PassItems(items[1..], nw, inserted');
    }
  }

  /** The pieces of one item lie inside it, outside the new interval, and do not overlap. */
  lemma PiecesFacts<V>(b: Item<V>, nw: Item<V>)
    requires b.start <= b.stop && nw.start <= nw.stop
    ensures forall x | x in Pieces(b, nw) ::
      Within(x, b) && x.value == b.value && x.start <= x.stop && Apart(x, nw)
    ensures Disjoint(Pieces(b, nw))
  {
  }

  lemma {:induction false} RemaindersFacts<V>(items: seq<Item<V>>, nw: Item<V>)
    requires AllWellFormed(items) && nw.start <= nw.stop
    ensures forall y | y in Remainders(items, nw) :: exists c | c in items :: y in Pieces(c, nw)
    ensures forall y | y in Remainders(items, nw) :: y.start <= y.stop && Apart(y, nw)
    ensures Disjoint(items) ==> Disjoint(Remainders(items, nw))
    decreases |items|
  {
    if |items| > 0 {
      var b, rest := items[0], items[1..];
      assert items == [b] + rest;
      assert AllWellFormed(rest);
      RemaindersFacts(rest, nw);
      PiecesFacts(b, nw);
      var ps, rs := Pieces(b, nw), Remainders(rest, nw);
      assert Remainders(items, nw) == ps + rs;
      forall y: Item<V> | y in ps + rs ensures exists c | c in items :: y in Pieces(c, nw) {
        if y in ps {
          assert y in Pieces(b, nw);
        } else {
          var c :| c in rest && y in Pieces(c, nw);
          assert c in items;
        }
      }
      forall y: Item<V> | y in ps + rs ensures y.start <= y.stop && Apart(y, nw) {
        if y in ps {
        } else {
          var c :| c in rest && y in Pieces(c, nw);
          PiecesFacts(c, nw);
        }
      }
      if Disjoint(items) {
        assert forall i, j | 0 <= i < j < |rest| :: rest[i] == items[i + 1] && rest[j] == items[j + 1];
        assert Disjoint(rest);
        var all := ps + rs;
        forall i, j | 0 <= i < j < |all| ensures Apart(all[i], all[j]) {
          if j < |ps| {
            assert all[i] == ps[i] && all[j] == ps[j];
          } else if |ps| <= i {
            assert all[i] == rs[i - |ps|] && all[j] == rs[j - |ps|];
          } else {
            assert all[i] in ps && all[j] in rs;
            PiecesAcross(items, all[i], all[j], nw);
          }
        }
      }
    }
  }

  /** A piece of the first item and a piece of a later item of a non-overlapping list share no day. */
  lemma PiecesAcross<V>(items: seq<Item<V>>, x: Item<V>, y: Item<V>, nw: Item<V>)
    requires |items| > 0 && AllWellFormed(items) && Disjoint(items) && nw.start <= nw.stop
    requires x in Pieces(items[0], nw)
    requires exists c | c in items[1..] :: y in Pieces(c, nw)
    ensures Apart(x, y)
  {
    var c :| c in items[1..] && y in Pieces(c, nw);
    var m :| 0 <= m < |items[1..]| && items[1..][m] == c;
    assert Apart(items[0], items[m + 1]);
    PiecesFacts(items[0], nw);
    PiecesFacts(c, nw);
  }

  /** Looking a day up in the pieces of one item. */
  lemma PiecesValueAt<V>(b: Item<V>, nw: Item<V>, d: Instant)
    ensures ValueAt(Pieces(b, nw), d) == if Covers(b, d) && !Covers(nw, d) then Some(b.value) else None
  {
    if !Apart(b, nw) {
      var l := if b.start < nw.start then [LeftRemainder(b, nw.start)] else [];
      var r := if b.stop > nw.stop then [RightRemainder(b, nw.stop)] else [];
      assert Pieces(b, nw) == l + r;
      ValueAtConcat(l, r, d);
    }
  }

  /** Looking a day up in the surviving pieces: nothing inside the new interval, the old value outside it. */
  lemma {:induction false} RemaindersValueAt<V>(items: seq<Item<V>>, nw: Item<V>, d: Instant)
    ensures ValueAt(Remainders(items, nw), d) == if Covers(nw, d) then None else ValueAt(items, d)
    decreases |items|
  {
    if |items| > 0 {
      RemaindersValueAt(items[1..], nw, d);
      ValueAtConcat(Pieces(items[0], nw), Remainders(items[1..], nw), d);
      PiecesValueAt(items[0], nw, d);
    }
  }

  /** The patched list holds the same items as the new item followed by the surviving pieces. */
  lemma PatchItems<V>(items: seq<Item<V>>, start: Instant, stop: Instant, value: V)
    requires start <= stop && AllWellFormed(items)
    ensures var nw := Item(start, stop, value);
      && multiset(UpdatedItems(items, start, stop, value)) == multiset([nw] + Remainders(items, nw))
      && nw !in Remainders(items, nw)
      && AllWellFormed([nw] + Remainders(items, nw))
      && (Disjoint(items) ==> Disjoint([nw] + Remainders(items, nw)))
  {
    var nw := Item(start, stop, value);
    var rem := Remainders(items, nw);
    var all := [nw] + rem;
    PassItems(items, nw, false);
    RemaindersFacts(items, nw);
    assert nw !in rem;
    if Disjoint(items) {
      NewBeforeRemainders(nw, rem);
    }
  }

  /** The new item put before pieces apart from it and from each other overlaps nothing. */
  lemma NewBeforeRemainders<V>(nw: Item<V>, rem: seq<Item<V>>)
    requires Disjoint(rem) && forall y | y in rem :: Apart(y, nw)
    ensures Disjoint([nw] + rem)
  {
    var all := [nw] + rem;
    forall i, j | 0 <= i < j < |all| ensures Apart(all[i], all[j]) {
      assert all[j] == rem[j - 1];
      if i == 0 {
        assert all[j] in rem;
      } else {
        assert all[i] == rem[i - 1];
      }
    }
  }

  /**
   * The patch is correct: on a well-formed non-overlapping timeline it yields
   * a well-formed non-overlapping timeline that holds `value` on every day of
   * `[start, stop]`, the old value on every other day, and the new item exactly once.
   */
  lemma PatchCorrect<V>(items: seq<Item<V>>, start: Instant, stop: Instant, value: V)
    requires start <= stop && AllWellFormed(items) && Disjoint(items)
    ensures var r := UpdatedItems(items, start, stop, value);
      && AllWellFormed(r)
      && Disjoint(r)
      && multiset(r)[Item(start, stop, value)] == 1
      && forall d :: ValueAt(r, d) == if start <= d <= stop then Some(value) else ValueAt(items, d)
  {
    var nw := Item(start, stop, value);
    var r := UpdatedItems(items, start, stop, value);
    var rem := Remainders(items, nw);
    var all := [nw] + rem;
    PatchItems(items, start, stop, value);
    SameItems(all, r);
    assert multiset(rem)[nw] == 0;
    assert multiset(all) == multiset{nw} + multiset(rem);
    forall d ensures ValueAt(r, d) == if start <= d <= stop then Some(value) else ValueAt(items, d) {
      ValueAtSameItems(all, r, d);
      ValueAtConcat([nw], rem, d);
      RemaindersValueAt(items, nw, d);
    }
  }

  /** Items apart from the new interval go through the loop untouched. */
  lemma {:induction false} PassApart<V>(items: seq<Item<V>>, nw: Item<V>, inserted: bool)
    requires forall b | b in items :: Apart(b, nw)
    ensures Pass(items, nw, inserted) == items + (if inserted then [] else [nw])
    decreases |items|
  {
    if |items| > 0 {
      assert items[0] in items;
      assert forall b | b in items[1..] :: b in items;
      PassApart(items[1..], nw, inserted);
      assert items == [items[0]] + items[1..];
    }
  }

  /** A list holding the new item once, everything else apart from it, is a fixed point of the loop. */
  lemma {:induction false} PassFixed<V>(items: seq<Item<V>>, nw: Item<V>)
    requires nw.start <= nw.stop
    requires multiset(items)[nw] == 1
    requires forall b | b in items && b != nw :: Apart(b, nw)
    ensures Pass(items, nw, false) == items
    decreases |items|
  {
    var b, rest := items[0], items[1..];
    assert items == [b] + rest;
    assert multiset(items) == multiset{b} + multiset(rest);
    assert forall c | c in rest :: c in items;
    if b == nw {
      assert multiset(rest)[nw] == 0;
      assert forall c | c in rest :: c != nw;
      PassApart(rest, nw, true);
    } else {
      PassFixed(rest, nw);
    }
  }

  /** The patched list holds the new item once and nothing else that overlaps it. */
  lemma PatchedAroundNew<V>(items: seq<Item<V>>, start: Instant, stop: Instant, value: V)
    requires start <= stop && AllWellFormed(items)
    ensures var r := UpdatedItems(items, start, stop, value);
      && multiset(r)[Item(start, stop, value)] == 1
      && forall b | b in r && b != Item(start, stop, value) :: Apart(b, Item(start, stop, value))
  {
    var nw := Item(start, stop, value);
    var r := UpdatedItems(items, start, stop, value);
    var rem := Remainders(items, nw);
    PatchItems(items, start, stop, value);
    RemaindersFacts(items, nw);
    assert multiset(rem)[nw] == 0;
    assert multiset([nw] + rem) == multiset{nw} + multiset(rem);
    forall b | b in r && b != nw ensures Apart(b, nw) {
      assert b in multiset(r);
      assert b in rem;
    }
  }

  /** Patching twice with the same interval and value is the same as patching once. */
  lemma PatchIdempotent<V>(items: seq<Item<V>>, start: Instant, stop: Instant, value: V)
    requires start <= stop && AllWellFormed(items)
    ensures var r := UpdatedItems(items, start, stop, value);
      UpdatedItems(r, start, stop, value) == r
  {
    var r := UpdatedItems(items, start, stop, value);
    PatchedAroundNew(items, start, stop, value);
    PassFixed(r, Item(start, stop, value));
    SortSortedIsIdentity(r);
  }
}
