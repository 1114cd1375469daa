/**
 * The dated functions of a dated formula column (`dated_function` and the
 * slice normalisation in `FormulaColumnMetaclass.__new__`,
 * openfisca_core/formulas.py). Each function is tagged with an optional
 * start and stop day; the column sorts them by start and gives a function
 * without a stop the day before the next one's start.
 *
 * Python 2 orders a missing instant (`None`) before every instant, so a
 * function without a start sorts first and passes every `start <= stop`
 * test.
 */
module DatedSlices {
  import opened Base
  import opened Periods

  /** A dated function: the interval `dated_function` attached to it, and the function. */
  datatype Slice<F> = Slice(start: Option<Instant>, stop: Option<Instant>, formula: F)

  datatype SliceError =
    | InvalidInterval   // a function whose stop precedes its start
    | Overlap           // an explicit stop not strictly before the next start
    | UndatedNext       // a stop to fill from a next function that has no start
    | EmptySlice        // a stop filled before its own start (only the corrected normalisation)

  /** Python 2 order on optional instants: a missing one comes first. */
  predicate StartLe(a: Option<Instant>, b: Option<Instant>) {
    a.None? || (b.Some? && a.value <= b.value)
  }

  /** The assertion made for each dated function on its own. */
  predicate ValidInterval<F>(s: Slice<F>) {
    s.stop.None? || StartLe(s.start, s.stop)
  }

  ghost predicate AllValid<F>(s: seq<Slice<F>>) {
    forall x | x in s :: ValidInterval(x)
  }

  predicate SortedByStart<F>(s: seq<Slice<F>>) {
    forall a, b | 0 <= a < b < |s| :: StartLe(s[a].start, s[b].start)
  }

  function Insert<F>(x: Slice<F>, t: seq<Slice<F>>): (r: seq<Slice<F>>)
    requires SortedByStart(t)
    ensures SortedByStart(r)
    ensures multiset(r) == multiset(t) + multiset{x}
  {
    if |t| == 0 || StartLe(x.start, t[0].start) then [x] + t
    else
      var rest := Insert(x, t[1..]);
      assert t == [t[0]] + t[1..];
      assert forall k | 0 <= k < |rest| :: StartLe(t[0].start, rest[k].start) by {
        forall k | 0 <= k < |rest| ensures StartLe(t[0].start, rest[k].start) {
          assert rest[k] in multiset(rest);
        }
      }
      [t[0]] + rest
  }

  /** `list.sort(key = start)`: a stable sort by start, written as an insertion sort. */
  function Sort<F>(s: seq<Slice<F>>): (r: seq<Slice<F>>)
    ensures SortedByStart(r)
    ensures multiset(r) == multiset(s) && |r| == |s|
  {
    if |s| == 0 then []
    else
      assert s == [s[0]] + s[1..];
      Insert(s[0], Sort(s[1..]))
  }

  /** The first dated function whose own interval is inverted, in declaration order. */
  function FirstInvalid<F>(s: seq<Slice<F>>): (r: Option<nat>)
    ensures r.None? <==> forall k | 0 <= k < |s| :: ValidInterval(s[k])
    ensures r.Some? ==> r.value < |s| && !ValidInterval(s[r.value])
  {
    if |s| == 0 then None
    else if !ValidInterval(s[0]) then Some(0)
    else
      match FirstInvalid(s[1..])
      case None => None
      case Some(k) => Some(k + 1)
  }

  /** The two neighbours the corrected normalisation accepts, in start order. */
  predicate Links<F>(cur: Slice<F>, next: Slice<F>) {
    next.start.Some?
    && (cur.stop.Some? ==> cur.stop.value < next.start.value)
    && (cur.stop.None? ==> cur.start != next.start)
  }

  /** The slice `cur` becomes, followed by `next`: the corrected rule. */
  function Link<F>(cur: Slice<F>, next: Slice<F>): (r: Result<Slice<F>, SliceError>)
    requires ValidInterval(cur) && StartLe(cur.start, next.start)
    ensures r.Success? <==> Links(cur, next)
    ensures r.Success? ==> r.value.start == cur.start && r.value.formula == cur.formula
    ensures r.Success? ==> r.value.stop.Some? && r.value.stop.value < next.start.value
    ensures r.Success? ==> StartLe(r.value.start, r.value.stop)
    ensures r.Success? && cur.stop.Some? ==> r.value.stop == cur.stop
    ensures r.Success? && cur.stop.None? ==> r.value.stop.value + 1 == next.start.value
  {
    if cur.stop.None? then
      if next.start.None? then Failure(UndatedNext)
      else if cur.start == next.start then Failure(EmptySlice)
      else Success(cur.(stop := Some(next.start.value - 1)))
    else if next.start.Some? && cur.stop.value < next.start.value then Success(cur)
    else Failure(Overlap)
  }

  /** Every pair of neighbours links. */
  predicate Chained<F>(t: seq<Slice<F>>) {
    forall k | 0 <= k < |t| - 1 :: Links(t[k], t[k + 1])
  }

  /** The first pair of neighbours that does not link. */
  function FirstBroken<F>(t: seq<Slice<F>>): (r: Option<nat>)
    ensures r.None? <==> Chained(t)
    ensures r.Some? ==> r.value < |t| - 1 && !Links(t[r.value], t[r.value + 1])
  {
    if |t| <= 1 then None
    else if !Links(t[0], t[1]) then Some(0)
    else
      match FirstBroken(t[1..])
      case None =>
        assert Chained(t) by {
          forall k | 0 <= k < |t| - 1 ensures Links(t[k], t[k + 1]) {
            if k > 0 {
              assert t[k] == t[1..][k - 1] && t[k + 1] == t[1..][k];
            }
          }
        }
        None
      case Some(k) => Some(k + 1)
  }

  /**
   * The stop-filling pass over neighbours, in start order: each slice is
   * linked to the next one, and the pass stops at the first pair that does
   * not link. A pair only reads the start of its second slice, which the
   * pass never changes, so every slice can be linked on its own.
   */
  function FillStops<F>(t: seq<Slice<F>>): (r: Result<seq<Slice<F>>, SliceError>)
    requires SortedByStart(t) && forall k | 0 <= k < |t| :: ValidInterval(t[k])
    ensures r.Success? <==> Chained(t)
    ensures r.Success? ==> |r.value| == |t|
    ensures r.Success? ==> forall k | 0 <= k < |t| ::
      r.value[k].start == t[k].start && r.value[k].formula == t[k].formula && ValidInterval(r.value[k])
    ensures r.Success? ==> forall k | 0 <= k < |t| - 1 ::
      r.value[k].stop.Some? && r.value[k].stop.value < t[k + 1].start.value
    ensures r.Success? ==> forall k | 0 <= k < |t| - 1 ::
      if t[k].stop.Some? then r.value[k].stop == t[k].stop else r.value[k].stop.value + 1 == t[k + 1].start.value
    ensures r.Success? && |t| > 0 ==> r.value[|t| - 1] == t[|t| - 1]
  {
    match FirstBroken(t)
    case Some(k) => Failure(Link(t[k], t[k + 1]).error)
    case None =>
      Success(seq(|t|, k requires 0 <= k < |t| => if k < |t| - 1 then Link(t[k], t[k + 1]).value else t[k]))
  }

  /**
   * The dated functions of a column in the order the column keeps them:
   * each interval checked, sorted by start, missing stops filled, and
   * neighbours checked for overlap. Two functions starting on the same day
   * are rejected.
   */
  function Normalise<F>(s: seq<Slice<F>>): (r: Result<seq<Slice<F>>, SliceError>)
    ensures FirstInvalid(s).Some? ==> r == Failure(InvalidInterval)
    ensures r.Success? <==> AllValid(s) && Chained(Sort(s))
  {
    match FirstInvalid(s)
    case Some(_) =>
      assert !AllValid(s) by {
        assert s[FirstInvalid(s).value] in s;
      }
      Failure(InvalidInterval)
    case None =>
      var t := Sort(s);
      assert AllValid(s);
      SameSlices(s, t);
      assert forall k | 0 <= k < |t| :: ValidInterval(t[k]) by {
        forall k | 0 <= k < |t| ensures ValidInterval(t[k]) {
          assert t[k] in t;
        }
      }
      FillStops(t)
  }

  lemma SameSlices<F>(s: seq<Slice<F>>, t: seq<Slice<F>>)
    requires multiset(s) == multiset(t)
    ensures AllValid(s) ==> AllValid(t)
  {
    forall x | x in t ensures x in s {
      assert x in multiset(t);
    }
  }

  /**
   * What a successful normalisation gives: the declared functions with their
   * starts, in start order; every slice a non-empty interval; each slice
   * ending strictly before the next one starts, and exactly the day before
   * when its stop was filled.
   */
  lemma NormalisedSlices<F>(s: seq<Slice<F>>)
    requires Normalise(s).Success?
    ensures var r := Normalise(s).value;
      && |r| == |s|
      && multiset(Sort(s)) == multiset(s)
      && SortedByStart(r)
      && (forall k | 0 <= k < |s| :: r[k].start == Sort(s)[k].start && r[k].formula == Sort(s)[k].formula)
      && (forall k | 0 <= k < |s| :: ValidInterval(r[k]))
      && (forall a, b | 0 <= a < b < |s| ::
            r[a].stop.Some? && r[b].start.Some? && r[a].stop.value < r[b].start.value)
      && (forall k | 0 <= k < |s| - 1 ::
            if Sort(s)[k].stop.Some? then r[k].stop == Sort(s)[k].stop
            else r[k].stop.value + 1 == r[k + 1].start.value)
  {
    var t := Sort(s);
    var r := Normalise(s).value;
    SameSlices(s, t);
    assert forall k | 0 <= k < |t| :: ValidInterval(t[k]) by {
      forall k | 0 <= k < |t| ensures ValidInterval(t[k]) {
        assert t[k] in t;
      }
    }
    assert r == FillStops(t).value;
    FilledApart(t);
  }

  /** After the stops are filled, the slices are in start order and pairwise apart. */
  lemma FilledApart<F>(t: seq<Slice<F>>)
    requires SortedByStart(t) && forall k | 0 <= k < |t| :: ValidInterval(t[k])
    requires FillStops(t).Success?
    ensures SortedByStart(FillStops(t).value)
    ensures var r := FillStops(t).value;
      forall a, b | 0 <= a < b < |t| :: r[a].stop.Some? && r[b].start.Some? && r[a].stop.value < r[b].start.value
  {
    var r := FillStops(t).value;
    forall a, b | 0 <= a < b < |t|
      ensures r[a].stop.Some? && r[b].start.Some? && r[a].stop.value < r[b].start.value
    {
      assert r[a].stop.value < t[a + 1].start.value;
      assert StartLe(t[a + 1].start, t[b].start);
    }
  }

  // ---------------------------------------------------------------------------
  // The normalisation as the source writes it
  // ---------------------------------------------------------------------------

  /**
   * The rule of the source for a pair of neighbours: a missing stop becomes
   * the day before the next start, even when both start on the same day.
   */
  function LinkAsWritten<F>(cur: Slice<F>, next: Slice<F>): (r: Result<Slice<F>, SliceError>)
    ensures r.Success? ==> r.value.start == cur.start && r.value.formula == cur.formula
    ensures r.Success? ==> r.value.stop.Some? && next.start.Some? && r.value.stop.value < next.start.value
    ensures r.Failure? <==> next.start.None? || (cur.stop.Some? && cur.stop.value >= next.start.value)
  {
    if cur.stop.None? then
      if next.start.None? then Failure(UndatedNext)
      else Success(cur.(stop := Some(next.start.value - 1)))
    else if next.start.Some? && cur.stop.value < next.start.value then Success(cur)
    else Failure(Overlap)
  }

  /** Every pair of neighbours passes the source's rule. */
  predicate ChainedAsWritten<F>(t: seq<Slice<F>>) {
    forall k | 0 <= k < |t| - 1 :: LinkAsWritten(t[k], t[k + 1]).Success?
  }

  /** The source's loop over neighbours, one pair after the other. */
  function FillStopsAsWritten<F>(t: seq<Slice<F>>): (r: Result<seq<Slice<F>>, SliceError>)
    ensures r.Success? <==> ChainedAsWritten(t)
    ensures r.Success? ==> |r.value| == |t|
    ensures r.Success? ==> forall k | 0 <= k < |t| - 1 :: r.value[k] == LinkAsWritten(t[k], t[k + 1]).value
    ensures r.Success? && |t| > 0 ==> r.value[|t| - 1] == t[|t| - 1]
  {
    if |t| <= 1 then Success(t)
    else
      match LinkAsWritten(t[0], t[1])
      case Failure(err) => Failure(err)
      case Success(head) =>
        assert forall k | 1 <= k < |t| - 1 :: t[1..][k - 1] == t[k] && t[1..][k] == t[k + 1];
        match FillStopsAsWritten(t[1..])
        case Failure(err) => Failure(err)
        case Success(rest) => Success([head] + rest)
  }

  /** The normalisation of the source: check each interval, sort, fill the stops. */
  function NormaliseAsWritten<F>(s: seq<Slice<F>>): (r: Result<seq<Slice<F>>, SliceError>)
    ensures FirstInvalid(s).Some? ==> r == Failure(InvalidInterval)
    ensures r.Success? <==> AllValid(s) && ChainedAsWritten(Sort(s))
    ensures r.Success? ==> |r.value| == |s|
    ensures r.Success? ==> forall k | 0 <= k < |s| :: r.value[k].start == Sort(s)[k].start && r.value[k].formula == Sort(s)[k].formula
  {
    assert FirstInvalid(s).Some? ==> !AllValid(s) by {
      if FirstInvalid(s).Some? {
        assert s[FirstInvalid(s).value] in s;
      }
    }
    if FirstInvalid(s).Some? then Failure(InvalidInterval)
    else
      var t := Sort(s);
      var r := FillStopsAsWritten(t);
      assert AllValid(s);
      assert r.Success? ==> forall k | 0 <= k < |s| :: r.value[k].start == t[k].start && r.value[k].formula == t[k].formula by {
        if r.Success? {
          forall k | 0 <= k < |s| ensures r.value[k].start == t[k].start && r.value[k].formula == t[k].formula {
            if k < |s| - 1 {
              assert r.value[k] == LinkAsWritten(t[k], t[k + 1]).value;
            }
          }
        }
      }
      r
  }

  lemma {:induction false} FillStopsAgree<F>(t: seq<Slice<F>>)
    requires SortedByStart(t) && (forall k | 0 <= k < |t| :: ValidInterval(t[k])) && Chained(t)
    ensures FillStopsAsWritten(t) == FillStops(t)
  {
    if |t| > 1 {
      FillStopsCons(t);
      FillStopsAgree(t[1..]);
      assert LinkAsWritten(t[0], t[1]) == Link(t[0], t[1]);
    } else {
      assert FillStops(t).value == t;
    }
  }

  /** Filling a chained timeline links its head and fills its tail. */
  lemma FillStopsCons<F>(t: seq<Slice<F>>)
    requires |t| > 1
    requires SortedByStart(t) && (forall k | 0 <= k < |t| :: ValidInterval(t[k])) && Chained(t)
    ensures SortedByStart(t[1..]) && (forall k | 0 <= k < |t| - 1 :: ValidInterval(t[1..][k])) && Chained(t[1..])
    ensures Links(t[0], t[1])
    ensures FillStops(t).Success? && FillStops(t[1..]).Success?
    ensures FillStops(t).value == [Link(t[0], t[1]).value] + FillStops(t[1..]).value
  {
    var t' := t[1..];
    assert SortedByStart(t') && Chained(t') by {
      forall k | 0 <= k < |t'| - 1 ensures Links(t'[k], t'[k + 1]) {
        assert t'[k] == t[k + 1] && t'[k + 1] == t[k + 2];
      }
    }
    assert Links(t[0], t[1]);
    var r := FillStops(t).value;
    var r' := FillStops(t').value;
    forall k | 1 <= k < |t| ensures r[k] == r'[k - 1] {
      assert t'[k - 1] == t[k];
      if k < |t| - 1 {
        assert t'[k] == t[k + 1];
      }
    }
  }

  /**
   * Wherever the corrected normalisation succeeds, the source's gives the
   * same slices. `NormaliseAgreesBack` gives the converse when no two
   * functions start on the same day: the two differ only on such functions.
   */
  lemma NormaliseAgrees<F>(s: seq<Slice<F>>)
    requires Normalise(s).Success?
    ensures NormaliseAsWritten(s) == Normalise(s)
  {
    var t := Sort(s);
    SameSlices(s, t);
    assert forall k | 0 <= k < |t| :: ValidInterval(t[k]) by {
      forall k | 0 <= k < |t| ensures ValidInterval(t[k]) {
        assert t[k] in t;
      }
    }
    FillStopsAgree(t);
  }

  /** No two dated functions start on the same day (nor both without a start). */
  predicate DistinctStarts<F>(s: seq<Slice<F>>) {
    forall a, b | 0 <= a < b < |s| :: s[a].start != s[b].start
  }

  lemma {:induction false} InsertDistinct<F>(x: Slice<F>, t: seq<Slice<F>>)
    requires SortedByStart(t) && DistinctStarts(t)
    requires forall y | y in t :: y.start != x.start
    ensures DistinctStarts(Insert(x, t))
    decreases |t|
  {
    if !(|t| == 0 || StartLe(x.start, t[0].start)) {
      var rest := Insert(x, t[1..]);
      assert forall y | y in t[1..] :: y in t;
      assert DistinctStarts(t[1..]) by {
        forall a, b | 0 <= a < b < |t[1..]| ensures t[1..][a].start != t[1..][b].start {
          assert t[1..][a] == t[a + 1] && t[1..][b] == t[b + 1];
        }
      }
      InsertDistinct(x, t[1..]);
      forall k | 0 <= k < |rest| ensures rest[k].start != t[0].start {
        assert rest[k] in multiset(rest);
        if rest[k] != x {
          assert rest[k] in multiset(t[1..]);
          var m :| 0 <= m < |t[1..]| && t[1..][m] == rest[k];
          assert t[m + 1] == rest[k];
        }
      }
    }
  }

  /** Sorting keeps the starts distinct. */
  lemma {:induction false} SortDistinct<F>(s: seq<Slice<F>>)
    requires DistinctStarts(s)
    ensures DistinctStarts(Sort(s))
    decreases |s|
  {
    if |s| > 0 {
      assert DistinctStarts(s[1..]) by {
        forall a, b | 0 <= a < b < |s[1..]| ensures s[1..][a].start != s[1..][b].start {
          assert s[1..][a] == s[a + 1] && s[1..][b] == s[b + 1];
        }
      }
      SortDistinct(s[1..]);
      var t := Sort(s[1..]);
      forall y | y in t ensures y.start != s[0].start {
        assert y in multiset(s[1..]);
        var m :| 0 <= m < |s[1..]| && s[1..][m] == y;
        assert s[m + 1] == y;
      }
      InsertDistinct(s[0], t);
    }
  }

  /**
   * The converse of `NormaliseAgrees`: when no two dated functions start on
   * the same day, a normalisation the source accepts is accepted by the
   * corrected one, with the same slices.
   */
  lemma NormaliseAgreesBack<F>(s: seq<Slice<F>>)
    requires NormaliseAsWritten(s).Success? && DistinctStarts(s)
    ensures Normalise(s) == NormaliseAsWritten(s)
  {
    var t := Sort(s);
    SortDistinct(s);
    forall k | 0 <= k < |t| - 1 ensures Links(t[k], t[k + 1]) {
      assert LinkAsWritten(t[k], t[k + 1]).Success?;
      assert t[k].start != t[k + 1].start;
    }
    NormaliseAgrees(s);
  }

  /** The pair of the counterexample below: both functions start on day 5. */
  function SameStart(): seq<Slice<int>>
  {
    [Slice(Some(5), None, 1), Slice(Some(5), Some(9), 2)]
  }

  /** The pair is checked and already in start order. */
  lemma SameStartSorted()
    ensures FirstInvalid(SameStart()) == None
    ensures Sort(SameStart()) == SameStart()
  {
    var s := SameStart();
    assert FirstInvalid(s[1..][1..]) == None;
    assert FirstInvalid(s[1..]) == None;
    assert Sort(s[1..][1..]) == [];
    assert Sort(s[1..]) == [s[1]];
  }

  /**
   * Two functions starting on day 5, the first without a stop: the source
   * gives the first the stop 4, an empty slice, and raises nothing; no
   * period ever meets that slice, so its function is silently never used.
   * This is the order in which the stopless function sorts first, which
   * depends on the iteration order of the class attribute dict; in the
   * reverse order the explicit stop 9 reaches the next start and the
   * source's overlap assertion fails instead.
   */
  lemma SameStartGivesEmptySlice()
    ensures NormaliseAsWritten(SameStart())
         == Success([Slice(Some(5), Some(4), 1), Slice(Some(5), Some(9), 2)])
    ensures forall p: Period :: Intersect(p, Some(5), Some(4)).None?
  {
    var s := SameStart();
    SameStartSorted();
    assert LinkAsWritten(s[0], s[1]) == Success(Slice(Some(5), Some(4), 1));
    assert FillStopsAsWritten(s[1..]) == Success([s[1]]);
    assert FillStopsAsWritten(s) == Success([Slice(Some(5), Some(4), 1)] + [s[1]]);
    assert NormaliseAsWritten(s) == FillStopsAsWritten(s);
    assert [Slice(Some(5), Some(4), 1)] + [s[1]]
        == [Slice(Some(5), Some(4), 1), Slice(Some(5), Some(9), 2)];
    forall p: Period ensures Intersect(p, Some(5), Some(4)).None? {
      assert forall d :: !(NotBefore(Some(5), d) && NotAfter(Some(4), d));
    }
  }

  /** The corrected normalisation rejects the same pair. */
  lemma SameStartRejected()
    ensures Normalise(SameStart()) == Failure(EmptySlice)
  {
    var s := SameStart();
    SameStartSorted();
    assert !Links(s[0], s[1]);
    assert FirstBroken(s) == Some(0);
    assert Link(s[0], s[1]) == Failure(EmptySlice);
  }
}
