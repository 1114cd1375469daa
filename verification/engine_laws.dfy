/**
 * Properties of the compute methods that relate several calls: the slice
 * and the default of a dated formula, the check of an empty array, the
 * missing input and the memoisation of a simple formula, the cycle a simple
 * formula reading its own variable runs into, the choice of an alternative
 * formula and the choice of a select formula.
 */
module EngineLaws {
  import opened Base
  import opened Periods
  import opened Outputs
  import opened Engine
  import DatedSlices

  /** A walk over slices none of which meets the period computes nothing and changes nothing. */
  lemma {:induction false} WalkMeetsNothing(env: Env, v: VarName, slices: seq<DatedSlices.Slice<Formula>>, i: nat,
                                            period: Period, lazy: bool, st: State, fuel: nat)
    requires i <= |slices| && v in env.columns
    requires forall j | i <= j < |slices| :: !Meets(period, slices[j])
    ensures Walk(env, v, slices, i, period, lazy, st, fuel) == (Fallback(None), st)
    decreases |slices| - i
  {
    if i < |slices| && !(slices[i].start.Some? && slices[i].start.value > period.stop) {
      assert !Meets(period, slices[i]);
      WalkMeetsNothing(env, v, slices, i + 1, period, lazy, st, fuel);
    }
  }

  /**
   * A dated formula none of whose slices meets the period answers with the
   * column default, repeated over the entity, and stores it at the requested
   * period; no formula stays marked.
   */
  lemma DatedDefault(env: Env, v: VarName, f: Formula, period: Period, lazy: bool, st: State, fuel: nat)
    requires f.Dated? && |f.slices| > 0 && v in env.columns
    requires f.id !in Pending(st, Key(env.columns[v], period))
    requires forall j | 0 <= j < |f.slices| :: !Meets(period, f.slices[j])
    ensures var r := ComputeDated(env, v, f, period, lazy, st, fuel);
      var default := Fill(env.columns[v].count, env.columns[v].default);
      && r.0 == Present(default, period)
      && r.1.cache == st.cache[(v, period) := default]
      && Restored(st, r.1)
  {
    var key := Key(env.columns[v], period);
    WalkMeetsNothing(env, v, f.slices, 0, period, lazy, Mark(st, key, f.id), fuel);
  }

  /**
   * The walk computes the `k`-th slice when it meets the period and every
   * slice before it, from the `i`-th on, neither meets the period nor starts
   * after it (as holds for start-sorted slices): it ends with that slice's
   * answer on the common part of the two.
   */
  lemma {:induction false} WalkComputesFirstMeeting(env: Env, v: VarName, slices: seq<DatedSlices.Slice<Formula>>,
                                                    i: nat, k: nat, period: Period, lazy: bool, st: State, fuel: nat)
    requires i <= k < |slices| && v in env.columns
    requires Meets(period, slices[k])
    requires forall j | i <= j < k ::
      !Meets(period, slices[j]) && !(slices[j].start.Some? && slices[j].start.value > period.stop)
    ensures var q := Compute(env, v, slices[k].formula, Intersect(period, slices[k].start, slices[k].stop).value,
                             lazy, st, fuel);
      var w := Walk(env, v, slices, i, period, lazy, st, fuel);
      && (q.0.Present? ==> w == (Chosen(q.0.arr, q.0.at, k), q.1))
      && (q.0.Absent? ==> w == (Fallback(Some(q.0.at)), q.1))
      && (q.0.Failed? ==> w == (Stopped(q.0.error), q.1))
    decreases k - i
  {
    if i < k {
      assert !Meets(period, slices[i]);
      WalkComputesFirstMeeting(env, v, slices, i + 1, k, period, lazy, st, fuel);
    } else {
      var out := Intersect(period, slices[k].start, slices[k].stop).value;
      assert InPeriod(out, out.start);
      assert !(slices[k].start.Some? && slices[k].start.value > period.stop);
    }
  }

  /**
   * The first slice meeting the period decides a dated formula, its formula
   * computed on the common part with the dated formula marked: an array is
   * the answer and the slice's formula is recorded as used; no array stores
   * the column default at the period that answer names, not the requested
   * one; an exception is raised as it is.
   */
  lemma DatedFirstMeetingSlice(env: Env, v: VarName, f: Formula, period: Period, lazy: bool, st: State, fuel: nat,
                               k: nat)
    requires f.Dated? && v in env.columns
    requires f.id !in Pending(st, Key(env.columns[v], period))
    requires k < |f.slices| && Meets(period, f.slices[k])
    requires forall j | 0 <= j < k ::
      !Meets(period, f.slices[j]) && !(f.slices[j].start.Some? && f.slices[j].start.value > period.stop)
    ensures var key := Key(env.columns[v], period);
      var q := Compute(env, v, f.slices[k].formula, Intersect(period, f.slices[k].start, f.slices[k].stop).value,
                       lazy, Mark(st, key, f.id), fuel);
      var r := ComputeDated(env, v, f, period, lazy, st, fuel);
      && (q.0.Present? ==> r == (q.0, Adopt(q.1, key, f.id, f.slices[k].formula.id)))
      && (q.0.Absent? ==> r == StoreDefault(env, v, q.0.at, Unmark(q.1, key, f.id)))
      && (q.0.Failed? ==> r == q)
  {
    var key := Key(env.columns[v], period);
    WalkComputesFirstMeeting(env, v, f.slices, 0, k, period, lazy, Mark(st, key, f.id), fuel);
  }

  /**
   * A memberless entity outside debug mode: a function returning the empty
   * array raises numpy's error, and nothing is stored.
   */
  lemma EmptyEntityRaises(env: Env, v: VarName, id: FormulaId, out: Period, key: TrackKey, st: State,
                          arrays: seq<Array>)
    requires v in env.columns && env.columns[v].count == 0 && !env.debug
    requires env.call(id, arrays, out) == Returned([])
    ensures Finish(env, v, id, out, key, st, arrays) == (Failed(EmptyMinimum), st)
  {
  }

  /**
   * A simple formula is computed at most once per output period: once it
   * has answered with an array, asking again, in either mode, returns the
   * same array and leaves the state as it is.
   */
  lemma SimpleComputedOnce(env: Env, v: VarName, f: Formula, period: Period, lazy: bool, lazy': bool, st: State,
                           fuel: nat, fuel': nat)
    requires f.Simple? && v in env.columns && fuel > 0 && fuel' > 0
    requires f.id !in Pending(st, Key(env.columns[v], period))
    requires Compute(env, v, f, period, lazy, st, fuel).0.Present?
    ensures var r := Compute(env, v, f, period, lazy, st, fuel);
      Compute(env, v, f, period, lazy', r.1, fuel') == r
  {
    var r := Compute(env, v, f, period, lazy, st, fuel);
    assert r == ComputeSimple(env, v, f, period, lazy, st, fuel - 1);
    assert f.id !in Pending(r.1, Key(env.columns[v], period));
    assert Compute(env, v, f, period, lazy', r.1, fuel') == ComputeSimple(env, v, f, period, lazy', r.1, fuel' - 1);
  }

  /**
   * When the first alternative, probed lazily, has an array, the alternative
   * formula answers with it, records the first alternative as used and keeps
   * what the probe cached.
   */
  lemma FirstAlternativeWins(env: Env, v: VarName, f: Formula, period: Period, lazy: bool, st: State, fuel: nat)
    requires f.Alternative? && |f.alternatives| > 0 && v in env.columns
    requires f.id !in Pending(st, Key(env.columns[v], period))
    requires Compute(env, v, f.alternatives[0], period, true, Mark(st, Key(env.columns[v], period), f.id), fuel).0.Present?
    ensures var q := Compute(env, v, f.alternatives[0], period, true, Mark(st, Key(env.columns[v], period), f.id), fuel);
      var r := ComputeAlternative(env, v, f, period, lazy, st, fuel);
      && r.0 == q.0
      && r.1.cache == q.1.cache
      && f.id in r.1.used && r.1.used[f.id] == f.alternatives[0].id
      && Restored(st, r.1)
  {
  }

  /**
   * A simple formula whose first input is its own variable, at a period with
   * the same tracking key, meets itself while it is marked: outside lazy
   * mode that is an infinite loop, raised with the formula still marked; in
   * lazy mode the input is missing, and with nothing cached the formula
   * answers without an array, leaving nothing marked.
   */
  lemma SelfReferenceCycle(env: Env, v: VarName, f: Formula, period: Period, out: Period, lazy: bool, st: State,
                           fuel: nat)
    requires v in env.columns && env.columns[v].formula == Some(f) && f.Simple? && fuel >= 2
    requires |f.inputs| > 0 && f.inputs[0] == v
    requires f.id !in Pending(st, Key(env.columns[v], period))
    requires var out0 := env.outputPeriod(f.id, period);
      && out0.unit == f.unit && out0.start <= period.start <= out0.stop
      && Intersect(out0, env.columns[v].start, env.columns[v].end) == Some(out)
    requires (v, out) !in st.cache
    requires var p := env.variablePeriod(f.id, out, v);
      Key(env.columns[v], p) == Key(env.columns[v], period) && (v, p) !in st.cache
    ensures var r := Compute(env, v, f, period, lazy, st, fuel);
      if lazy then r.0 == Absent(out) && Restored(st, r.1)
      else r == (Failed(InfiniteLoop), Mark(st, Key(env.columns[v], period), f.id))
  {
    var key := Key(env.columns[v], period);
    var marked := Mark(st, key, f.id);
    var p := env.variablePeriod(f.id, out, v);
    assert Compute(env, v, f, p, lazy, marked, fuel - 1)
        == if lazy then (Lookup(marked, v, p), marked) else (Failed(InfiniteLoop), marked);
    assert SimCompute(env, v, p, lazy, marked, fuel - 1) == Compute(env, v, f, p, lazy, marked, fuel - 1);
    var g := Gather(env, f.id, out, f.inputs, 0, lazy, marked, fuel - 1);
    assert g == (if lazy then Missing else Broken(InfiniteLoop), marked);
    assert ComputeSimple(env, v, f, period, lazy, st, fuel - 1) == RunSimple(env, v, f, out, key, lazy, st, fuel - 1);
  }

  /**
   * The gathering stops at the first input without an array, each earlier
   * input having been computed in the state the ones before it left: an
   * exception is kept, and an empty answer gives up in lazy mode and is the
   * missing-input assertion otherwise. The inputs before it restore the
   * tracking.
   */
  lemma {:induction false} GatherStopsAt(env: Env, id: FormulaId, out: Period, inputs: seq<VarName>, i: nat, k: nat,
                                         lazy: bool, st: State, fuel: nat)
    requires i <= k < |inputs|
    requires forall j | i <= j < k ::
      SimCompute(env, inputs[j], env.variablePeriod(id, out, inputs[j]), lazy,
                 Before(env, id, out, inputs, i, j, lazy, st, fuel), fuel).0.Present?
    requires !SimCompute(env, inputs[k], env.variablePeriod(id, out, inputs[k]), lazy,
                         Before(env, id, out, inputs, i, k, lazy, st, fuel), fuel).0.Present?
    ensures Restored(st, Before(env, id, out, inputs, i, k, lazy, st, fuel))
    ensures var q := SimCompute(env, inputs[k], env.variablePeriod(id, out, inputs[k]), lazy,
                                Before(env, id, out, inputs, i, k, lazy, st, fuel), fuel);
      Gather(env, id, out, inputs, i, lazy, st, fuel)
        == (if q.0.Failed? then Broken(q.0.error) else if lazy then Missing else Broken(MissingInput), q.1)
    decreases k - i
  {
    if i < k {
      var q0 := SimCompute(env, inputs[i], env.variablePeriod(id, out, inputs[i]), lazy, st, fuel);
      assert Before(env, id, out, inputs, i, i, lazy, st, fuel) == st;
      assert q0.0.Present?;
      BeforeShift(env, id, out, inputs, i, k, lazy, st, fuel);
      assert forall j | i + 1 <= j < k ::
        SimCompute(env, inputs[j], env.variablePeriod(id, out, inputs[j]), lazy,
                   Before(env, id, out, inputs, i + 1, j, lazy, q0.1, fuel), fuel).0.Present?;
      GatherStopsAt(env, id, out, inputs, i + 1, k, lazy, q0.1, fuel);
      var rest := Gather(env, id, out, inputs, i + 1, lazy, q0.1, fuel);
      assert !rest.0.All?;
      assert Gather(env, id, out, inputs, i, lazy, st, fuel) == rest;
    }
  }

  /** Computing the inputs from the `i`-th on is computing the `i`-th, then those after it. */
  lemma BeforeShift(env: Env, id: FormulaId, out: Period, inputs: seq<VarName>, i: nat, k: nat, lazy: bool,
                    st: State, fuel: nat)
    requires i < k <= |inputs|
    ensures var q0 := SimCompute(env, inputs[i], env.variablePeriod(id, out, inputs[i]), lazy, st, fuel);
      forall j | i < j <= k ::
        Before(env, id, out, inputs, i, j, lazy, st, fuel) == Before(env, id, out, inputs, i + 1, j, lazy, q0.1, fuel)
  {
  }

  /**
   * A simple formula whose `k`-th input is the first without an array, and
   * with no exception: in lazy mode the formula is unmarked and answers with
   * what the cache holds for its output period; otherwise the missing-input
   * assertion fails with the formula still marked.
   */
  lemma MissingInputStops(env: Env, v: VarName, f: Formula, out: Period, key: TrackKey, lazy: bool, st: State,
                          fuel: nat, k: nat)
    requires f.Simple? && v in env.columns && f.id !in Pending(st, key) && k < |f.inputs|
    requires var s0 := Mark(st, key, f.id);
      forall j | 0 <= j < k ::
        SimCompute(env, f.inputs[j], env.variablePeriod(f.id, out, f.inputs[j]), lazy,
                   Before(env, f.id, out, f.inputs, 0, j, lazy, s0, fuel), fuel).0.Present?
    requires var s0 := Mark(st, key, f.id);
      SimCompute(env, f.inputs[k], env.variablePeriod(f.id, out, f.inputs[k]), lazy,
                 Before(env, f.id, out, f.inputs, 0, k, lazy, s0, fuel), fuel).0.Absent?
    ensures var s0 := Mark(st, key, f.id);
      var q := SimCompute(env, f.inputs[k], env.variablePeriod(f.id, out, f.inputs[k]), lazy,
                          Before(env, f.id, out, f.inputs, 0, k, lazy, s0, fuel), fuel);
      var r := RunSimple(env, v, f, out, key, lazy, st, fuel);
      if lazy then r == (Lookup(q.1, v, out), Unmark(q.1, key, f.id)) && Restored(st, r.1)
      else r == (Failed(MissingInput), q.1) && f.id in Pending(r.1, key)
  {
    var s0 := Mark(st, key, f.id);
    GatherStopsAt(env, f.id, out, f.inputs, 0, k, lazy, s0, fuel);
    var b := Before(env, f.id, out, f.inputs, 0, k, lazy, s0, fuel);
    var q := SimCompute(env, f.inputs[k], env.variablePeriod(f.id, out, f.inputs[k]), lazy, b, fuel);
    assert Pending(q.1, key) == Pending(b, key) == Pending(s0, key);
  }

  /**
   * When the alternatives before the `k`-th, probed lazily one after the
   * other, have no array and the `k`-th has one, the alternative formula
   * answers with it, records the `k`-th alternative as used and keeps what
   * the probes cached.
   */
  lemma KthAlternativeWins(env: Env, v: VarName, f: Formula, period: Period, lazy: bool, st: State, fuel: nat, k: nat)
    requires f.Alternative? && k < |f.alternatives| && v in env.columns
    requires f.id !in Pending(st, Key(env.columns[v], period))
    requires var s0 := Mark(st, Key(env.columns[v], period), f.id);
      forall j | 0 <= j < k ::
        Compute(env, v, f.alternatives[j], period, true, Probed(env, v, f.alternatives, 0, j, period, s0, fuel), fuel).0.Absent?
    requires var s0 := Mark(st, Key(env.columns[v], period), f.id);
      Compute(env, v, f.alternatives[k], period, true, Probed(env, v, f.alternatives, 0, k, period, s0, fuel), fuel).0.Present?
    ensures var s0 := Mark(st, Key(env.columns[v], period), f.id);
      var q := Compute(env, v, f.alternatives[k], period, true, Probed(env, v, f.alternatives, 0, k, period, s0, fuel), fuel);
      var r := ComputeAlternative(env, v, f, period, lazy, st, fuel);
      && r.0 == q.0
      && r.1.cache == q.1.cache
      && f.id in r.1.used && r.1.used[f.id] == f.alternatives[k].id
      && Restored(st, r.1)
  {
    var s0 := Mark(st, Key(env.columns[v], period), f.id);
    var p := Probe(env, v, f.alternatives, 0, period, s0, fuel);
    assert p.2 == k;
  }

  /**
   * When no alternative, probed lazily one after the other, has an array:
   * lazy mode answers with the last empty answer; otherwise the first
   * alternative is recorded as used and computed in non-lazy mode, on the
   * cache the probes left, and the formula unmarked after unless it raised.
   */
  lemma NoAlternativeComputesFirst(env: Env, v: VarName, f: Formula, period: Period, lazy: bool, st: State, fuel: nat)
    requires f.Alternative? && |f.alternatives| > 0 && v in env.columns
    requires f.id !in Pending(st, Key(env.columns[v], period))
    requires var s0 := Mark(st, Key(env.columns[v], period), f.id);
      forall j | 0 <= j < |f.alternatives| ::
        Compute(env, v, f.alternatives[j], period, true, Probed(env, v, f.alternatives, 0, j, period, s0, fuel), fuel).0.Absent?
    ensures var key := Key(env.columns[v], period);
      var s0 := Mark(st, key, f.id);
      var n := |f.alternatives|;
      var last := Compute(env, v, f.alternatives[n - 1], period, true, Probed(env, v, f.alternatives, 0, n - 1, period, s0, fuel), fuel);
      var s := last.1.(tracking := s0.tracking);
      var first := f.alternatives[0];
      var q := Compute(env, v, first, period, false, s.(used := s.used[f.id := first.id]), fuel);
      ComputeAlternative(env, v, f, period, lazy, st, fuel)
        == if lazy then (last.0, Unmark(s, key, f.id))
           else if q.0.Failed? then q else (q.0, Unmark(q.1, key, f.id))
  {
    var s0 := Mark(st, Key(env.columns[v], period), f.id);
    var p := Probe(env, v, f.alternatives, 0, period, s0, fuel);
    assert p.0.Absent?;
  }

  /**
   * When the main variables before the `k`-th choice, asked for lazily one
   * after the other, have no array and the `k`-th has one, the select
   * formula records the `k`-th formula as used and computes it in the
   * caller's mode, unmarking itself after unless it raised.
   */
  lemma FirstMainVariableWins(env: Env, v: VarName, f: Formula, period: Period, lazy: bool, st: State, fuel: nat, k: nat)
    requires f.Select? && k < |f.choices| && v in env.columns
    requires f.id !in Pending(st, Key(env.columns[v], period))
    requires var s0 := Mark(st, Key(env.columns[v], period), f.id);
      forall j | 0 <= j < k ::
        SimCompute(env, f.choices[j].0, period, true, Asked(env, f.choices, 0, j, period, s0, fuel), fuel).0.Absent?
    requires var s0 := Mark(st, Key(env.columns[v], period), f.id);
      SimCompute(env, f.choices[k].0, period, true, Asked(env, f.choices, 0, k, period, s0, fuel), fuel).0.Present?
    ensures var key := Key(env.columns[v], period);
      var s0 := Mark(st, key, f.id);
      var s := SimCompute(env, f.choices[k].0, period, true, Asked(env, f.choices, 0, k, period, s0, fuel), fuel).1;
      var chosen := f.choices[k].1;
      var q := Compute(env, v, chosen, period, lazy, s.(used := s.used[f.id := chosen.id]), fuel);
      ComputeSelect(env, v, f, period, lazy, st, fuel) == if q.0.Failed? then q else (q.0, Unmark(q.1, key, f.id))
  {
    var s0 := Mark(st, Key(env.columns[v], period), f.id);
    var c := Choose(env, f.choices, 0, period, s0, fuel);
    ChooseSucceeds(env, f.choices, 0, period, s0, fuel, k);
    assert c.0 == Success(k);
  }

  /**
   * When no main variable, asked for lazily one after the other, has an
   * array, the select formula records its first formula as used and
   * computes it in the caller's mode, unmarking itself after unless it raised.
   */
  lemma NoMainVariableUsesFirst(env: Env, v: VarName, f: Formula, period: Period, lazy: bool, st: State, fuel: nat)
    requires f.Select? && |f.choices| > 0 && v in env.columns
    requires f.id !in Pending(st, Key(env.columns[v], period))
    requires var s0 := Mark(st, Key(env.columns[v], period), f.id);
      forall j | 0 <= j < |f.choices| ::
        SimCompute(env, f.choices[j].0, period, true, Asked(env, f.choices, 0, j, period, s0, fuel), fuel).0.Absent?
    ensures var key := Key(env.columns[v], period);
      var s0 := Mark(st, key, f.id);
      var s := Asked(env, f.choices, 0, |f.choices|, period, s0, fuel);
      var chosen := f.choices[0].1;
      var q := Compute(env, v, chosen, period, lazy, s.(used := s.used[f.id := chosen.id]), fuel);
      ComputeSelect(env, v, f, period, lazy, st, fuel) == if q.0.Failed? then q else (q.0, Unmark(q.1, key, f.id))
  {
    var s0 := Mark(st, Key(env.columns[v], period), f.id);
    var c := Choose(env, f.choices, 0, period, s0, fuel);
    ChooseSucceeds(env, f.choices, 0, period, s0, fuel, |f.choices|);
    assert c.0 == Success(|f.choices|);
  }

  /**
   * When the main variables from the `i`-th to before the `k`-th have no
   * array and the `k`-th (if any) has one, the choice succeeds.
   */
  lemma {:induction false} ChooseSucceeds(env: Env, choices: seq<(VarName, Formula)>, i: nat, period: Period, st: State,
                                         fuel: nat, k: nat)
    requires i <= k <= |choices|
    requires forall j | i <= j < k ::
      SimCompute(env, choices[j].0, period, true, Asked(env, choices, i, j, period, st, fuel), fuel).0.Absent?
    requires k < |choices| ==>
      SimCompute(env, choices[k].0, period, true, Asked(env, choices, i, k, period, st, fuel), fuel).0.Present?
    ensures Choose(env, choices, i, period, st, fuel).0.Success?
    decreases k - i
  {
    if i < k {
      var q := SimCompute(env, choices[i].0, period, true, st, fuel);
      assert Asked(env, choices, i, i, period, st, fuel) == st;
      assert q.0.Absent?;
      forall j | i + 1 <= j <= k
        ensures Asked(env, choices, i, j, period, st, fuel) == Asked(env, choices, i + 1, j, period, q.1, fuel)
      {
      }
      ChooseSucceeds(env, choices, i + 1, period, q.1, fuel, k);
    } else {
      assert Asked(env, choices, i, i, period, st, fuel) == st;
    }
  }
}
