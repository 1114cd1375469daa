/**
 * The compute methods of the four formula kinds of openfisca_core/formulas.py
 * (simple, alternative, dated, select) and the bookkeeping they share.
 *
 * A formula belongs to the column of one variable and is computed for a
 * period. The simulation's mutable state becomes a value threaded through
 * every call:
 *  - `tracking` is `requested_formulas_by_period`: per period (or per
 *    `Invariant` for a period-invariant column), the formulas being computed;
 *    meeting one of them again is a cycle: lazy mode answers with whatever
 *    is cached, non-lazy mode raises;
 *  - `cache` holds the arrays of the holders, by variable and period;
 *  - `used` records each grouped formula's `used_formula`.
 * What a formula function does, the output period a simple formula derives
 * from the requested one and the period of each of its inputs are supplied
 * by the environment; the legislation a function reads is part of what the
 * function is. `Compute` spends one unit of fuel per nested formula
 * computation; `OutOfFuel` marks a computation deeper than the bound.
 */
module Engine {
  import opened Base
  import opened Periods
  import opened Outputs
  import DatedSlices

  type VarName = string
  type FormulaId = nat

  datatype Formula =
    | Simple(id: FormulaId, unit: Unit, inputs: seq<VarName>)
    | Alternative(id: FormulaId, alternatives: seq<Formula>)
    | Dated(id: FormulaId, slices: seq<DatedSlices.Slice<Formula>>)
    | Select(id: FormulaId, choices: seq<(VarName, Formula)>)

  /** The ids of `f` and of every formula it groups, with their multiplicities. */
  function Ids(f: Formula): multiset<FormulaId>
    decreases f, 1
  {
    multiset{f.id} + MemberIds(f, 0)
  }

  /** The ids of the members of a grouped formula from the `k`-th on. */
  function MemberIds(f: Formula, k: nat): multiset<FormulaId>
    decreases f, 0, Members(f) - k
  {
    if k >= Members(f) then multiset{}
    else
      var m := match f
        case Alternative(_, alts) => alts[k]
        case Dated(_, slices) => slices[k].formula
        case Select(_, choices) => choices[k].1;
      Ids(m) + MemberIds(f, k + 1)
  }

  function Members(f: Formula): nat {
    match f
    case Simple(_, _, _) => 0
    case Alternative(_, alts) => |alts|
    case Dated(_, slices) => |slices|
    case Select(_, choices) => |choices|
  }

  /**
   * The source tells formulas apart by object identity; the model tells them
   * apart by id. A simulation is well formed when no id is used twice, within
   * one column's formula or across columns.
   */
  ghost predicate DistinctIds(env: Env) {
    && (forall v | v in env.columns && env.columns[v].formula.Some? ::
          forall id | id in Ids(env.columns[v].formula.value) :: Ids(env.columns[v].formula.value)[id] == 1)
    && (forall v, w | v in env.columns && w in env.columns && v != w
          && env.columns[v].formula.Some? && env.columns[w].formula.Some? ::
          Ids(env.columns[v].formula.value) !! Ids(env.columns[w].formula.value))
  }

  /** What the engine reads of a column. */
  datatype Column = Column(
    formula: Option<Formula>,
    periodInvariant: bool,
    start: Option<Instant>,
    end: Option<Instant>,
    default: Scalar,
    count: nat)

  datatype Env = Env(
    columns: map<VarName, Column>,
    debug: bool,
    outputPeriod: (FormulaId, Period) -> Period,
    variablePeriod: (FormulaId, Period, VarName) -> Period,
    call: (FormulaId, seq<Array>, Period) -> Called)

  /** What a formula's function does with its arguments: return an array, return nothing, or raise. */
  datatype Called = Returned(arr: Array) | NoArray | Raised

  datatype TrackKey = Invariant | At(period: Period)

  datatype State = State(
    tracking: map<TrackKey, set<FormulaId>>,
    cache: map<(VarName, Period), Array>,
    used: map<FormulaId, FormulaId>)

  /** A dated holder as a compute method returns it: with its array, without one, or an exception. */
  datatype Outcome = Present(arr: Array, at: Period) | Absent(at: Period) | Failed(error: EngineError)

  /** `period_or_none`: the tracking key of a request. */
  function Key(col: Column, period: Period): TrackKey {
    if col.periodInvariant then Invariant else At(period)
  }

  /** The formulas being computed under `k`; a missing entry is an empty set. */
  function Pending(st: State, k: TrackKey): set<FormulaId> {
    if k in st.tracking then st.tracking[k] else {}
  }

  function Mark(st: State, k: TrackKey, id: FormulaId): (r: State)
    ensures Pending(r, k) == Pending(st, k) + {id}
    ensures forall k' | k' != k :: Pending(r, k') == Pending(st, k')
    ensures r.cache == st.cache && r.used == st.used
  {
    st.(tracking := st.tracking[k := Pending(st, k) + {id}])
  }

  function Unmark(st: State, k: TrackKey, id: FormulaId): (r: State)
    ensures Pending(r, k) == Pending(st, k) - {id}
    ensures forall k' | k' != k :: Pending(r, k') == Pending(st, k')
    ensures r.cache == st.cache && r.used == st.used
  {
    st.(tracking := st.tracking[k := Pending(st, k) - {id}])
  }

  /** `holder.at_period(p)`: the cached array of `v` for `p`, if any. */
  function Lookup(st: State, v: VarName, p: Period): (r: Outcome)
    ensures r.Present? <==> (v, p) in st.cache
    ensures !r.Failed? && r.at == p
    ensures r.Present? ==> r.arr == st.cache[(v, p)]
  {
    if (v, p) in st.cache then Present(st.cache[(v, p)], p) else Absent(p)
  }

  /** Every cached array of a known variable has one value per member of its entity. */
  ghost predicate Sized(env: Env, st: State) {
    forall k | k in st.cache && k.0 in env.columns :: |st.cache[k]| == env.columns[k.0].count
  }

  /**
   * What every computation keeps, whatever its outcome: cached periods stay
   * cached, and cached arrays keep the size of their entity.
   */
  ghost predicate Grows(env: Env, st: State, st': State) {
    && st.cache.Keys <= st'.cache.Keys
    && (Sized(env, st) ==> Sized(env, st'))
  }

  /** After a computation that did not raise, every formula it marked has been unmarked. */
  ghost predicate Restored(st: State, st': State) {
    forall k :: Pending(st', k) == Pending(st, k)
  }

  /** A present result for `v` is the array cached for `v` at its period. */
  ghost predicate Cached(v: VarName, r: (Outcome, State)) {
    r.0.Present? ==> (v, r.0.at) in r.1.cache && r.1.cache[(v, r.0.at)] == r.0.arr
  }

  /**
   * The errors lazy mode may still raise: a cycle is answered from the cache
   * and a missing input gives up quietly, so neither is among them.
   */
  predicate LazyError(e: EngineError) {
    e != InfiniteLoop && e != MissingInput
  }

  // ---------------------------------------------------------------------------
  // Entry points
  // ---------------------------------------------------------------------------

  /**
   * `holder.compute(...)` for a variable (holders.py is not part of this
   * model): a column with a formula computes it, any other answers with its
   * cached array.
   */
  function SimCompute(env: Env, v: VarName, period: Period, lazy: bool, st: State, fuel: nat): (r: (Outcome, State))
    ensures Grows(env, st, r.1) && Cached(v, r)
    ensures !r.0.Failed? ==> Restored(st, r.1)
    ensures lazy && r.0.Failed? ==> LazyError(r.0.error)
    ensures v !in env.columns ==> r.0 == Failed(UnknownVariable)
    decreases fuel, 3
  {
    if v !in env.columns then (Failed(UnknownVariable), st)
    else match env.columns[v].formula
      case None => (Lookup(st, v, period), st)
      case Some(f) => Compute(env, v, f, period, lazy, st, fuel)
  }

  /**
   * The preamble every compute method shares, then the method of the
   * formula's kind. A formula already being computed for the same key is a
   * cycle: lazy mode returns the cached array, if any, and changes nothing;
   * otherwise the source's assertion fails.
   */
  function Compute(env: Env, v: VarName, f: Formula, period: Period, lazy: bool, st: State, fuel: nat)
    : (r: (Outcome, State))
    requires v in env.columns
    ensures Grows(env, st, r.1) && Cached(v, r)
    ensures !r.0.Failed? ==> Restored(st, r.1)
    ensures lazy && r.0.Failed? ==> LazyError(r.0.error)
    ensures Sized(env, st) && r.0.Present? ==> |r.0.arr| == env.columns[v].count
    ensures fuel > 0 && f.id in Pending(st, Key(env.columns[v], period)) ==>
      r == if lazy then (Lookup(st, v, period), st) else (Failed(InfiniteLoop), st)
    decreases fuel, 2
  {
    if fuel == 0 then (Failed(OutOfFuel), st)
    else if f.id in Pending(st, Key(env.columns[v], period)) then
      if lazy then (Lookup(st, v, period), st) else (Failed(InfiniteLoop), st)
    else match f
      case Simple(_, _, _) => ComputeSimple(env, v, f, period, lazy, st, fuel - 1)
      case Alternative(_, _) => ComputeAlternative(env, v, f, period, lazy, st, fuel - 1)
      case Dated(_, _) => ComputeDated(env, v, f, period, lazy, st, fuel - 1)
      case Select(_, _) => ComputeSelect(env, v, f, period, lazy, st, fuel - 1)
  }

  // ---------------------------------------------------------------------------
  // Simple formulas
  // ---------------------------------------------------------------------------

  /** The arrays of a simple formula's inputs, or why they are not all there. */
  datatype Gathered = All(arrays: seq<Array>) | Missing | Broken(error: EngineError)

  /**
   * The inputs from the `i`-th on, each at its own period, in the caller's
   * mode. An input without a value stops the gathering: lazy mode gives up,
   * non-lazy mode raises.
   */
  function Gather(env: Env, id: FormulaId, out: Period, inputs: seq<VarName>, i: nat, lazy: bool, st: State, fuel: nat)
    : (r: (Gathered, State))
    requires i <= |inputs|
    ensures Grows(env, st, r.1)
    ensures !r.0.Broken? ==> Restored(st, r.1)
    ensures lazy && r.0.Broken? ==> LazyError(r.0.error)
    ensures r.0.All? ==> |r.0.arrays| == |inputs| - i
    ensures r.0.All? ==> forall k | i <= k < |inputs| ::
      var q := SimCompute(env, inputs[k], env.variablePeriod(id, out, inputs[k]), lazy,
                          Before(env, id, out, inputs, i, k, lazy, st, fuel), fuel);
      q.0.Present? && q.0.arr == r.0.arrays[k - i]
    ensures r.0.All? ==> r.1 == Before(env, id, out, inputs, i, |inputs|, lazy, st, fuel)
    ensures r.0.Missing? ==> lazy
    decreases fuel, 5, |inputs| - i
  {
    if i == |inputs| then (All([]), st)
    else
      var q := SimCompute(env, inputs[i], env.variablePeriod(id, out, inputs[i]), lazy, st, fuel);
      match q.0
      case Failed(e) => (Broken(e), q.1)
      case Absent(_) => (if lazy then Missing else Broken(MissingInput), q.1)
      case Present(a, _) =>
        var rest := Gather(env, id, out, inputs, i + 1, lazy, q.1, fuel);
        if rest.0.All? then
          assert forall k | i < k <= |inputs| ::
            Before(env, id, out, inputs, i, k, lazy, st, fuel) == Before(env, id, out, inputs, i + 1, k, lazy, q.1, fuel);
          (All([a] + rest.0.arrays), rest.1)
        else (rest.0, rest.1)
  }

  /** The state in which input `k` is computed, the inputs from the `i`-th on being computed one after the other. */
  ghost function Before(env: Env, id: FormulaId, out: Period, inputs: seq<VarName>, i: nat, k: nat, lazy: bool,
                        st: State, fuel: nat): State
    requires i <= k <= |inputs|
    decreases fuel, 4, k - i
  {
    if i == k then st
    else Before(env, id, out, inputs, i + 1, k, lazy,
                SimCompute(env, inputs[i], env.variablePeriod(id, out, inputs[i]), lazy, st, fuel).1, fuel)
  }

  /**
   * `SimpleFormula.compute` after the shared preamble: the output period must
   * have the declared unit and contain the start of the requested period; it
   * is then clipped to the column's validity, and a cached array for the
   * clipped period ends the work. Any answer is for the clipped period.
   */
  function ComputeSimple(env: Env, v: VarName, f: Formula, period: Period, lazy: bool, st: State, fuel: nat)
    : (r: (Outcome, State))
    requires f.Simple? && v in env.columns
    requires f.id !in Pending(st, Key(env.columns[v], period))
    ensures Grows(env, st, r.1) && Cached(v, r)
    ensures !r.0.Failed? ==> Restored(st, r.1)
    ensures lazy && r.0.Failed? ==> LazyError(r.0.error)
    ensures env.outputPeriod(f.id, period).unit != f.unit ==> r == (Failed(UnitMismatch), st)
    ensures !r.0.Failed? ==>
      var out0 := env.outputPeriod(f.id, period);
      && out0.unit == f.unit && out0.start <= period.start <= out0.stop
      && Intersect(out0, env.columns[v].start, env.columns[v].end) == Some(r.0.at)
    ensures var out0 := env.outputPeriod(f.id, period);
      var out := Intersect(out0, env.columns[v].start, env.columns[v].end);
      out0.unit == f.unit && out0.start <= period.start <= out0.stop && out.Some? && (v, out.value) in st.cache
      ==> r == (Present(st.cache[(v, out.value)], out.value), st)
    decreases fuel, 6
  {
    var col := env.columns[v];
    var out0 := env.outputPeriod(f.id, period);
    if out0.unit != f.unit then (Failed(UnitMismatch), st)
    else if !(out0.start <= period.start <= out0.stop) then (Failed(OutsideOutputPeriod), st)
    else match Intersect(out0, col.start, col.end)
      case None => (Failed(NoValidityOverlap), st)
      case Some(out) =>
        if (v, out) in st.cache then (Present(st.cache[(v, out)], out), st)
        else RunSimple(env, v, f, out, Key(col, period), lazy, st, fuel)
  }

  /**
   * A simple formula with no cached array for its output period `out`: mark
   * it, gather the inputs and call the function. When inputs are missing
   * (lazy mode) the formula is unmarked and answers with what the cache
   * holds for `out`.
   */
  function RunSimple(env: Env, v: VarName, f: Formula, out: Period, key: TrackKey, lazy: bool, st: State, fuel: nat)
    : (r: (Outcome, State))
    requires f.Simple? && v in env.columns && f.id !in Pending(st, key)
    ensures Grows(env, st, r.1) && Cached(v, r)
    ensures !r.0.Failed? ==> Restored(st, r.1) && r.0.at == out
    ensures lazy && r.0.Failed? ==> LazyError(r.0.error)
    decreases fuel, 5, |f.inputs| + 1
  {
    var g := Gather(env, f.id, out, f.inputs, 0, lazy, Mark(st, key, f.id), fuel);
    match g.0
    case Broken(e) => (Failed(e), g.1)
    case Missing => (Lookup(g.1, v, out), Unmark(g.1, key, f.id))
    case All(arrays) => Finish(env, v, f.id, out, key, g.1, arrays)
  }

  /**
   * The call of the function and what follows it. A returned array is
   * checked (size, NaNs) as the source writes the checks, so an empty array
   * outside debug mode raises, and stored at `out` only when it passes;
   * nothing returned means the answer is what the cache holds for `out`.
   * The formula is unmarked unless an exception is raised, by the checks or
   * by the function itself.
   */
  function Finish(env: Env, v: VarName, id: FormulaId, out: Period, key: TrackKey, st: State, arrays: seq<Array>)
    : (r: (Outcome, State))
    requires v in env.columns
    ensures Grows(env, st, r.1) && Cached(v, r)
    ensures !r.0.Failed? ==> Restored(Unmark(st, key, id), r.1) && r.0.at == out
    ensures r.0.Failed? ==> LazyError(r.0.error)
    ensures r.0.Failed? ==> r.1 == st
    ensures env.call(id, arrays, out).Returned? ==>
      var a := env.call(id, arrays, out).arr;
      && (r.0.Present? <==> ValidateAsWritten(a, env.columns[v].count, env.debug).None?)
      && (r.0.Present? ==> r.0.arr == a)
      && (r.0.Failed? ==> r.0.error == ValidateAsWritten(a, env.columns[v].count, env.debug).value)
    ensures env.call(id, arrays, out).NoArray? ==> r.0 == Lookup(st, v, out) && r.1.cache == st.cache
    ensures env.call(id, arrays, out).Raised? ==> r == (Failed(FunctionRaised), st)
  {
    var col := env.columns[v];
    match env.call(id, arrays, out)
    case Raised => (Failed(FunctionRaised), st)
    case NoArray => (Lookup(st, v, out), Unmark(st, key, id))
    case Returned(a) =>
      if ValidateAsWritten(a, col.count, env.debug).Some? then (Failed(ValidateAsWritten(a, col.count, env.debug).value), st)
      else (Present(a, out), Unmark(st, key, id).(cache := st.cache[(v, out) := a]))
  }

  // ---------------------------------------------------------------------------
  // Alternative formulas
  // ---------------------------------------------------------------------------

  /**
   * Try the alternatives from the `i`-th on, lazily, each on its own copy of
   * the tracking: the tracking comes back as it was, the cache keeps what the
   * probe computed. Stops at the first present array or exception; `r.2` is
   * the alternative last tried.
   */
  function Probe(env: Env, v: VarName, alts: seq<Formula>, i: nat, period: Period, st: State, fuel: nat)
    : (r: (Outcome, State, nat))
    requires i < |alts| && v in env.columns
    ensures Grows(env, st, r.1) && Cached(v, (r.0, r.1))
    ensures r.1.tracking == st.tracking
    ensures r.0.Failed? ==> LazyError(r.0.error)
    ensures i <= r.2 < |alts|
    ensures r.0.Absent? ==> r.2 == |alts| - 1
    // the alternatives before the one last tried had no array
    ensures forall j | i <= j < r.2 ::
      Compute(env, v, alts[j], period, true, Probed(env, v, alts, i, j, period, st, fuel), fuel).0.Absent?
    ensures var q := Compute(env, v, alts[r.2], period, true, Probed(env, v, alts, i, r.2, period, st, fuel), fuel);
      r.0 == q.0 && r.1 == q.1.(tracking := st.tracking)
    decreases fuel, 5, |alts| - i
  {
    var q := Compute(env, v, alts[i], period, true, st, fuel);
    var st' := q.1.(tracking := st.tracking);
    if q.0.Present? || q.0.Failed? || i + 1 == |alts| then (q.0, st', i)
    else Probe(env, v, alts, i + 1, period, st', fuel)
  }

  /**
   * The state in which alternative `k` is probed, the alternatives from the
   * `i`-th on being probed one after the other, each on a copy of the
   * tracking of `st`.
   */
  ghost function Probed(env: Env, v: VarName, alts: seq<Formula>, i: nat, k: nat, period: Period, st: State, fuel: nat)
    : State
    requires i <= k <= |alts| && v in env.columns
    decreases fuel, 4, k - i
  {
    if i == k then st
    else Probed(env, v, alts, i + 1, k, period,
                Compute(env, v, alts[i], period, true, st, fuel).1.(tracking := st.tracking), fuel)
  }

  /**
   * `AlternativeFormula.compute` after the preamble: the first alternative
   * with an array wins and is recorded as used. If none has one, lazy mode
   * returns the last (empty) answer; non-lazy mode computes the first
   * alternative for real.
   */
  function ComputeAlternative(env: Env, v: VarName, f: Formula, period: Period, lazy: bool, st: State, fuel: nat)
    : (r: (Outcome, State))
    requires f.Alternative? && v in env.columns
    requires f.id !in Pending(st, Key(env.columns[v], period))
    ensures Grows(env, st, r.1) && Cached(v, r)
    ensures !r.0.Failed? ==> Restored(st, r.1)
    ensures lazy && r.0.Failed? ==> LazyError(r.0.error)
    ensures |f.alternatives| == 0 ==> r.0 == Failed(EmptyGroup)
    decreases fuel, 6
  {
    if |f.alternatives| == 0 then (Failed(EmptyGroup), st)
    else
      var key := Key(env.columns[v], period);
      var marked := Mark(st, key, f.id);
      var p := Probe(env, v, f.alternatives, 0, period, marked, fuel);
      match p.0
      case Failed(e) => (Failed(e), p.1)
      case Present(_, _) => (p.0, Adopt(p.1, key, f.id, f.alternatives[p.2].id))
      case Absent(_) =>
        if lazy then (p.0, Unmark(p.1, key, f.id)) else ComputeFirst(env, v, f, period, key, p.1, fuel)
  }

  /** The grouped formula `id` is done and records `chosen` as its `used_formula`. */
  function Adopt(st: State, key: TrackKey, id: FormulaId, chosen: FormulaId): (r: State)
    ensures r.cache == st.cache && Restored(Unmark(st, key, id), r)
    ensures id in r.used && r.used[id] == chosen
  {
    Unmark(st, key, id).(used := st.used[id := chosen])
  }

  /**
   * No alternative had an array, outside lazy mode: the first alternative is
   * recorded as used and computed for real, and the formula unmarked after.
   */
  function ComputeFirst(env: Env, v: VarName, f: Formula, period: Period, key: TrackKey, st: State, fuel: nat)
    : (r: (Outcome, State))
    requires f.Alternative? && |f.alternatives| > 0 && v in env.columns
    ensures Grows(env, st, r.1) && Cached(v, r)
    ensures !r.0.Failed? ==> Restored(Unmark(st, key, f.id), r.1)
    decreases fuel, 5, 0
  {
    var first := f.alternatives[0];
    var q := Compute(env, v, first, period, false, st.(used := st.used[f.id := first.id]), fuel);
    if q.0.Failed? then q else (q.0, Unmark(q.1, key, f.id))
  }

  // ---------------------------------------------------------------------------
  // Dated formulas
  // ---------------------------------------------------------------------------

  /** How the walk over the slices of a dated formula ends. */
  datatype WalkEnd = Chosen(arr: Array, at: Period, index: nat) | Fallback(last: Option<Period>) | Stopped(error: EngineError)

  /** The slice `s` meets the period `p`. */
  predicate Meets(p: Period, s: DatedSlices.Slice<Formula>) {
    Intersect(p, s.start, s.stop).Some?
  }

  /**
   * Walk the slices from the `i`-th on: stop at the first slice starting
   * after the period; skip a slice that misses it; otherwise compute the
   * slice's formula on the common part, and stop there, with its array or
   * with the period it had none for.
   */
  function Walk(env: Env, v: VarName, slices: seq<DatedSlices.Slice<Formula>>, i: nat, period: Period, lazy: bool,
                st: State, fuel: nat)
    : (r: (WalkEnd, State))
    requires i <= |slices| && v in env.columns
    ensures Grows(env, st, r.1)
    ensures !r.0.Stopped? ==> Restored(st, r.1)
    ensures lazy && r.0.Stopped? ==> LazyError(r.0.error)
    ensures r.0.Chosen? ==> (v, r.0.at) in r.1.cache && r.1.cache[(v, r.0.at)] == r.0.arr
    ensures r.0.Chosen? ==>
      && i <= r.0.index < |slices| && Meets(period, slices[r.0.index])
      && forall j | i <= j < r.0.index :: !Meets(period, slices[j])
    ensures r.0.Fallback? && r.0.last.None? ==> r.1 == st
    decreases fuel, 5, |slices| - i
  {
    if i == |slices| then (Fallback(None), st)
    else if slices[i].start.Some? && slices[i].start.value > period.stop then (Fallback(None), st)
    else match Intersect(period, slices[i].start, slices[i].stop)
      case None => Walk(env, v, slices, i + 1, period, lazy, st, fuel)
      case Some(out) =>
        var q := Compute(env, v, slices[i].formula, out, lazy, st, fuel);
        match q.0
        case Failed(e) => (Stopped(e), q.1)
        case Absent(at) => (Fallback(Some(at)), q.1)
        case Present(arr, at) => (Chosen(arr, at, i), q.1)
  }

  /**
   * `DatedFormula.compute` after the preamble: the first slice meeting the
   * period that yields an array wins and is recorded as used. Otherwise the
   * column default, repeated over the entity, is stored at the period of the
   * last empty answer, or at the requested period when no slice was
   * computed, and returned: a dated formula always answers with an array.
   */
  function ComputeDated(env: Env, v: VarName, f: Formula, period: Period, lazy: bool, st: State, fuel: nat)
    : (r: (Outcome, State))
    requires f.Dated? && v in env.columns
    requires f.id !in Pending(st, Key(env.columns[v], period))
    ensures Grows(env, st, r.1) && Cached(v, r)
    ensures !r.0.Failed? ==> Restored(st, r.1)
    ensures lazy && r.0.Failed? ==> LazyError(r.0.error)
    ensures !r.0.Absent?
    decreases fuel, 6
  {
    if |f.slices| == 0 then (Failed(EmptyGroup), st)
    else
      var col := env.columns[v];
      var key := Key(col, period);
      var w := Walk(env, v, f.slices, 0, period, lazy, Mark(st, key, f.id), fuel);
      match w.0
      case Stopped(e) => (Failed(e), w.1)
      case Chosen(arr, at, k) => (Present(arr, at), Adopt(w.1, key, f.id, f.slices[k].formula.id))
      case Fallback(last) => StoreDefault(env, v, if last.Some? then last.value else period, Unmark(w.1, key, f.id))
  }

  /** The column default, repeated over the entity, stored at `at` and returned. */
  function StoreDefault(env: Env, v: VarName, at: Period, st: State): (r: (Outcome, State))
    requires v in env.columns
    ensures Grows(env, st, r.1) && Cached(v, r)
    ensures r.0.Present? && r.0.at == at && |r.0.arr| == env.columns[v].count
    ensures forall k | 0 <= k < |r.0.arr| :: r.0.arr[k] == env.columns[v].default
    ensures r.1.tracking == st.tracking && r.1.used == st.used
    ensures forall k | k in st.cache && k != (v, at) :: k in r.1.cache && r.1.cache[k] == st.cache[k]
  {
    var default := Fill(env.columns[v].count, env.columns[v].default);
    (Present(default, at), st.(cache := st.cache[(v, at) := default]))
  }

  // ---------------------------------------------------------------------------
  // Select formulas
  // ---------------------------------------------------------------------------

  /**
   * The first choice, from the `i`-th on, whose main variable has an array
   * for the period (computed lazily, on the shared tracking); `|choices|`
   * when none has one.
   */
  function Choose(env: Env, choices: seq<(VarName, Formula)>, i: nat, period: Period, st: State, fuel: nat)
    : (r: (Result<nat, EngineError>, State))
    requires i <= |choices|
    ensures Grows(env, st, r.1)
    ensures r.0.Success? ==> Restored(st, r.1) && i <= r.0.value <= |choices|
    ensures r.0.Failure? ==> LazyError(r.0.error)
    // the main variables before the chosen one have no array, the chosen one has one
    ensures r.0.Success? ==> forall j | i <= j < r.0.value ::
      SimCompute(env, choices[j].0, period, true, Asked(env, choices, i, j, period, st, fuel), fuel).0.Absent?
    ensures r.0.Success? && r.0.value < |choices| ==>
      var q := SimCompute(env, choices[r.0.value].0, period, true, Asked(env, choices, i, r.0.value, period, st, fuel), fuel);
      q.0.Present? && r.1 == q.1
    ensures r.0.Success? && r.0.value == |choices| ==> r.1 == Asked(env, choices, i, |choices|, period, st, fuel)
    decreases fuel, 5, |choices| - i
  {
    if i == |choices| then (Success(|choices|), st)
    else
      var q := SimCompute(env, choices[i].0, period, true, st, fuel);
      match q.0
      case Failed(e) => (Failure(e), q.1)
      case Present(_, _) => (Success(i), q.1)
      case Absent(_) => Choose(env, choices, i + 1, period, q.1, fuel)
  }

  /** The state in which the main variable of choice `k` is asked for, those from the `i`-th on being asked one after the other. */
  ghost function Asked(env: Env, choices: seq<(VarName, Formula)>, i: nat, k: nat, period: Period, st: State, fuel: nat)
    : State
    requires i <= k <= |choices|
    decreases fuel, 4, k - i
  {
    if i == k then st
    else Asked(env, choices, i + 1, k, period, SimCompute(env, choices[i].0, period, true, st, fuel).1, fuel)
  }

  /**
   * `SelectFormula.compute` after the preamble: choose a formula by its main
   * variable, record it as used, and compute it in the caller's mode.
   */
  function ComputeSelect(env: Env, v: VarName, f: Formula, period: Period, lazy: bool, st: State, fuel: nat)
    : (r: (Outcome, State))
    requires f.Select? && v in env.columns
    requires f.id !in Pending(st, Key(env.columns[v], period))
    ensures Grows(env, st, r.1) && Cached(v, r)
    ensures !r.0.Failed? ==> Restored(st, r.1)
    ensures lazy && r.0.Failed? ==> LazyError(r.0.error)
    ensures |f.choices| == 0 ==> r.0 == Failed(EmptyGroup)
    decreases fuel, 6
  {
    if |f.choices| == 0 then (Failed(EmptyGroup), st)
    else
      var key := Key(env.columns[v], period);
      var c := Choose(env, f.choices, 0, period, Mark(st, key, f.id), fuel);
      match c.0
      case Failure(e) => (Failed(e), c.1)
      case Success(k) =>
        var chosen := f.choices[if k < |f.choices| then k else 0].1;
        var q := Compute(env, v, chosen, period, lazy, c.1.(used := c.1.used[f.id := chosen.id]), fuel);
        if q.0.Failed? then q else (q.0, Unmark(q.1, key, f.id))
  }
}
