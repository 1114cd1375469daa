/**
 * The arrays a formula produces and the checks a simple formula runs on the
 * array its function returns (openfisca_core/formulas.py, the tail of
 * `SimpleFormula.compute`): the size must be the entity's count, and, outside
 * debug mode, a NaN anywhere raises `NaNCreationError` with the positions of
 * the NaNs. Values are numbers or NaN; the dtype cast that follows is left out.
 */
module Outputs {
  import opened Base

  datatype Scalar = Num(x: real) | NaN

  /** One value per member of the entity. */
  type Array = seq<Scalar>

  datatype EngineError =
    | InfiniteLoop          // a formula requested again while it is being computed, outside lazy mode
    | UnitMismatch          // the output period does not have the declared period unit
    | OutsideOutputPeriod   // the output period does not contain the start of the requested period
    | NoValidityOverlap     // the output period misses the column's validity (`intersection` gives None)
    | MissingInput          // an input has no value outside lazy mode
    | SizeMismatch(size: nat, count: nat)
    | NaNCreation(positions: seq<nat>)
    | EmptyMinimum          // numpy: the minimum of an empty array
    | UnknownVariable       // a variable with no column
    | EmptyGroup            // an alternative, dated or select formula with no member
    | OutOfFuel             // the model's bound on the nesting of formula computations
    | FunctionRaised        // the formula's function raised; the source logs the call and re-raises

  /** The positions of the NaNs of `a`, ascending: `np.arange(len(a))[np.isnan(a)]`. */
  function NaNPositions(a: Array): (r: seq<nat>)
    ensures forall k: nat :: k in r <==> k < |a| && a[k].NaN?
    ensures forall i, j | 0 <= i < j < |r| :: r[i] < r[j]
  {
    if |a| == 0 then []
    else
      var rest := NaNPositions(a[..|a| - 1]);
      assert forall k | 0 <= k < |rest| :: rest[k] < |a| - 1 by {
        forall k | 0 <= k < |rest| ensures rest[k] < |a| - 1 {
          assert rest[k] in rest;
        }
      }
      if a[|a| - 1].NaN? then rest + [|a| - 1] else rest
  }

  /**
   * The checks on a computed array, as meant: the size, then (outside debug
   * mode) the NaNs. `None` means the array is accepted.
   */
  function Validate(a: Array, count: nat, debug: bool): (r: Option<EngineError>)
    ensures r.None? <==> |a| == count && (debug || forall k | 0 <= k < |a| :: a[k].Num?)
    ensures |a| != count ==> r == Some(SizeMismatch(|a|, count))
    ensures r.Some? ==> r.value.SizeMismatch? || r.value.NaNCreation?
    ensures r.Some? && r.value.NaNCreation? ==>
      |r.value.positions| > 0 && forall k: nat :: k in r.value.positions <==> k < |a| && a[k].NaN?
  {
    if |a| != count then Some(SizeMismatch(|a|, count))
    else if !debug && |NaNPositions(a)| > 0 then
      assert NaNPositions(a)[0] in NaNPositions(a);
      Some(NaNCreation(NaNPositions(a)))
    else
      assert forall k | 0 <= k < |a| :: a[k].NaN? ==> k in NaNPositions(a);
      None
  }

  /**
   * The checks as the source writes them: the NaN test is `np.isnan(np.min(a))`,
   * and numpy's minimum of an empty array raises `ValueError`, which the
   * surrounding `except TypeError` does not catch.
   */
  function ValidateAsWritten(a: Array, count: nat, debug: bool): (r: Option<EngineError>)
    ensures |a| > 0 || debug || |a| != count ==> r == Validate(a, count, debug)
    ensures |a| == 0 && count == 0 && !debug ==> r == Some(EmptyMinimum)
  {
    if |a| != count then Some(SizeMismatch(|a|, count))
    else if !debug && |a| == 0 then Some(EmptyMinimum)
    else Validate(a, count, debug)
  }

  /**
   * An entity with no member, outside debug mode: the empty array the
   * function returns holds no NaN, yet the source raises; the checks as meant
   * accept it.
   */
  lemma EmptyArrayRejected()
    ensures ValidateAsWritten([], 0, false) == Some(EmptyMinimum)
    ensures Validate([], 0, false) == None
  {
  }
}
