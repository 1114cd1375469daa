/**
 * The role helpers of a simple formula (openfisca_core/formulas.py): moving
 * values between the persons of a simulation and the groups (households,
 * families, ...) they belong to. Each person knows the row of its group and
 * its role in that group. The helpers are numpy index arithmetic; the model
 * writes out the numpy rules that matter:
 *  - an index `i` into an axis of length `n` is accepted when -n <= i < n,
 *    and a negative one counts from the end; any other raises IndexError;
 *  - `target[idx] = values` with a repeated index keeps the last value;
 *  - `target[idx] += values` reads `target[idx]` once, before any write, so a
 *    repeated index also keeps only the last sum.
 */
module Roles {
  import opened Base

  datatype RoleError =
    | SizeMismatch   // the assertion on the size of a bare array
    | IndexError     // numpy: an index out of range, or a mask of the wrong length

  /** A person seen from a group entity: the row of its group and its role there. */
  datatype Person = Person(group: int, role: int)

  /** A group entity as its members see it: one record per person, and the number of groups and of roles. */
  datatype Entity = Entity(members: seq<Person>, count: nat, rolesCount: nat)

  /** The array argument: a bare array, or a holder that brings its column's default value. */
  datatype Source<V> = Raw(values: seq<V>) | Held(values: seq<V>, columnDefault: V)

  predicate InBounds(i: int, n: nat) {
    -(n as int) <= i < n
  }

  /** The position numpy reads or writes for index `i`. */
  function Wrap(i: int, n: nat): (r: nat)
    requires InBounds(i, n)
    ensures r < n && (r == i || r == i + n)
  {
    if i < 0 then i + n else i
  }

  /** The default used when none is given: the column's for a holder, zero for a bare array. */
  function DefaultOf<V>(src: Source<V>, default: Option<V>, zero: V): V {
    if default.Some? then default.value else if src.Held? then src.columnDefault else zero
  }

  /** The roles to visit: those given, or `0 .. count-1`. */
  function RoleList(roles: Option<seq<int>>, count: nat): (r: seq<int>)
    ensures roles.Some? ==> r == roles.value
    ensures roles.None? ==> |r| == count && forall k | 0 <= k < count :: r[k] == k
  {
    if roles.Some? then roles.value else seq(count, k => k)
  }

  /** Every person with role `role` points into an axis of length `n`. */
  predicate RoleInBounds(e: Entity, role: int, n: nat) {
    forall p | 0 <= p < |e.members| && e.members[p].role == role :: InBounds(e.members[p].group, n)
  }

  /** Person `p` has role `role` and writes to row `g` of an axis of length `n`. */
  predicate Points(e: Entity, p: nat, role: int, n: nat, g: nat)
    requires p < |e.members|
  {
    e.members[p].role == role && InBounds(e.members[p].group, n) && Wrap(e.members[p].group, n) == g
  }

  /** The last person among the first `k` that writes to row `g` for role `role`. */
  function LastHolder(e: Entity, role: int, n: nat, g: nat, k: nat): (r: Option<nat>)
    requires k <= |e.members|
    ensures r.Some? ==> r.value < k && Points(e, r.value, role, n, g)
    ensures r.Some? ==> forall p | r.value < p < k :: !Points(e, p, role, n, g)
    ensures r.None? <==> forall p | 0 <= p < k :: !Points(e, p, role, n, g)
  {
    if k == 0 then None
    else if Points(e, k - 1, role, n, g) then Some(k - 1)
    else LastHolder(e, role, n, g, k - 1)
  }

  /**
   * `target[idx[role == r]] = vals[role == r]` over the first `k` persons:
   * written one person after the other, so the last writer of a row wins.
   */
  function ScatterRole<V>(e: Entity, role: int, n: nat, target: seq<V>, vals: seq<V>, k: nat): (r: seq<V>)
    requires |target| == n && |vals| == |e.members| && k <= |e.members|
    requires RoleInBounds(e, role, n)
    ensures |r| == n
    ensures forall g | 0 <= g < n ::
      r[g] == match LastHolder(e, role, n, g, k) case Some(p) => vals[p] case None => target[g]
  {
    if k == 0 then target
    else
      var prev := ScatterRole(e, role, n, target, vals, k - 1);
      var x := e.members[k - 1];
      if x.role == role then prev[Wrap(x.group, n) := vals[k - 1]] else prev
  }

  // ---------------------------------------------------------------------------
  // Groups to persons
  // ---------------------------------------------------------------------------

  /** One pass of the cast loop per role: persons with that role read their group's cell. */
  function CastRoles<V>(e: Entity, values: seq<V>, rs: seq<int>, target: seq<V>): (r: Result<seq<V>, RoleError>)
    requires |target| == |e.members|
    ensures r.Success? <==> forall k | 0 <= k < |rs| :: RoleInBounds(e, rs[k], |values|)
    ensures r.Success? ==> |r.value| == |target|
    ensures r.Success? ==> forall p | 0 <= p < |target| ::
      r.value[p] == if e.members[p].role in rs then values[Wrap(e.members[p].group, |values|)] else target[p]
  {
    if |rs| == 0 then Success(target)
    else if !RoleInBounds(e, rs[0], |values|) then Failure(IndexError)
    else
      var role := rs[0];
      var next := seq(|target|, p requires 0 <= p < |target| =>
        if e.members[p].role == role then values[Wrap(e.members[p].group, |values|)] else target[p]);
      CastRoles(e, values, rs[1..], next)
  }

  /**
   * `cast_from_entity_to_roles`: a persons array in which each person whose
   * role is selected gets its group's value and every other person the
   * default. No roles given means every role.
   */
  function CastFromEntityToRoles<V>(e: Entity, src: Source<V>, default: Option<V>, zero: V, roles: Option<seq<int>>)
    : (r: Result<seq<V>, RoleError>)
    ensures src.Raw? && |src.values| != e.count ==> r == Failure(SizeMismatch)
    ensures (src.Held? || |src.values| == e.count) ==>
      (r.Success? <==> forall k | 0 <= k < |RoleList(roles, e.rolesCount)| ::
                         RoleInBounds(e, RoleList(roles, e.rolesCount)[k], |src.values|))
    ensures r.Success? ==> |r.value| == |e.members|
    ensures r.Success? ==> forall p | 0 <= p < |e.members| ::
      r.value[p] == if e.members[p].role in RoleList(roles, e.rolesCount)
                    then src.values[Wrap(e.members[p].group, |src.values|)]
                    else DefaultOf(src, default, zero)
  {
    if src.Raw? && |src.values| != e.count then Failure(SizeMismatch)
    else
      CastRoles(e, src.values, RoleList(roles, e.rolesCount), Fill(|e.members|, DefaultOf(src, default, zero)))
  }

  /** `cast_from_entity_to_role`: the cast for a single role. */
  function CastFromEntityToRole<V>(e: Entity, src: Source<V>, default: Option<V>, zero: V, role: int)
    : (r: Result<seq<V>, RoleError>)
    ensures src.Raw? && |src.values| != e.count ==> r == Failure(SizeMismatch)
    ensures (src.Held? || |src.values| == e.count) ==> (r.Success? <==> RoleInBounds(e, role, |src.values|))
    ensures r.Success? ==> |r.value| == |e.members|
    ensures r.Success? ==> forall p | 0 <= p < |e.members| ::
      r.value[p] == if e.members[p].role == role
                    then src.values[Wrap(e.members[p].group, |src.values|)]
                    else DefaultOf(src, default, zero)
  {
    CastFromEntityToRoles(e, src, default, zero, Some([role]))
  }

  // ---------------------------------------------------------------------------
  // Persons to groups
  // ---------------------------------------------------------------------------

  /** The error, if any, of reading a persons array through the role filter. */
  function PersonsArrayError<V>(e: Entity, src: Source<V>): Option<RoleError> {
    if |src.values| == |e.members| then None
    else if src.Raw? then Some(SizeMismatch)   // the explicit size assertion
    else Some(IndexError)                      // numpy: boolean mask of the wrong length
  }

  /**
   * `filter_role`: a group array in which each group gets the value of its
   * (last) person holding `role`, and the default when it has none.
   */
  function FilterRole<V>(e: Entity, src: Source<V>, default: Option<V>, zero: V, role: int)
    : (r: Result<seq<V>, RoleError>)
    ensures PersonsArrayError(e, src).Some? ==> r == Failure(PersonsArrayError(e, src).value)
    ensures PersonsArrayError(e, src).None? ==> (r.Success? <==> RoleInBounds(e, role, e.count))
    ensures r.Success? ==> |r.value| == e.count
    ensures r.Success? ==> forall g | 0 <= g < e.count ::
      r.value[g] == match LastHolder(e, role, e.count, g, |e.members|)
                    case Some(p) => src.values[p]
                    case None => DefaultOf(src, default, zero)
  {
    if PersonsArrayError(e, src).Some? then Failure(PersonsArrayError(e, src).value)
    else if !RoleInBounds(e, role, e.count) then Failure(IndexError)
    else
      Success(ScatterRole(e, role, e.count, Fill(e.count, DefaultOf(src, default, zero)), src.values, |e.members|))
  }

  /** One filtered array per role, as `split_by_roles` builds its dictionary. */
  function SplitRoles<V>(e: Entity, src: Source<V>, default: Option<V>, zero: V, rs: seq<int>,
                         acc: map<int, seq<V>>)
    : (r: Result<map<int, seq<V>>, RoleError>)
    ensures r.Success? ==> r.value.Keys == acc.Keys + set k | 0 <= k < |rs| :: rs[k]
    ensures r.Success? ==> forall k | 0 <= k < |rs| ::
      FilterRole(e, src, default, zero, rs[k]) == Success(r.value[rs[k]])
    ensures r.Success? ==> forall role | role in acc && role !in rs :: r.value[role] == acc[role]
    ensures r.Failure? <==> exists k | 0 <= k < |rs| :: FilterRole(e, src, default, zero, rs[k]).Failure?
  {
    if |rs| == 0 then Success(acc)
    else
      match FilterRole(e, src, default, zero, rs[0])
      case Failure(err) => Failure(err)
      case Success(a) =>
        var r := SplitRoles(e, src, default, zero, rs[1..], acc[rs[0] := a]);
        assert forall k | 1 <= k < |rs| :: rs[1..][k - 1] == rs[k];
        assert forall k | 0 <= k < |rs| - 1 :: rs[1..][k] == rs[k + 1];
        r
  }

  /**
   * `split_by_roles`: a bare array must have one value per person; then, for
   * each role, the array `filter_role` would return. No roles given means at
   * least the first eleven.
   */
  function SplitByRoles<V>(e: Entity, src: Source<V>, default: Option<V>, zero: V, roles: Option<seq<int>>)
    : (r: Result<map<int, seq<V>>, RoleError>)
    ensures src.Raw? && |src.values| != |e.members| ==> r == Failure(SizeMismatch)
    ensures r.Success? ==> forall role :: role in r.value <==> role in RoleList(roles, Max(e.rolesCount, 11))
    ensures r.Success? ==> forall role | role in r.value :: FilterRole(e, src, default, zero, role) == Success(r.value[role])
    ensures !(src.Raw? && |src.values| != |e.members|) ==>
      (r.Failure? <==> exists role | role in RoleList(roles, Max(e.rolesCount, 11)) ::
                         FilterRole(e, src, default, zero, role).Failure?)
  {
    if src.Raw? && |src.values| != |e.members| then Failure(SizeMismatch)
    else
      var rs := RoleList(roles, Max(e.rolesCount, 11));
      SplitRoles(e, src, default, zero, rs, map[])
  }

  function Max(a: nat, b: nat): nat {
    if a < b then b else a
  }

  /** What each group gets from the role: its last holder's value, or `none` when it has no holder. */
  function RoleValue<V>(e: Entity, values: seq<V>, role: int, g: nat, none: V): V
    requires |values| == |e.members|
  {
    match LastHolder(e, role, e.count, g, |e.members|)
    case Some(p) => values[p]
    case None => none
  }

  /** The sum over the roles of what each brings to group `g`. */
  function RoleSum(e: Entity, values: seq<real>, rs: seq<int>, g: nat): real
    requires |values| == |e.members|
  {
    if |rs| == 0 then 0.0 else RoleValue(e, values, rs[0], g, 0.0) + RoleSum(e, values, rs[1..], g)
  }

  /** `target[idx[f]] += values[f]` role after role. */
  function SumRoles(e: Entity, values: seq<real>, rs: seq<int>, target: seq<real>): (r: Result<seq<real>, RoleError>)
    requires |values| == |e.members| && |target| == e.count
    ensures r.Success? <==> forall k | 0 <= k < |rs| :: RoleInBounds(e, rs[k], e.count)
    ensures r.Success? ==> |r.value| == e.count
    ensures r.Success? ==> forall g | 0 <= g < e.count :: r.value[g] == target[g] + RoleSum(e, values, rs, g)
  {
    if |rs| == 0 then Success(target)
    else if !RoleInBounds(e, rs[0], e.count) then Failure(IndexError)
    else
      var role := rs[0];
      // the right-hand side, read before any write
      var sums := seq(|e.members|, p requires 0 <= p < |e.members| =>
        if e.members[p].role == role then target[Wrap(e.members[p].group, e.count)] + values[p] else 0.0);
      SumRoles(e, values, rs[1..], ScatterRole(e, role, e.count, target, sums, |e.members|))
  }

  /**
   * The error of a persons array met by `sum_by_entity` or `any_by_roles`: a
   * bare array is size-checked up front, a holder's array only fails when a
   * role is visited and masks it, so with no role to visit there is none.
   */
  function VisitError<V>(e: Entity, src: Source<V>, rs: seq<int>): (r: Option<RoleError>)
    ensures r.Some? ==> PersonsArrayError(e, src) == r
    ensures PersonsArrayError(e, src).Some? && (src.Raw? || |rs| > 0) ==> r.Some?
    ensures src.Held? && |rs| == 0 ==> r.None?
  {
    if src.Held? && |rs| == 0 then None else PersonsArrayError(e, src)
  }

  /**
   * `sum_by_entity`: per group, starting from zero, the sum over the roles
   * of the value of the role's (last) holder. Boolean arrays are summed as
   * 0 and 1 by the source; here values are numbers.
   */
  function SumByEntity(e: Entity, src: Source<real>, roles: Option<seq<int>>): (r: Result<seq<real>, RoleError>)
    ensures var rs := RoleList(roles, e.rolesCount);
      VisitError(e, src, rs).Some? ==> r == Failure(VisitError(e, src, rs).value)
    ensures PersonsArrayError(e, src).None? ==>
      (r.Success? <==> forall k | 0 <= k < |RoleList(roles, e.rolesCount)| ::
                         RoleInBounds(e, RoleList(roles, e.rolesCount)[k], e.count))
    ensures r.Success? ==> |r.value| == e.count
    ensures r.Success? && |src.values| == |e.members| ==> forall g | 0 <= g < e.count ::
      r.value[g] == RoleSum(e, src.values, RoleList(roles, e.rolesCount), g)
    ensures |RoleList(roles, e.rolesCount)| == 0 && !(src.Raw? && |src.values| != |e.members|) ==>
      r == Success(Fill(e.count, 0.0))
  {
    var rs := RoleList(roles, e.rolesCount);
    if VisitError(e, src, rs).Some? then Failure(VisitError(e, src, rs).value)
    else if |rs| == 0 then Success(Fill(e.count, 0.0))
    else SumRoles(e, src.values, rs, Fill(e.count, 0.0))
  }

  /** Some role brings `true` to group `g`. */
  predicate RoleAny(e: Entity, values: seq<bool>, rs: seq<int>, g: nat)
    requires |values| == |e.members|
  {
    exists k | 0 <= k < |rs| :: RoleValue(e, values, rs[k], g, false)
  }

  /** `target[idx[f]] += values[f]` on booleans, role after role. */
  function AnyRoles(e: Entity, values: seq<bool>, rs: seq<int>, target: seq<bool>): (r: Result<seq<bool>, RoleError>)
    requires |values| == |e.members| && |target| == e.count
    ensures r.Success? <==> forall k | 0 <= k < |rs| :: RoleInBounds(e, rs[k], e.count)
    ensures r.Success? ==> |r.value| == e.count
    ensures r.Success? ==> forall g | 0 <= g < e.count :: r.value[g] == (target[g] || RoleAny(e, values, rs, g))
  {
    if |rs| == 0 then Success(target)
    else if !RoleInBounds(e, rs[0], e.count) then Failure(IndexError)
    else
      var role := rs[0];
      var ors := seq(|e.members|, p requires 0 <= p < |e.members| =>
        if e.members[p].role == role then target[Wrap(e.members[p].group, e.count)] || values[p] else false);
      var r := AnyRoles(e, values, rs[1..], ScatterRole(e, role, e.count, target, ors, |e.members|));
      assert forall k | 0 <= k < |rs| - 1 :: rs[1..][k] == rs[k + 1];
      r
  }

  /**
   * `any_by_roles`: per group, whether the (last) holder of some role has a
   * true value. The values are taken as booleans (non-zero is true).
   */
  function AnyByRoles(e: Entity, src: Source<bool>, roles: Option<seq<int>>): (r: Result<seq<bool>, RoleError>)
    ensures var rs := RoleList(roles, e.rolesCount);
      VisitError(e, src, rs).Some? ==> r == Failure(VisitError(e, src, rs).value)
    ensures PersonsArrayError(e, src).None? ==>
      (r.Success? <==> forall k | 0 <= k < |RoleList(roles, e.rolesCount)| ::
                         RoleInBounds(e, RoleList(roles, e.rolesCount)[k], e.count))
    ensures r.Success? ==> |r.value| == e.count
    ensures r.Success? && |src.values| == |e.members| ==> forall g | 0 <= g < e.count ::
      r.value[g] == RoleAny(e, src.values, RoleList(roles, e.rolesCount), g)
    ensures |RoleList(roles, e.rolesCount)| == 0 && !(src.Raw? && |src.values| != |e.members|) ==>
      r == Success(Fill(e.count, false))
  {
    var rs := RoleList(roles, e.rolesCount);
    if VisitError(e, src, rs).Some? then Failure(VisitError(e, src, rs).value)
    else if |rs| == 0 then Success(Fill(e.count, false))
    else AnyRoles(e, src.values, rs, Fill(e.count, false))
  }

  // ---------------------------------------------------------------------------
  // Properties
  // ---------------------------------------------------------------------------

  /** Row `g` has a person with role `role`. */
  predicate HasHolder(e: Entity, role: int, g: nat) {
    exists p | 0 <= p < |e.members| :: Points(e, p, role, e.count, g)
  }

  /** No two persons with role `role` write to the same row. */
  predicate AtMostOne(e: Entity, role: int) {
    forall p, q | 0 <= p < q < |e.members| ::
      !(e.members[p].role == role && e.members[q].role == role
        && InBounds(e.members[p].group, e.count) && InBounds(e.members[q].group, e.count)
        && Wrap(e.members[p].group, e.count) == Wrap(e.members[q].group, e.count))
  }

  /**
   * Casting a group array to the persons holding `role` and filtering it back
   * gives the group array again, when every group has such a person.
   */
  lemma FilterAfterCast<V>(e: Entity, values: seq<V>, d: Option<V>, d': Option<V>, zero: V, role: int)
    requires |values| == e.count && RoleInBounds(e, role, e.count)
    requires forall g | 0 <= g < e.count :: HasHolder(e, role, g)
    ensures CastFromEntityToRole(e, Raw(values), d, zero, role).Success?
    ensures FilterRole(e, Raw(CastFromEntityToRole(e, Raw(values), d, zero, role).value), d', zero, role)
         == Success(values)
  {
    var c := CastFromEntityToRole(e, Raw(values), d, zero, role).value;
    var r := FilterRole(e, Raw(c), d', zero, role).value;
    forall g | 0 <= g < e.count
      ensures r[g] == values[g]
    {
      assert HasHolder(e, role, g);
      var p :| 0 <= p < |e.members| && Points(e, p, role, e.count, g);
      assert LastHolder(e, role, e.count, g, |e.members|).Some?;
    }
    assert r == values;
  }

  /**
   * Filtering a persons array on `role` and casting the result back gives
   * each holder of the role its own value, when no group has two of them.
   */
  lemma CastAfterFilter<V>(e: Entity, values: seq<V>, d: Option<V>, d': Option<V>, zero: V, role: int)
    requires |values| == |e.members| && RoleInBounds(e, role, e.count) && AtMostOne(e, role)
    ensures FilterRole(e, Raw(values), d, zero, role).Success?
    ensures var f := FilterRole(e, Raw(values), d, zero, role).value;
      |f| == e.count && CastFromEntityToRole(e, Raw(f), d', zero, role).Success?
    ensures var c := CastFromEntityToRole(e, Raw(FilterRole(e, Raw(values), d, zero, role).value), d', zero, role).value;
      forall p | 0 <= p < |e.members| && e.members[p].role == role :: c[p] == values[p]
  {
    var f := FilterRole(e, Raw(values), d, zero, role).value;
    var c := CastFromEntityToRole(e, Raw(f), d', zero, role).value;
    forall p | 0 <= p < |e.members| && e.members[p].role == role
      ensures c[p] == values[p]
    {
      var g := Wrap(e.members[p].group, e.count);
      assert Points(e, p, role, e.count, g);
      var q := LastHolder(e, role, e.count, g, |e.members|).value;
      assert Points(e, q, role, e.count, g);
    }
  }

  /** The sum over the first `k` persons with a role in `rs` that belong to row `g`. */
  function PersonSum(e: Entity, values: seq<real>, rs: seq<int>, g: nat, k: nat): real
    requires |values| == |e.members| && k <= |e.members|
  {
    if k == 0 then 0.0
    else
      var x := e.members[k - 1];
      PersonSum(e, values, rs, g, k - 1)
      + if x.role in rs && InBounds(x.group, e.count) && Wrap(x.group, e.count) == g then values[k - 1] else 0.0
  }

  lemma {:induction false} PersonSumSplit(e: Entity, values: seq<real>, role: int, rest: seq<int>, g: nat, k: nat)
    requires |values| == |e.members| && k <= |e.members| && role !in rest
    ensures PersonSum(e, values, [role] + rest, g, k) == PersonSum(e, values, [role], g, k) + PersonSum(e, values, rest, g, k)
  {
    if k > 0 {
      PersonSumSplit(e, values, role, rest, g, k - 1);
    }
  }

  lemma {:induction false} PersonSumSingle(e: Entity, values: seq<real>, role: int, g: nat, k: nat)
    requires |values| == |e.members| && k <= |e.members| && AtMostOne(e, role)
    ensures PersonSum(e, values, [role], g, k)
         == match LastHolder(e, role, e.count, g, k) case Some(p) => values[p] case None => 0.0
  {
    if k > 0 {
      PersonSumSingle(e, values, role, g, k - 1);
    }
  }

  lemma {:induction false} PersonSumNoRoles(e: Entity, values: seq<real>, g: nat, k: nat)
    requires |values| == |e.members| && k <= |e.members|
    ensures PersonSum(e, values, [], g, k) == 0.0
  {
    if k > 0 {
      PersonSumNoRoles(e, values, g, k - 1);
    }
  }

  lemma {:induction false} RoleSumIsPersonSum(e: Entity, values: seq<real>, rs: seq<int>, g: nat)
    requires |values| == |e.members|
    requires forall a, b | 0 <= a < b < |rs| :: rs[a] != rs[b]
    requires forall k | 0 <= k < |rs| :: AtMostOne(e, rs[k])
    ensures RoleSum(e, values, rs, g) == PersonSum(e, values, rs, g, |e.members|)
  {
    if |rs| == 0 {
      PersonSumNoRoles(e, values, g, |e.members|);
    } else {
      var n := |e.members|;
      assert forall a, b | 0 <= a < b < |rs| - 1 :: rs[1..][a] == rs[a + 1] && rs[1..][b] == rs[b + 1];
      RoleSumIsPersonSum(e, values, rs[1..], g);
      PersonSumSingle(e, values, rs[0], g, n);
      assert rs[0] !in rs[1..];
      PersonSumSplit(e, values, rs[0], rs[1..], g, n);
      assert [rs[0]] + rs[1..] == rs;
      calc {
        RoleSum(e, values, rs, g);
        RoleValue(e, values, rs[0], g, 0.0) + RoleSum(e, values, rs[1..], g);
        PersonSum(e, values, [rs[0]], g, n) + PersonSum(e, values, rs[1..], g, n);
        PersonSum(e, values, [rs[0]] + rs[1..], g, n);
      }
    }
  }

  /**
   * With distinct roles, and at most one person per group and role,
   * `sum_by_entity` is the plain sum, per group, of the values of the
   * persons holding one of the roles.
   */
  lemma SumByEntityIsGroupSum(e: Entity, values: seq<real>, roles: Option<seq<int>>)
    requires |values| == |e.members|
    requires var rs := RoleList(roles, e.rolesCount);
      && (forall a, b | 0 <= a < b < |rs| :: rs[a] != rs[b])
      && (forall k | 0 <= k < |rs| :: AtMostOne(e, rs[k]) && RoleInBounds(e, rs[k], e.count))
    ensures SumByEntity(e, Raw(values), roles).Success?
    ensures forall g | 0 <= g < e.count ::
      SumByEntity(e, Raw(values), roles).value[g] == PersonSum(e, values, RoleList(roles, e.rolesCount), g, |e.members|)
  {
    forall g | 0 <= g < e.count
      ensures SumByEntity(e, Raw(values), roles).value[g] == PersonSum(e, values, RoleList(roles, e.rolesCount), g, |e.members|)
    {
      RoleSumIsPersonSum(e, values, RoleList(roles, e.rolesCount), g);
    }
  }

  /** Some person of row `g` holding one of the roles `rs` has a true value. */
  ghost predicate PersonAny(e: Entity, values: seq<bool>, rs: seq<int>, g: nat)
    requires |values| == |e.members|
  {
    exists p | 0 <= p < |e.members| :: e.members[p].role in rs && Points(e, p, e.members[p].role, e.count, g) && values[p]
  }

  lemma AnyAt(e: Entity, values: seq<bool>, rs: seq<int>, g: nat)
    requires |values| == |e.members|
    requires forall k | 0 <= k < |rs| :: AtMostOne(e, rs[k])
    ensures RoleAny(e, values, rs, g) <==> PersonAny(e, values, rs, g)
  {
    if RoleAny(e, values, rs, g) {
      RoleAnyHasPerson(e, values, rs, g);
    }
    if PersonAny(e, values, rs, g) {
      PersonAnyIsRoleAny(e, values, rs, g);
    }
  }

  lemma RoleAnyHasPerson(e: Entity, values: seq<bool>, rs: seq<int>, g: nat)
    requires |values| == |e.members| && RoleAny(e, values, rs, g)
    ensures PersonAny(e, values, rs, g)
  {
    var k :| 0 <= k < |rs| && RoleValue(e, values, rs[k], g, false);
    var p := LastHolder(e, rs[k], e.count, g, |e.members|).value;
    assert e.members[p].role == rs[k];
    assert e.members[p].role in rs && Points(e, p, e.members[p].role, e.count, g) && values[p];
  }

  lemma PersonAnyIsRoleAny(e: Entity, values: seq<bool>, rs: seq<int>, g: nat)
    requires |values| == |e.members| && PersonAny(e, values, rs, g)
    requires forall k | 0 <= k < |rs| :: AtMostOne(e, rs[k])
    ensures RoleAny(e, values, rs, g)
  {
    var p :| 0 <= p < |e.members| && e.members[p].role in rs && Points(e, p, e.members[p].role, e.count, g) && values[p];
    var k :| 0 <= k < |rs| && rs[k] == e.members[p].role;
    assert Points(e, p, rs[k], e.count, g);
    assert RoleValue(e, values, rs[k], g, false);
  }

  /**
   * With at most one person per group and role, `any_by_roles` tells
   * whether some person of the group holding one of the roles has a true
   * value.
   */
  lemma AnyByRolesIsGroupAny(e: Entity, values: seq<bool>, roles: Option<seq<int>>)
    requires |values| == |e.members|
    requires var rs := RoleList(roles, e.rolesCount);
      forall k | 0 <= k < |rs| :: AtMostOne(e, rs[k]) && RoleInBounds(e, rs[k], e.count)
    ensures AnyByRoles(e, Raw(values), roles).Success?
    ensures forall g | 0 <= g < e.count ::
      AnyByRoles(e, Raw(values), roles).value[g] == PersonAny(e, values, RoleList(roles, e.rolesCount), g)
  {
    forall g | 0 <= g < e.count
      ensures AnyByRoles(e, Raw(values), roles).value[g] == PersonAny(e, values, RoleList(roles, e.rolesCount), g)
    {
      AnyAt(e, values, RoleList(roles, e.rolesCount), g);
    }
  }

  /**
   * With no role to visit, the loops of `sum_by_entity` and `any_by_roles`
   * never mask a holder's array, so one of the wrong size gives the zero or
   * all-false group array rather than an error; a bare array of the wrong
   * size still fails its size assertion.
   */
  lemma NoRoleVisited(e: Entity, values: seq<real>, flags: seq<bool>)
    requires e.rolesCount == 0
    ensures SumByEntity(e, Held(values, 0.0), Some([])) == Success(Fill(e.count, 0.0))
    ensures SumByEntity(e, Held(values, 0.0), None) == Success(Fill(e.count, 0.0))
    ensures AnyByRoles(e, Held(flags, false), None) == Success(Fill(e.count, false))
    ensures |values| != |e.members| ==> SumByEntity(e, Raw(values), Some([])) == Failure(SizeMismatch)
  {
    assert |RoleList(None, e.rolesCount)| == 0;
  }

  /**
   * The buffered `+=` keeps only the last of two persons with the same role
   * in the same group: sum_by_entity gives 2, not 3, to the group.
   */
  lemma LastDuplicateWins()
    ensures SumByEntity(Entity([Person(0, 0), Person(0, 0)], 1, 1), Raw([1.0, 2.0]), None) == Success([2.0])
  {
    var e := Entity([Person(0, 0), Person(0, 0)], 1, 1);
    assert Points(e, 1, 0, 1, 0);
    assert LastHolder(e, 0, 1, 0, 2) == Some(1);
    assert RoleList(None, 1) == [0];
    assert RoleSum(e, [1.0, 2.0], [0], 0) == 2.0;
    var r := SumByEntity(e, Raw([1.0, 2.0]), None);
    assert r.Success? && |r.value| == 1 && r.value[0] == 2.0;
    assert r.value == [2.0];
  }
}
