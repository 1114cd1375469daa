# OpenFisca core: formulas and legislation reforms, in Dafny

A model of two parts of OpenFisca's core, with proofs about it.

The first part is the way formulas are computed, from `openfisca_core/formulas.py`:

- the four formula kinds: simple, alternative, dated and select;
- the cycle detection they share, through `requested_formulas_by_period`;
- the checks on a formula's output array;
- the normalisation of the dated functions of a dated column;
- the role helpers that move arrays between persons and groups.

The second part is how a reform rewrites the legislation, from `openfisca_core/reforms.py`:

- `find_item_at_date`;
- `updated_legislation_items`, which patches a timeline of dated values;
- `update_legislation`, which rebuilds the legislation JSON along a path.

Layout, one module per file:

| file | module | what it holds |
|---|---|---|
| `base.dfy` | `Base` | `Option`, `Result`, `Fill` |
| `periods.dfy` | `Periods` | periods as day intervals, `intersection` |
| `timeline.dfy` | `Timeline` | legislation items, value in force on a day, sorting by start |
| `patch_as_written.dfy` | `LegislationPatchAsWritten` | `updated_legislation_items` branch by branch, and what it gets wrong |
| `patch.dfy` | `LegislationPatch` | the patch its docstring describes, proved correct |
| `lookup.dfy` | `LegislationLookup` | `find_item_at_date` |
| `legislation_tree.dfy` | `LegislationTree` | `update_legislation` / `build_node`, with either patch |
| `roles.dfy` | `Roles` | `cast_from_entity_to_role(s)`, `filter_role`, `split_by_roles`, `sum_by_entity`, `any_by_roles` |
| `dated_slices.dfy` | `DatedSlices` | `dated_function` intervals and their normalisation |
| `outputs.dfy` | `Outputs` | arrays, engine errors, the size and NaN checks on a formula's result |
| `engine.dfy` | `Engine` | the compute methods, threading the simulation state as a value |
| `engine_laws.dfy` | `EngineLaws` | laws relating several computations |

Dates are ISO strings in the source. They are fixed-width, so comparing the strings orders them like the dates. The model uses integer day ordinals, and "offset by one day" becomes ±1.

Python exceptions and assertion failures become `Failure`/`Failed` values of an error datatype, so every error path of the source is an ordinary result. An exception raised by a formula's own function is one too: the function is a parameter that may raise.

## Model

| member | source | states |
|---|---|---|
| Periods.Intersect | openfisca_core/formulas.py:258 | the clipped period holds exactly the days of the period inside both optional bounds, and is None exactly when no such day exists; that it keeps the unit of the period is an assumption about `periods.intersection` |
| Timeline.FirstCovering | openfisca_core/reforms.py:97-99 | the first item in list order whose interval contains the date; None exactly when no item covers it |
| Timeline.ItemAt | openfisca_core/reforms.py:97-99 | the item found is in the list and covers the date; None exactly when no item covers it |
| Timeline.SortByStart | openfisca_core/reforms.py:310 | the result is sorted by start and is a permutation of the input |
| Timeline.SortSortedIsIdentity | openfisca_core/reforms.py:310 | sorting a list already sorted by start returns it unchanged |
| Timeline.ValueAtSameItems | openfisca_core/reforms.py:310 | reordering a non-overlapping timeline does not change the value in force on any day |
| LegislationPatchAsWritten.StepIsLoopBody | openfisca_core/reforms.py:217-308 | the loop body's four independent `if` tests behave as one if-chain: at most one of the edge, containment and right-edge branches appends |
| LegislationPatchAsWritten.UpdatedItems | openfisca_core/reforms.py:198-310 | the result of the patch as written is sorted by start |
| LegislationPatchAsWritten.UpdatedItemsMultiset | openfisca_core/reforms.py:217-310 | the result holds the pieces kept from each existing item, plus the new item once if and only if some existing item triggers its insertion |
| LegislationPatchAsWritten.KeepsApartItems | openfisca_core/reforms.py:220-228 | an existing item that does not overlap the new period is kept unchanged |
| LegislationPatchAsWritten.NewItemCount | openfisca_core/reforms.py:216-297 | the new item appears at most once, and exactly once when some item triggers it, thanks to the `inserted` flag |
| LegislationPatchAsWritten.ExactMatchReplaced | openfisca_core/reforms.py:230-240 | an item with exactly the new period is replaced by the new item |
| LegislationPatchAsWritten.LeftRemainderKept | openfisca_core/reforms.py:242-286 | an item starting before the new period keeps its part before it, and also its part after it when it ends later |
| LegislationPatchAsWritten.ThreePieces | openfisca_core/reforms.py:261-286 | for any single existing item and any period strictly inside it, the result is the item's left part, the new item and its right part, in that order |
| LegislationPatchAsWritten.ThreePiecesExample | openfisca_core/reforms.py:261-286 | the years 2010 to 2012 patched with 2011 give three items: 2010, 2011 with the new value, 2012 |
| LegislationPatchAsWritten.ReapplyIsIdentity | openfisca_core/reforms.py:217-310 | patching a sorted timeline that already holds the new item, with nothing else overlapping it, gives the timeline back |
| LegislationPatchAsWritten.UnmatchedPeriodDropped | openfisca_core/reforms.py:217-310 | when no existing item triggers an insertion, the new item is missing from the result |
| LegislationPatchAsWritten.EmptyTimelineStaysEmpty | openfisca_core/reforms.py:216-310 | patching an empty timeline gives an empty timeline: the new value is lost |
| LegislationPatchAsWritten.InvertedRightRemainder | openfisca_core/reforms.py:287-305 | an item inside the new period yields a "right remainder" whose stop precedes its start |
| LegislationPatchAsWritten.TailLost | openfisca_core/reforms.py:287-308 | an item starting inside the new period and ending after it is dropped, with the new item |
| LegislationPatch.UpdatedItems | openfisca_core/reforms.py:198-310 | the corrected patch's result is sorted by start and always holds the new item |
| LegislationPatch.PatchItems | openfisca_core/reforms.py:198-206 | the result is the new item plus the parts of the existing items outside the new period, well formed and non-overlapping when the input is |
| LegislationPatch.PatchCorrect | openfisca_core/reforms.py:198-206 | on a non-overlapping timeline the result is non-overlapping, holds the new item once, and on every day gives the new value inside the period and the old value outside it |
| LegislationPatch.PatchedAroundNew | openfisca_core/reforms.py:198-206 | every other item of the result is apart from the new one, which appears once |
| LegislationPatch.PatchIdempotent | openfisca_core/reforms.py:198-310 | applying the same patch twice gives the same timeline as applying it once |
| LegislationLookup.Earliest | openfisca_core/reforms.py:101 | the position of the smallest start, the first one on a tie, as Python's `min` |
| LegislationLookup.Latest | openfisca_core/reforms.py:104 | the position of the largest stop, the first one on a tie, as Python's `max` |
| LegislationLookup.FindItemAtDate | openfisca_core/reforms.py:90-107 | an item in force wins (the first one); otherwise, only inside the nearest period, a date before every item gets the earliest item and a date after every item gets the latest; an empty list there raises; in every other case None |
| LegislationLookup.FindAgreesWithValueAt | openfisca_core/reforms.py:97-99 | on a non-overlapping timeline the item found carries the value in force on that day |
| LegislationTree.Patched | openfisca_core/reforms.py:182-183 | the node at the end of the path is patched when it is a timeline, with `updated_legislation_items` as written (`AsWritten`) or with the corrected patch (`Intended`); an empty sequence other than a mapping is patched as an empty timeline, which as written stays empty; anything else fails |
| LegislationTree.BuildNode | openfisca_core/reforms.py:171-192 | a rebuilt node keeps its shape: a mapping its keys in order, a sequence its length; a scalar on the path fails |
| LegislationTree.BuildList | openfisca_core/reforms.py:172-176 | a rebuilt sequence keeps its length, and every element off the path is shared unchanged |
| LegislationTree.BuildEntries | openfisca_core/reforms.py:177-190 | a rebuilt mapping keeps its keys in order, and every entry off the path is shared unchanged |
| LegislationTree.Descend | openfisca_core/reforms.py:180-188 | at the last key the child must be a timeline or an empty sequence; before it the rebuilt child keeps its shape |
| LegislationTree.UpdateLegislation | openfisca_core/reforms.py:159-195 | a missing value fails; a missing period needs both bounds; a successful update keeps the tree's shape, whichever patch it applies |
| LegislationTree.KeyIndex | openfisca_core/reforms.py:186-189 | the first entry with the key, None exactly when no entry has it |
| LegislationTree.UpdateReaches | openfisca_core/reforms.py:171-195 | the node at the path becomes what the chosen patch makes of its timeline: with `AsWritten`, the result of `updated_legislation_items` as written, the function line 182 calls |
| LegislationTree.UpdateFrame | openfisca_core/reforms.py:171-195 | any node reached by a path that leaves the updated path is unchanged |
| LegislationTree.UpdateLegislationAsWritten | openfisca_core/reforms.py:159-195 | the update as the repository runs it: with a value and bounds it succeeds; the timeline at the path becomes the as-written patch of the old one, which lacks the new value when no existing item triggers its insertion; every node off the path is unchanged |
| LegislationTree.UpdateLegislationCorrect | openfisca_core/reforms.py:159-195 | the update with the corrected patch (`Intended`), not what the repository runs: with a value and bounds it succeeds; the timeline at the path then gives the new value inside the bounds and the old value elsewhere; every node off the path is unchanged |
| Roles.Wrap | openfisca_core/formulas.py:469-476 | numpy's reading of an index in bounds: itself, or counted from the end when negative |
| Roles.LastHolder | openfisca_core/formulas.py:678-680 | the last person with the role writing to a given group row, None exactly when there is none |
| Roles.ScatterRole | openfisca_core/formulas.py:678-680 | a fancy-index assignment: each row gets the value of its last writer, or keeps its old value |
| Roles.CastRoles | openfisca_core/formulas.py:468-476 | the cast succeeds exactly when every role's group indices are in bounds; each person with a listed role gets its group's value, the others keep the target |
| Roles.CastFromEntityToRoles | openfisca_core/formulas.py:434-478 | a bare array of the wrong size fails; otherwise the cast succeeds exactly when indices are in bounds, and each person gets its group's value if its role is listed (all roles when none are given), else the default |
| Roles.CastFromEntityToRole | openfisca_core/formulas.py:429-432 | the same cast for one role |
| Roles.FilterRole | openfisca_core/formulas.py:650-685 | a wrong-size persons array fails; otherwise each group gets the value of its last person holding the role, else the default |
| Roles.SplitRoles | openfisca_core/formulas.py:781-791 | the map has one entry per listed role, each equal to filtering by that role, and fails exactly when one filter fails |
| Roles.SplitByRoles | openfisca_core/formulas.py:752-792 | a bare array of the wrong size fails before any role is visited; otherwise one group array per role (at least 11 roles when none are given), each equal to `filter_role` for that role, failing exactly when one of those filters fails |
| Roles.SumRoles | openfisca_core/formulas.py:817-821 | each group's total adds, role by role, the value of the group's last holder of that role |
| Roles.SumByEntity | openfisca_core/formulas.py:794-822 | a wrong-size bare array fails its size assertion, and a wrong-size holder array fails as soon as a role is visited; with no role to visit the result is all zeros; otherwise each group gets the per-role sum over the listed roles (all roles when none are given) |
| Roles.AnyRoles | openfisca_core/formulas.py:422-426 | each group's flag is its old flag or, for some role, the flag of the group's last holder of that role |
| Roles.AnyByRoles | openfisca_core/formulas.py:399-427 | a wrong-size bare array fails its size assertion, and a wrong-size holder array fails as soon as a role is visited; with no role to visit the result is all false; otherwise each group is true exactly when, for some listed role, its last holder's flag is true |
| Roles.FilterAfterCast | openfisca_core/formulas.py:429-432 | casting a group array to the holders of a role and filtering it back gives the array again when every group has a holder |
| Roles.CastAfterFilter | openfisca_core/formulas.py:650-685 | filtering persons by a role and casting back restores every holder's value when no group has two holders |
| Roles.SumByEntityIsGroupSum | openfisca_core/formulas.py:794-822 | with distinct roles and at most one holder per role and group, each group's result is the sum over its persons with a listed role |
| Roles.AnyByRolesIsGroupAny | openfisca_core/formulas.py:399-427 | with at most one holder per role and group, a group is true exactly when one of its persons with a listed role is true |
| Roles.NoRoleVisited | openfisca_core/formulas.py:815-822 | with an empty role list, or no roles, a holder's array of any size gives the zero (or all-false) group array, while a wrong-size bare array still fails |
| Roles.LastDuplicateWins | openfisca_core/formulas.py:817-821 | two persons with the same role in one group: only the last one's value reaches the group total |
| DatedSlices.Sort | openfisca_core/formulas.py:940 | a stable sort by start, with a missing start first; a permutation of the input |
| DatedSlices.FirstInvalid | openfisca_core/formulas.py:918-920 | the first function whose stop precedes its start, None exactly when every interval is valid |
| DatedSlices.Link | openfisca_core/formulas.py:943-948 | a slice followed by the next one gets a stop strictly before the next start: its own when given, else the day before; fails exactly when they overlap, the next one has no start, or the filled slice would be empty |
| DatedSlices.FirstBroken | openfisca_core/formulas.py:941-948 | the first neighbouring pair that does not link, None exactly when all link |
| DatedSlices.FillStops | openfisca_core/formulas.py:941-948 | succeeds exactly when every pair links; keeps each start and function, gives every slice but the last a stop before its successor's start |
| DatedSlices.Normalise | openfisca_core/formulas.py:910-950 | an invalid interval fails first; success exactly when all intervals are valid and the sorted slices chain |
| DatedSlices.NormalisedSlices | openfisca_core/formulas.py:910-950 | normalised slices are the sorted slices, in order, each a valid interval, pairwise disjoint, with filled stops ending the day before the next start |
| DatedSlices.FilledApart | openfisca_core/formulas.py:941-948 | any two filled slices are disjoint and stay sorted |
| DatedSlices.LinkAsWritten | openfisca_core/formulas.py:943-948 | the loop body as written: fails exactly when the next function has no start or an explicit stop reaches it |
| DatedSlices.FillStopsAsWritten | openfisca_core/formulas.py:941-948 | the loop as written: succeeds exactly when every neighbouring pair passes `LinkAsWritten`, each slice but the last becoming what that rule makes of it and the last kept |
| DatedSlices.NormaliseAsWritten | openfisca_core/formulas.py:910-950 | the normalisation as written: an invalid interval fails first; success exactly when all intervals are valid and the sorted neighbours pass the source's rule; the starts and functions of the sorted slices are kept |
| DatedSlices.FillStopsAgree | openfisca_core/formulas.py:941-948 | on slices that chain, the loop as written gives exactly the corrected result |
| DatedSlices.NormaliseAgrees | openfisca_core/formulas.py:910-950 | whenever the corrected normalisation succeeds, the one as written gives the same slices |
| DatedSlices.NormaliseAgreesBack | openfisca_core/formulas.py:910-950 | when no two functions start on the same day, whenever the normalisation as written succeeds the corrected one gives the same slices |
| DatedSlices.SameStartSorted | openfisca_core/formulas.py:940 | the counterexample's functions are valid and already sorted |
| DatedSlices.SameStartGivesEmptySlice | openfisca_core/formulas.py:943-945 | two functions with the same start, the first without a stop: the first gets a stop before its start and can never apply |
| DatedSlices.SameStartRejected | openfisca_core/formulas.py:943-945 | the corrected normalisation rejects the same input |
| Outputs.NaNPositions | openfisca_core/formulas.py:600 | the ascending positions of exactly the NaNs of the array |
| Outputs.Validate | openfisca_core/formulas.py:591-602 | the intended checks, partner of the `ValidateAsWritten` the engine applies: the array passes exactly when its size is the entity count and, outside debug mode, it holds no NaN; a wrong size reports both sizes; a NaN error lists exactly the NaN positions |
| Outputs.ValidateAsWritten | openfisca_core/formulas.py:596-602 | agrees with the intended checks except on an empty array outside debug mode, where numpy's minimum raises |
| Outputs.EmptyArrayRejected | openfisca_core/formulas.py:596-602 | for an entity with no member the source raises where the intended checks accept |
| Base.Fill | openfisca_core/formulas.py:269-270 | an array of the entity's size holding the given value everywhere, as the column default fills a dated formula's array |
| Engine.Mark | openfisca_core/formulas.py:526 | the formula joins the set of its tracking key; no other key changes |
| Engine.Unmark | openfisca_core/formulas.py:616 | the formula leaves the set of its tracking key; no other key changes |
| Engine.Lookup | openfisca_core/formulas.py:522 | present exactly when the cache holds an array for the variable at that period, which is then the answer |
| Engine.SimCompute | openfisca_core/formulas.py:534-537 | an unknown variable fails; the cache only grows and keeps sizes; a present answer is what the cache holds; marks are undone unless an error is raised; lazy mode raises neither cycles nor missing inputs |
| Engine.Compute | openfisca_core/formulas.py:494-512 | a formula met again under the same key answers lazily from the cache, and fails with an infinite loop otherwise, changing nothing; a present answer has the entity's size; the invariants of SimCompute |
| Engine.Gather | openfisca_core/formulas.py:534-548 | when every input has a value, the `k`-th array is the present answer for the `k`-th input, each input computed in the state the previous ones left; where the gathering stops at a missing input is stated by EngineLaws.GatherStopsAt |
| Engine.ComputeSimple | openfisca_core/formulas.py:514-524 | an output period of the wrong unit fails; an answer is for the output period clipped to the column's validity, which contains the requested start; a cached array there is returned with nothing computed |
| Engine.RunSimple | openfisca_core/formulas.py:526-543 | an answer is for the output period and leaves no formula marked; lazy mode raises neither a cycle nor a missing input; the missing-input answer is stated by EngineLaws.MissingInputStops, and that the formula stays marked while its inputs are computed by EngineLaws.SelfReferenceCycle |
| Engine.Finish | openfisca_core/formulas.py:579-618 | a returned array is stored and returned exactly when it passes the size and NaN checks as the source writes them (`Outputs.ValidateAsWritten`, so an empty array outside debug mode raises), and otherwise its check error is raised with nothing stored; no array returned answers with what the cache holds; a function that raises fails with `FunctionRaised`, the formula still marked and nothing stored |
| Engine.Probe | openfisca_core/formulas.py:148-160 | the alternatives are probed lazily one after the other, each on a copy of the tracking; every one before the last probed had no array, and the answer and cache are those of the last probed, which is the first with an array or an exception, or the last alternative; the tracking comes back unchanged |
| Engine.ComputeAlternative | openfisca_core/formulas.py:124-171 | an empty group fails; the compute invariants hold; which alternative answers is stated by EngineLaws.KthAlternativeWins and EngineLaws.NoAlternativeComputesFirst |
| Engine.Adopt | openfisca_core/formulas.py:158-159 | the formula is unmarked and records the chosen formula as used; the cache is unchanged |
| Engine.ComputeFirst | openfisca_core/formulas.py:163-171 | the compute invariants, and no formula left marked unless it raised; that it computes the first alternative in non-lazy mode and records it as used is stated by EngineLaws.NoAlternativeComputesFirst |
| Engine.Walk | openfisca_core/formulas.py:254-267 | the chosen slice is the first one meeting the period, its array cached at the period it answers for; a walk that computes nothing leaves the state unchanged; what the computed slice answers is stated by EngineLaws.WalkComputesFirstMeeting |
| Engine.ComputeDated | openfisca_core/formulas.py:227-275 | a dated formula never answers without an array; the compute invariants hold; its answer is stated by EngineLaws.DatedFirstMeetingSlice and EngineLaws.DatedDefault |
| Engine.StoreDefault | openfisca_core/formulas.py:269-274 | the column default, over the entity, is stored at the given period and returned; every other cached array is kept |
| Engine.Choose | openfisca_core/formulas.py:355-362 | the main variables are asked for lazily one after the other on the shared tracking; the result is the first choice whose main variable has an array, every earlier one having none, or the number of choices when none has one; the state is the one the last asked left; the tracking is restored |
| Engine.ComputeSelect | openfisca_core/formulas.py:328-367 | an empty group fails; the compute invariants hold; which formula it computes is stated by EngineLaws.FirstMainVariableWins and EngineLaws.NoMainVariableUsesFirst |
| EngineLaws.WalkMeetsNothing | openfisca_core/formulas.py:254-260 | when no remaining slice meets the period, the walk computes nothing and changes nothing |
| EngineLaws.DatedDefault | openfisca_core/formulas.py:268-275 | a dated formula with no slice meeting the period stores the column default at that period and returns it, with no formula left marked |
| EngineLaws.WalkComputesFirstMeeting | openfisca_core/formulas.py:254-264 | when every earlier slice neither meets the period nor starts after it, the walk ends with the answer of the first meeting slice's formula on the common part: its array, the period it had none for, or its exception |
| EngineLaws.DatedFirstMeetingSlice | openfisca_core/formulas.py:254-275 | the first meeting slice's formula, computed on the common part with the dated formula marked, decides it: an array is the answer, with the slice's formula recorded as used and the dated formula unmarked; no array stores the column default at the period that answer names, not the requested one; an exception is raised as it is |
| EngineLaws.EmptyEntityRaises | openfisca_core/formulas.py:596-602 | for an entity with no member outside debug mode, a function returning the empty array makes the compute raise numpy's error, with nothing stored |
| EngineLaws.SimpleComputedOnce | openfisca_core/formulas.py:521-524 | once a simple formula has answered with an array, asking again in either mode returns the same answer and state |
| EngineLaws.FirstAlternativeWins | openfisca_core/formulas.py:148-160 | when the first alternative has an array, the alternative formula returns it, records it as used and keeps what it cached |
| EngineLaws.GatherStopsAt | openfisca_core/formulas.py:534-543 | when the inputs before the `k`-th have arrays and the `k`-th has none, each computed in the state the ones before it left, the gathering ends there with that input's state: its exception, or a lazy give-up, or the missing-input assertion outside lazy mode |
| EngineLaws.MissingInputStops | openfisca_core/formulas.py:526-543 | at the first input with no array, lazy mode unmarks the formula and answers with what the cache holds for the output period; otherwise the missing-input assertion fails with the formula still marked |
| EngineLaws.SelfReferenceCycle | openfisca_core/formulas.py:526-541 | a simple formula whose first input is its own variable, under the same tracking key, meets itself while marked: outside lazy mode it raises an infinite loop with the formula still marked; in lazy mode, with nothing cached, it answers without an array and leaves nothing marked |
| EngineLaws.KthAlternativeWins | openfisca_core/formulas.py:148-160 | when the alternatives before the `k`-th, probed lazily in turn, have no array and the `k`-th has one, the alternative formula returns that answer, keeps the cache of that probe, records the `k`-th as used and leaves nothing marked |
| EngineLaws.NoAlternativeComputesFirst | openfisca_core/formulas.py:161-171 | when no alternative has an array: lazy mode returns the last empty answer; otherwise the first alternative is recorded as used and computed in non-lazy mode on the cache the probes left, and the formula unmarked after unless it raised |
| EngineLaws.FirstMainVariableWins | openfisca_core/formulas.py:355-366 | when the main variables before the `k`-th, asked for lazily in turn, have no array and the `k`-th has one, the `k`-th formula is recorded as used and computed in the caller's mode |
| EngineLaws.NoMainVariableUsesFirst | openfisca_core/formulas.py:355-366 | when no main variable has an array, the first formula is recorded as used and computed in the caller's mode |

## Left out

- `holders.py` is not part of this model. `holder.compute` is `Engine.SimCompute`, `holder.at_period` is `Engine.Lookup`, and setting a dated holder's array is a store into the cache.
- What a formula function computes, `get_output_period`, `get_variable_period` and the legislation arguments (`_P`, `_defaultP`, accessors, `get_law_instant`) are parameters of `Engine.Env`. The legislation a function reads is part of that function.
- Variables ending in `_holder`, `requires_self` and `requires_period` change only the arguments the function is given, and are left out. So is the assertion that provided and required parameters match, which holds by construction.
- Debug logging, tracing and `has_only_default_arguments` do not affect the result, and are left out.
- Engine.Finish: the final `astype` cast to the column's dtype is left out. It changes the stored array when the dtypes differ, for instance truncating floats stored in an integer column; the model stores the array as the function returns it. The `ndarray` type check on a returned array is left out too: the model's function returns an array, returns nothing or raises.
- Engine.Compute: nested formula computations are bounded by a fuel parameter. A computation deeper than the bound ends in `OutOfFuel`, which the source has no counterpart for.
- Engine.ComputeSimple: when the output period misses the column's validity, `intersection` gives None. `holder.at_period(None)` lives in `holders.py`, so the model ends in `NoValidityOverlap` there.
- Engine.ComputeAlternative: the constructors of alternative, dated and select formulas assert that the group is not empty, so the source never computes an empty group. The model's `Formula` allows one, and computing it fails with `EmptyGroup`, standing for that assertion.
- Engine.ComputeAlternative, Engine.ComputeDated, Engine.ComputeSelect: their contracts state the shared invariants and the empty-group error. The choice of alternative is stated by EngineLaws.KthAlternativeWins and EngineLaws.NoAlternativeComputesFirst, the choice of a select formula by EngineLaws.FirstMainVariableWins and EngineLaws.NoMainVariableUsesFirst, and the answer of a dated formula by EngineLaws.DatedFirstMeetingSlice, when some slice meets the period, and EngineLaws.DatedDefault, when none does.
- Engine.ComputeFirst: the contract does not restrict its errors to lazy ones, because it runs in non-lazy mode. It does not say which alternative is computed; EngineLaws.NoAlternativeComputesFirst does.
- Engine: formulas are told apart by id, where the source uses object identity. `Engine.DistinctIds` states that no id is used twice; the contracts do not need it, and that a formula records its `used_formula` in the final state is stated only where nothing computed afterwards can overwrite it.
- Engine.Choose: `formula_by_main_variable` is an ordered dict built in the order the main variables are declared, so both the iteration and the fallback `values()[0]` follow that order, as the model does. `Choose` gives the number of choices when no main variable has an array, and `ComputeSelect` then takes the first choice.
- Roles: the role helpers assert that the entity exists, that it is not the persons entity and that a holder belongs to the persons entity. They also check the type of the array. These checks are left out: the entity is passed in directly. `sum_by_entity` widens a boolean array to int16; the model sums reals and has no booleans there.
- LegislationTree.UpdateLegislation: a call without a period and without both bounds fails with `MissingBound`. In the source it would go on to compare dates with None.
- LegislationTree.BuildNode: a path step into one item of a values array fails with `IntoItem`. That item is a mapping in the JSON, not a timeline.
- LegislationTree: a string is rebuilt as a sequence of one-character strings, which is what iterating it in Python gives.
- DatedSlices.Link: `offset_instant` (periods.py, not part of this model) is assumed to fail on a missing instant, giving `UndatedNext`.
- DatedSlices.FirstInvalid: the source checks the dated functions in the iteration order of the class attribute dict. The model takes the declared order.
- `dated_function` parses its arguments with `periods.instant`. Parsing is left out: a slice is given its optional start and stop days.
- Periods: only day offsets are modelled. A period is its unit plus its first and last day.
- The source sets `used_formula` before computing the chosen alternative or selection. An exception there would leave it set; the model does the same.
- LegislationPatch.UpdatedItems: the docstring of `updated_legislation_items` says an unmatched period is yielded as-is. The code does not do this, and `LegislationPatchAsWritten` follows the code. `LegislationPatch` is the corrected version.
- LegislationTree.UpdateLegislationCorrect: it is about the update with the corrected patch (`Intended`). The update the repository runs (`AsWritten`) keeps the findings of `updated_legislation_items`, and LegislationTree.UpdateLegislationAsWritten states what it gives.

## Findings

| source | as written | input that shows it | evidently intended | confidence | as-written member | corrected member |
|---|---|---|---|---|---|---|
| openfisca_core/reforms.py:217-310 | the new item is appended only from the branches for items that overlap it | an empty timeline, or items all apart from the new period: the new value is dropped | the docstring: a period matching no item is yielded as-is | high, not executed | LegislationPatchAsWritten.UnmatchedPeriodDropped | LegislationPatch.PatchCorrect |
| openfisca_core/reforms.py:287-305 | an item inside the new period takes the "right edge" branch, which appends a right remainder | items [5..6]=1, patch [3..10]=2 gives [3..10]=2 and [11..6]=1 | an item covered by the new period is dropped | high, not executed | LegislationPatchAsWritten.InvertedRightRemainder | LegislationPatch.PatchCorrect |
| openfisca_core/reforms.py:287-308 | an item starting inside the new period and ending after it matches no branch | items [5..15]=1, patch [3..10]=2 gives an empty timeline | the new item, then the item's part after the period | high, not executed | LegislationPatchAsWritten.TailLost | LegislationPatch.PatchCorrect |
| openfisca_core/formulas.py:941-948 | a function without a stop gets the day before the next start, even when both starts are equal | functions [5..] and [5..9]: the first gets [5..4], an interval with no day | an error, like the "Dated formulas overlap" assertion | medium, not executed | DatedSlices.SameStartGivesEmptySlice | DatedSlices.SameStartRejected |
| openfisca_core/formulas.py:596-602 | the NaN test is `np.isnan(np.min(array))` under `except TypeError` | an entity with no member outside debug mode: `np.min` of an empty array raises ValueError | an empty array holds no NaN and passes | medium, not executed | Outputs.EmptyArrayRejected | Outputs.Validate |
