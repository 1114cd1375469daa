/**
 * Rewriting one parameter of the legislation tree (`update_legislation` and
 * its inner `build_node` in openfisca_core/reforms.py). The tree is JSON:
 * sequences, mappings, strings and scalars. The array of dated values at the
 * end of a parameter's path is kept abstract as a timeline of items. The
 * input tree is never modified: the nodes on the path are rebuilt and every
 * other node is shared.
 */
module LegislationTree {
  import opened Base
  import opened Periods
  import opened Timeline
  import LegislationPatchAsWritten
  import LegislationPatch

  datatype Node<V> =
    | List(elements: seq<Node<V>>)
    | Dict(entries: seq<(string, Node<V>)>)
    | Text(chars: string)
    | Leaf(scalar: V)
    | Items(timeline: seq<Item<V>>)

  /** A step of a path: a mapping key or a sequence position. */
  datatype PathKey = Key(key: string) | Index(index: int)

  datatype TreeError =
    | MissingValue     // the assertion that a value is given
    | MissingBound     // neither a period nor both bounds are given
    | UnexpectedNode   // a scalar on the path (ValueError)
    | PathTooShort     // a non-empty collection reached after the last step (IndexError)
    | IntoItem         // a step into one item of a dated-value array
    | NotATimeline     // the node at the last key is not an array of dated values

  /** Python sees a string as a sequence of one-character strings. */
  function Chars(s: string): (r: seq<Node>)
    ensures |r| == |s|
    ensures forall j | 0 <= j < |s| :: r[j] == Text([s[j]])
  {
    seq(|s|, j requires 0 <= j < |s| => Text([s[j]]))
  }

  /** A collection with nothing to iterate over. */
  predicate EmptyCollection<V>(node: Node<V>) {
    match node
    case List(e) => |e| == 0
    case Dict(e) => |e| == 0
    case Text(s) => |s| == 0
    case Items(t) => |t| == 0
    case Leaf(_) => false
  }

  /** A sequence with nothing in it: the only nodes besides timelines that pass the patch's `Sequence` assertion and loop. */
  predicate EmptySequence<V>(node: Node<V>) {
    EmptyCollection(node) && !node.Dict?
  }

  /** A rebuilt node keeps the shape of the original: a mapping keeps its keys in order, a sequence its length. */
  ghost predicate SameShape<V>(a: Node<V>, b: Node<V>) {
    match a
    case List(e) => b.List? && |b.elements| == |e|
    case Text(s) => b.List? && |b.elements| == |s|
    case Dict(e) => b.Dict? && |b.entries| == |e| && forall j | 0 <= j < |e| :: b.entries[j].0 == e[j].0
    case Items(_) => b == a
    case Leaf(_) => false
  }

  /**
   * Which timeline patch the update applies: `updated_legislation_items` as
   * the repository writes it, which is what `update_legislation` calls, or
   * the patch its documentation describes.
   */
  datatype Patch = AsWritten | Intended

  /** The timeline `how` makes of `items` once `[start, stop] = value` is laid over it. */
  function Overlay<V>(how: Patch, items: seq<Item<V>>, start: Instant, stop: Instant, value: V): (r: seq<Item<V>>)
    ensures SortedByStart(r)
  {
    match how
    case AsWritten => LegislationPatchAsWritten.UpdatedItems(items, start, stop, value)
    case Intended => LegislationPatch.UpdatedItems(items, start, stop, value)
  }

  /** `updated_legislation_items` applied to the node found at the last key of the path. */
  function Patched<V>(node: Node<V>, start: Instant, stop: Instant, value: V, how: Patch): (r: Result<Node<V>, TreeError>)
    ensures r.Success? <==> node.Items? || EmptySequence(node)
    ensures r.Success? ==> r.value.Items? && SortedByStart(r.value.timeline)
    ensures node.Items? ==> r == Success(Items(Overlay(how, node.timeline, start, stop, value)))
    ensures EmptySequence(node) ==> r == Success(Items(Overlay(how, [], start, stop, value)))
    // as written, an empty sequence stays empty: the new value is lost
    ensures EmptySequence(node) && how.AsWritten? ==> r == Success(Items([]))
  {
    if node.Items? then Success(Items(Overlay(how, node.timeline, start, stop, value)))
    else if EmptySequence(node) then Success(Items(Overlay(how, [], start, stop, value)))
    else Failure(NotATimeline)
  }

  /** `build_node` on a node at depth `i` of the path. */
  function BuildNode<V>(node: Node<V>, path: seq<PathKey>, i: nat, start: Instant, stop: Instant, value: V, how: Patch)
    : (r: Result<Node<V>, TreeError>)
    requires i <= |path|
    ensures r.Success? ==> SameShape(node, r.value)
    ensures node.Leaf? ==> r == Failure(UnexpectedNode)
    // past the end of the path only an empty collection goes through
    ensures i == |path| ==> (r.Success? <==> EmptyCollection(node))
    decreases |path| - i, 1
  {
    match node
    case Leaf(_) => Failure(UnexpectedNode)
    case List(e) =>
      (match BuildList(e, path, i, start, stop, value, how)
       case Failure(err) => Failure(err)
       case Success(e') => Success(List(e')))
    case Text(s) =>
      (match BuildList(Chars(s), path, i, start, stop, value, how)
       case Failure(err) => Failure(err)
       case Success(e') => Success(List(e')))
    case Dict(e) =>
      (match BuildEntries(e, path, i, start, stop, value, how)
       case Failure(err) => Failure(err)
       case Success(e') => Success(Dict(e')))
    case Items(t) =>
      if i == |path| then (if |t| == 0 then Success(node) else Failure(PathTooShort))
      else if path[i].Index? && 0 <= path[i].index < |t| then Failure(IntoItem)
      else Success(node)
  }

  /** The sequence branch: only the element whose position equals the step is rebuilt. */
  function BuildList<V>(e: seq<Node<V>>, path: seq<PathKey>, i: nat, start: Instant, stop: Instant, value: V, how: Patch)
    : (r: Result<seq<Node<V>>, TreeError>)
    requires i <= |path|
    ensures r.Success? ==> |r.value| == |e|
    ensures r.Success? && i < |path| ==> forall j | 0 <= j < |e| && path[i] != Index(j) :: r.value[j] == e[j]
    ensures i == |path| ==> (r.Success? <==> |e| == 0)
    decreases |path| - i, 0
  {
    if i == |path| then (if |e| == 0 then Success(e) else Failure(PathTooShort))
    else if path[i].Index? && 0 <= path[i].index < |e| then
      var k := path[i].index;
      match BuildNode(e[k], path, i + 1, start, stop, value, how)
      case Failure(err) => Failure(err)
      case Success(n) => Success(e[k := n])
    else Success(e)
  }

  /**
   * The mapping branch: an entry whose key equals the step is patched at the
   * last step and rebuilt before it; the others are kept.
   */
  function BuildEntries<V>(e: seq<(string, Node<V>)>, path: seq<PathKey>, i: nat, start: Instant, stop: Instant, value: V, how: Patch)
    : (r: Result<seq<(string, Node<V>)>, TreeError>)
    requires i <= |path|
    ensures r.Success? ==> |r.value| == |e| && forall j | 0 <= j < |e| :: r.value[j].0 == e[j].0
    ensures r.Success? && i < |path| ==> forall j | 0 <= j < |e| && path[i] != Key(e[j].0) :: r.value[j] == e[j]
    ensures i == |path| ==> (r.Success? <==> |e| == 0)
    decreases |path| - i, 0, |e|
  {
    if |e| == 0 then Success(e)
    else if i == |path| then Failure(PathTooShort)
    else
      var (key, child) := e[0];
      var head := if path[i] != Key(key) then Success(child) else Descend(child, path, i, start, stop, value, how);
      match head
      case Failure(err) => Failure(err)
      case Success(n) =>
        (match BuildEntries(e[1..], path, i, start, stop, value, how)
         case Failure(err) => Failure(err)
         case Success(rest) => Success([(key, n)] + rest))
  }

  /** What becomes of the child whose key equals step `i`: patched at the last step, rebuilt before it. */
  function Descend<V>(child: Node<V>, path: seq<PathKey>, i: nat, start: Instant, stop: Instant, value: V, how: Patch)
    : (r: Result<Node<V>, TreeError>)
    requires i < |path|
    ensures i == |path| - 1 ==> (r.Success? <==> child.Items? || EmptySequence(child))
    ensures i < |path| - 1 && r.Success? ==> SameShape(child, r.value)
    decreases |path| - i, 0, 0
  {
    if i == |path| - 1 then Patched(child, start, stop, value, how)
    else BuildNode(child, path, i + 1, start, stop, value, how)
  }

  /** The bounds of the new value: those of the period when one is given. */
  function Bounds(period: Option<Period>, start: Option<Instant>, stop: Option<Instant>): Option<(Instant, Instant)> {
    if period.Some? then Some((period.value.start, period.value.stop))
    else if start.Some? && stop.Some? then Some((start.value, stop.value))
    else None
  }

  /**
   * `update_legislation`: a value is required; a period, when given, supplies
   * both bounds. With `AsWritten` the timeline at the end of the path is
   * patched as the repository does it; with `Intended`, as its documentation
   * says.
   */
  function UpdateLegislation<V>(json: Node<V>, path: seq<PathKey>, period: Option<Period>,
                                value: Option<V>, start: Option<Instant>, stop: Option<Instant>, how: Patch)
    : (r: Result<Node<V>, TreeError>)
    ensures value.None? ==> r == Failure(MissingValue)
    ensures value.Some? && period.None? && (start.None? || stop.None?) ==> r == Failure(MissingBound)
    ensures r.Success? ==> SameShape(json, r.value)
  {
    if value.None? then Failure(MissingValue)
    else
      match Bounds(period, start, stop)
      case None => Failure(MissingBound)
      case Some((lo, hi)) => BuildNode(json, path, 0, lo, hi, value.value, how)
  }

  // ---------------------------------------------------------------------------
  // Reading the tree back along a path
  // ---------------------------------------------------------------------------

  /** Position of the first entry with key `k`. */
  function KeyIndex<V>(e: seq<(string, Node<V>)>, k: string): (r: Option<nat>)
    ensures r.Some? ==> r.value < |e| && e[r.value].0 == k
    ensures r.Some? ==> forall j | 0 <= j < r.value :: e[j].0 != k
    ensures r.None? <==> forall j | 0 <= j < |e| :: e[j].0 != k
  {
    if |e| == 0 then None
    else if e[0].0 == k then Some(0)
    else
      match KeyIndex(e[1..], k)
      case None => None
      case Some(j) => Some(j + 1)
  }

  /** The node reached by following `q` through mappings and sequences. */
  function Get<V>(node: Node<V>, q: seq<PathKey>): Option<Node<V>>
  {
    if |q| == 0 then Some(node)
    else
      match node
      case Dict(e) =>
        if q[0].Key? && KeyIndex(e, q[0].key).Some? then Get(e[KeyIndex(e, q[0].key).value].1, q[1..])
        else None
      case List(e) =>
        if q[0].Index? && 0 <= q[0].index < |e| then Get(e[q[0].index], q[1..]) else None
      case _ => None
  }

  predicate DistinctKeys<V>(e: seq<(string, Node<V>)>) {
    forall a, b | 0 <= a < b < |e| :: e[a].0 != e[b].0
  }

  /** Every mapping met along `q` has distinct keys, as a JSON object does. */
  predicate DistinctAlong<V>(node: Node<V>, q: seq<PathKey>) {
    if |q| == 0 then true
    else
      match node
      case Dict(e) =>
        DistinctKeys(e)
        && (q[0].Key? && KeyIndex(e, q[0].key).Some? ==> DistinctAlong(e[KeyIndex(e, q[0].key).value].1, q[1..]))
      case List(e) =>
        q[0].Index? && 0 <= q[0].index < |e| ==> DistinctAlong(e[q[0].index], q[1..])
      case _ => true
  }

  lemma {:induction false} KeyIndexSameKeys<V>(e: seq<(string, Node<V>)>, e': seq<(string, Node<V>)>, k: string)
    requires |e'| == |e| && forall j | 0 <= j < |e| :: e'[j].0 == e[j].0
    ensures KeyIndex(e', k) == KeyIndex(e, k)
    decreases |e|
  {
    if |e| > 0 && e[0].0 != k {
      KeyIndexSameKeys(e[1..], e'[1..], k);
    }
  }

  /** No key equals the step: the entries come back as they were. */
  lemma {:induction false} EntriesUntouched<V>(e: seq<(string, Node<V>)>, path: seq<PathKey>, i: nat,
                                               start: Instant, stop: Instant, value: V, how: Patch)
    requires i < |path|
    requires forall j | 0 <= j < |e| :: path[i] != Key(e[j].0)
    ensures BuildEntries(e, path, i, start, stop, value, how) == Success(e)
    decreases |e|
  {
    if |e| > 0 {
      EntriesUntouched(e[1..], path, i, start, stop, value, how);
      assert [e[0]] + e[1..] == e;
    }
  }

  /** With distinct keys, the one entry whose key equals the step is replaced by what `Descend` makes of it. */
  lemma {:induction false} EntriesRebuilt<V>(e: seq<(string, Node<V>)>, path: seq<PathKey>, i: nat, m: nat,
                                             start: Instant, stop: Instant, value: V, how: Patch)
    requires i < |path| && m < |e| && path[i] == Key(e[m].0) && DistinctKeys(e)
    requires Descend(e[m].1, path, i, start, stop, value, how).Success?
    ensures BuildEntries(e, path, i, start, stop, value, how).Success?
    ensures BuildEntries(e, path, i, start, stop, value, how).value[m]
         == (e[m].0, Descend(e[m].1, path, i, start, stop, value, how).value)
    decreases |e|
  {
    if m == 0 {
      EntriesUntouched(e[1..], path, i, start, stop, value, how);
    } else {
      EntriesRebuilt(e[1..], path, i, m - 1, start, stop, value, how);
    }
  }

  /**
   * Following a path that leads, through mappings with distinct keys and
   * sequences, to an array of dated values whose last step is a key: the
   * update succeeds and the array found there is the patched one.
   */
  lemma {:induction false} UpdateReaches<V>(node: Node<V>, path: seq<PathKey>, i: nat, t: seq<Item<V>>,
                                            start: Instant, stop: Instant, value: V, how: Patch)
    requires i < |path| && path[|path| - 1].Key?
    requires Get(node, path[i..]) == Some(Items(t))
    requires DistinctAlong(node, path[i..])
    ensures BuildNode(node, path, i, start, stop, value, how).Success?
    ensures Get(BuildNode(node, path, i, start, stop, value, how).value, path[i..])
         == Some(Items(Overlay(how, t, start, stop, value)))
    decreases |path| - i
  {
    assert path[i..][0] == path[i] && path[i..][1..] == path[i + 1..];
    match node
    case Dict(e) =>
      var m := KeyIndex(e, path[i].key).value;
      if i < |path| - 1 {
        UpdateReaches(e[m].1, path, i + 1, t, start, stop, value, how);
      }
      EntriesRebuilt(e, path, i, m, start, stop, value, how);
      KeyIndexSameKeys(e, BuildEntries(e, path, i, start, stop, value, how).value, path[i].key);
    case List(e) =>
      UpdateReaches(e[path[i].index], path, i + 1, t, start, stop, value, how);
  }

  /**
   * Any path `q` that leaves the updated path at its `j`-th step reads the
   * same node before and after the update.
   */
  lemma {:induction false} UpdateFrame<V>(node: Node<V>, path: seq<PathKey>, i: nat, t: seq<Item<V>>,
                                          q: seq<PathKey>, j: nat, start: Instant, stop: Instant, value: V, how: Patch)
    requires i < |path| && path[|path| - 1].Key?
    requires Get(node, path[i..]) == Some(Items(t))
    requires DistinctAlong(node, path[i..])
    requires j < |q| && i + j < |path| && q[j] != path[i + j]
    ensures BuildNode(node, path, i, start, stop, value, how).Success?
    ensures Get(BuildNode(node, path, i, start, stop, value, how).value, q) == Get(node, q)
    decreases j, 1
  {
    UpdateReaches(node, path, i, t, start, stop, value, how);
    assert path[i..][0] == path[i] && path[i..][1..] == path[i + 1..];
    if node.Dict? {
      FrameDict(node.entries, path, i, t, q, j, start, stop, value, how);
    } else {
      FrameList(node.elements, path, i, t, q, j, start, stop, value, how);
    }
  }

  lemma {:induction false} FrameDict<V>(e: seq<(string, Node<V>)>, path: seq<PathKey>, i: nat, t: seq<Item<V>>,
                                        q: seq<PathKey>, j: nat, start: Instant, stop: Instant, value: V, how: Patch)
    requires i < |path| && path[|path| - 1].Key?
    requires Get(Dict(e), path[i..]) == Some(Items(t))
    requires DistinctAlong(Dict(e), path[i..])
    requires j < |q| && i + j < |path| && q[j] != path[i + j]
    requires BuildEntries(e, path, i, start, stop, value, how).Success?
    ensures Get(Dict(BuildEntries(e, path, i, start, stop, value, how).value), q) == Get(Dict(e), q)
    decreases j, 0
  {
    assert path[i..][0] == path[i] && path[i..][1..] == path[i + 1..];
    var e' := BuildEntries(e, path, i, start, stop, value, how).value;
    if q[0] != path[i] {
      StepAside(e, e', path[i], q);
    } else {
      var m := KeyIndex(e, path[i].key).value;
      UpdateReaches(e[m].1, path, i + 1, t, start, stop, value, how);
      EntriesRebuilt(e, path, i, m, start, stop, value, how);
      assert q[1..][j - 1] == q[j];
      UpdateFrame(e[m].1, path, i + 1, t, q[1..], j - 1, start, stop, value, how);
      StepThrough(e, e', m, q, BuildNode(e[m].1, path, i + 1, start, stop, value, how).value);
    }
  }

  /** A mapping whose entry for the first key of `q` is replaced by a node reading the same along the rest of `q`. */
  lemma StepThrough<V>(e: seq<(string, Node<V>)>, e': seq<(string, Node<V>)>, m: nat, q: seq<PathKey>, c: Node<V>)
    requires |e'| == |e| && forall j | 0 <= j < |e| :: e'[j].0 == e[j].0
    requires m < |e| && |q| > 0 && q[0] == Key(e[m].0) && KeyIndex(e, e[m].0) == Some(m)
    requires e'[m] == (e[m].0, c) && Get(c, q[1..]) == Get(e[m].1, q[1..])
    ensures Get(Dict(e'), q) == Get(Dict(e), q)
  {
    KeyIndexSameKeys(e, e', e[m].0);
  }

  /** A mapping whose entries for other keys are unchanged reads the same along a path that starts with another key. */
  lemma StepAside<V>(e: seq<(string, Node<V>)>, e': seq<(string, Node<V>)>, step: PathKey, q: seq<PathKey>)
    requires |e'| == |e| && forall j | 0 <= j < |e| :: e'[j].0 == e[j].0
    requires forall j | 0 <= j < |e| && step != Key(e[j].0) :: e'[j] == e[j]
    requires |q| > 0 && q[0] != step
    ensures Get(Dict(e'), q) == Get(Dict(e), q)
  {
    if q[0].Key? {
      KeyIndexSameKeys(e, e', q[0].key);
    }
  }

  lemma {:induction false} FrameList<V>(e: seq<Node<V>>, path: seq<PathKey>, i: nat, t: seq<Item<V>>,
                                        q: seq<PathKey>, j: nat, start: Instant, stop: Instant, value: V, how: Patch)
    requires i < |path| && path[|path| - 1].Key?
    requires Get(List(e), path[i..]) == Some(Items(t))
    requires DistinctAlong(List(e), path[i..])
    requires j < |q| && i + j < |path| && q[j] != path[i + j]
    requires BuildList(e, path, i, start, stop, value, how).Success?
    ensures Get(List(BuildList(e, path, i, start, stop, value, how).value), q) == Get(List(e), q)
    decreases j, 0
  {
    assert path[i..][0] == path[i] && path[i..][1..] == path[i + 1..];
    if q[0] == path[i] {
      assert q[1..][j - 1] == q[j];
      UpdateFrame(e[path[i].index], path, i + 1, t, q[1..], j - 1, start, stop, value, how);
    }
  }

  /**
   * The update as the repository runs it, seen from the top: the
   * parameter's timeline becomes what `updated_legislation_items`, as
   * written, makes of it, and every path that leaves the parameter's path
   * reads what it read before. When no existing item triggers the insertion
   * (an empty timeline, or items all apart from the bounds) the new value is
   * nowhere in the result.
   */
  lemma UpdateLegislationAsWritten<V>(json: Node<V>, path: seq<PathKey>, period: Option<Period>,
                                      value: Option<V>, start: Option<Instant>, stop: Option<Instant>, t: seq<Item<V>>)
    requires value.Some? && Bounds(period, start, stop).Some?
    requires Bounds(period, start, stop).value.0 <= Bounds(period, start, stop).value.1
    requires |path| > 0 && path[|path| - 1].Key?
    requires Get(json, path) == Some(Items(t)) && DistinctAlong(json, path)
    ensures UpdateLegislation(json, path, period, value, start, stop, AsWritten).Success?
    ensures
      var (lo, hi) := Bounds(period, start, stop).value;
      var t' := LegislationPatchAsWritten.UpdatedItems(t, lo, hi, value.value);
      && Get(UpdateLegislation(json, path, period, value, start, stop, AsWritten).value, path) == Some(Items(t'))
      && (!LegislationPatchAsWritten.Triggered(t, Item(lo, hi, value.value)) ==> Item(lo, hi, value.value) !in t')
    ensures forall q: seq<PathKey>, j: nat | j < |q| && j < |path| && q[j] != path[j] ::
      Get(UpdateLegislation(json, path, period, value, start, stop, AsWritten).value, q) == Get(json, q)
  {
    var (lo, hi) := Bounds(period, start, stop).value;
    assert path[0..] == path;
    UpdateReaches(json, path, 0, t, lo, hi, value.value, AsWritten);
    LegislationPatchAsWritten.NewItemCount(t, lo, hi, value.value);
    forall q: seq<PathKey>, j: nat | j < |q| && j < |path| && q[j] != path[j]
      ensures Get(UpdateLegislation(json, path, period, value, start, stop, AsWritten).value, q) == Get(json, q)
    {
      UpdateFrame(json, path, 0, t, q, j, lo, hi, value.value, AsWritten);
    }
  }

  /**
   * The update with the patch its documentation describes, seen from the
   * top: the parameter's timeline now holds the new value over the new
   * bounds and its old values elsewhere, and every path that leaves the
   * parameter's path reads what it read before.
   */
  lemma UpdateLegislationCorrect<V>(json: Node<V>, path: seq<PathKey>, period: Option<Period>,
                                    value: Option<V>, start: Option<Instant>, stop: Option<Instant>, t: seq<Item<V>>)
    requires value.Some? && Bounds(period, start, stop).Some?
    requires Bounds(period, start, stop).value.0 <= Bounds(period, start, stop).value.1
    requires |path| > 0 && path[|path| - 1].Key?
    requires Get(json, path) == Some(Items(t)) && DistinctAlong(json, path)
    requires AllWellFormed(t) && Disjoint(t)
    ensures UpdateLegislation(json, path, period, value, start, stop, Intended).Success?
    ensures Get(UpdateLegislation(json, path, period, value, start, stop, Intended).value, path).Some?
    ensures Get(UpdateLegislation(json, path, period, value, start, stop, Intended).value, path).value.Items?
    ensures
      var t' := Get(UpdateLegislation(json, path, period, value, start, stop, Intended).value, path).value.timeline;
      var (lo, hi) := Bounds(period, start, stop).value;
      AllWellFormed(t') && Disjoint(t') && SortedByStart(t')
      && forall d :: ValueAt(t', d) == if lo <= d <= hi then Some(value.value) else ValueAt(t, d)
    ensures forall q: seq<PathKey>, j: nat | j < |q| && j < |path| && q[j] != path[j] ::
      Get(UpdateLegislation(json, path, period, value, start, stop, Intended).value, q) == Get(json, q)
  {
    var (lo, hi) := Bounds(period, start, stop).value;
    assert path[0..] == path;
    UpdateReaches(json, path, 0, t, lo, hi, value.value, Intended);
    LegislationPatch.PatchCorrect(t, lo, hi, value.value);
    forall q: seq<PathKey>, j: nat | j < |q| && j < |path| && q[j] != path[j]
      ensures Get(UpdateLegislation(json, path, period, value, start, stop, Intended).value, q) == Get(json, q)
    {
      UpdateFrame(json, path, 0, t, q, j, lo, hi, value.value, Intended);
    }
  }
}
