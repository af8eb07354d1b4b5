/**
  `Motif.py`: motif transitions and transition lists. A transition pairs a
  left-hand-side motif with a right-hand-side motif and counts how often
  the pair was seen; a transition list collects transitions together with
  the number of iterations it is to be run for. Motifs are kept abstract
  (`L`, `R`): the only thing the list asks of them is the equality the
  `Motif.__eq__` operator provides, passed in as `eqL` and `eqR`.
*/
module Motifs {
  import opened Wrappers

  /** `ChangeData`: the positions of the six counts in a right-hand side. */
  const NodeAdded: nat := 0
  const NodeDeleted: nat := 1
  const NodeStateChange: nat := 2
  const EdgeAdded: nat := 3
  const EdgeDeleted: nat := 4
  const EdgeStateChange: nat := 5
  const AllData: seq<nat> := [NodeAdded, NodeDeleted, NodeStateChange, EdgeAdded, EdgeDeleted, EdgeStateChange]

  /** `MotifTransition`: the pair and its occurrence count. */
  datatype Transition<L, R> = Transition(lhs: L, rhs: R, occurrences: nat)

  /** `MotifTransitionList`. */
  datatype TransitionList<L, R> = TransitionList(
    transitions: seq<Transition<L, R>>,
    totalOccurrences: nat,
    numIterations: int,
    totalChanges: nat)

  /** The list the default constructor builds. */
  function EmptyList<L, R>(): (t: TransitionList<L, R>)
    ensures t.transitions == [] && t.totalOccurrences == 0
  {
    TransitionList([], 0, 0, 0)
  }

  /** The sum of a sequence of counts. */
  function SumNat(ws: seq<nat>): nat
  {
    if ws == [] then 0 else SumNat(ws[..|ws| - 1]) + ws[|ws| - 1]
  }

  /** The occurrence counts of the transitions, in list order. */
  function Occurrences<L, R>(ts: seq<Transition<L, R>>): (ws: seq<nat>)
    ensures |ws| == |ts|
    ensures forall i :: 0 <= i < |ts| ==> ws[i] == ts[i].occurrences
  {
    seq(|ts|, i requires 0 <= i < |ts| => ts[i].occurrences)
  }

  /** The number of times the transitions of a list were seen in total. */
  function Sum<L, R>(ts: seq<Transition<L, R>>): nat
  {
    SumNat(Occurrences(ts))
  }

  /** `total_occurances` agrees with the occurrence counts. */
  ghost predicate Counted<L, R>(t: TransitionList<L, R>)
  {
    t.totalOccurrences == Sum(t.transitions)
  }

  lemma SumNatAppend(ws: seq<nat>, w: nat)
    ensures SumNat(ws + [w]) == SumNat(ws) + w
  {
    assert (ws + [w])[..|ws|] == ws;
  }

  lemma {:induction false} SumNatUpdate(ws: seq<nat>, k: nat, w: nat)
    requires k < |ws|
    ensures SumNat(ws[k := w]) + ws[k] == SumNat(ws) + w
    decreases |ws|
  {
    var n := |ws| - 1;
    if k == n {
      assert ws[k := w][..n] == ws[..n];
    } else {
      assert ws[k := w][..n] == ws[..n][k := w];
      SumNatUpdate(ws[..n], k, w);
    }
  }

  /** A running sum never exceeds the full sum. */
  lemma {:induction false} SumNatPrefix(ws: seq<nat>, k: nat)
    requires k <= |ws|
    ensures SumNat(ws[..k]) <= SumNat(ws)
    decreases |ws|
  {
    if k < |ws| {
      var n := |ws| - 1;
      assert ws[..n][..k] == ws[..k];
      SumNatPrefix(ws[..n], k);
    } else {
      assert ws[..k] == ws;
    }
  }

  /** `set_num_iterations`. */
  function SetNumIterations<L, R>(t: TransitionList<L, R>, iterations: int): (r: TransitionList<L, R>)
    ensures r.numIterations == iterations
    ensures r.transitions == t.transitions && r.totalOccurrences == t.totalOccurrences
    ensures r.totalChanges == t.totalChanges
  {
    t.(numIterations := iterations)
  }

  /** `get_num_transitions`. */
  function NumTransitions<L, R>(t: TransitionList<L, R>): (n: nat)
    ensures n == |t.transitions|
  {
    |t.transitions|
  }

  /** `get_left_hand_sides`. */
  function LeftHandSides<L, R>(t: TransitionList<L, R>): (ls: seq<L>)
    ensures |ls| == |t.transitions|
    ensures forall i :: 0 <= i < |ls| ==> ls[i] == t.transitions[i].lhs
  {
    seq(|t.transitions|, i requires 0 <= i < |t.transitions| => t.transitions[i].lhs)
  }

  /** `set_num_changes`: `total_changes` becomes the sum of the occurrence
      counts, accumulated from the front of the list. */
  method SetNumChanges<L, R>(t: TransitionList<L, R>) returns (r: TransitionList<L, R>)
    ensures r.totalChanges == Sum(t.transitions)
    ensures r.transitions == t.transitions && r.totalOccurrences == t.totalOccurrences
    ensures r.numIterations == t.numIterations
  {
    var total := 0;
    var i := 0;
    ghost var ws := Occurrences(t.transitions);
    while i < |t.transitions|
      invariant 0 <= i <= |t.transitions|
      invariant total == SumNat(ws[..i])
    {
      assert ws[..i + 1] == ws[..i] + [ws[i]];
      SumNatAppend(ws[..i], ws[i]);
      total := total + t.transitions[i].occurrences;
      i := i + 1;
    }
    assert ws[..i] == ws;
    r := t.(totalChanges := total);
  }

  /** `add_motif_transition`: the transition is appended and its count is
      added to `total_occurances`. */
  function AddTransition<L, R>(t: TransitionList<L, R>, x: Transition<L, R>): (r: TransitionList<L, R>)
    ensures r.transitions == t.transitions + [x]
    ensures r.totalOccurrences == t.totalOccurrences + x.occurrences
    ensures r.numIterations == t.numIterations && r.totalChanges == t.totalChanges
  {
    t.(transitions := t.transitions + [x], totalOccurrences := t.totalOccurrences + x.occurrences)
  }

  /** Appending keeps `total_occurances` in step with the counts. */
  lemma AddKeepsCounted<L, R>(t: TransitionList<L, R>, x: Transition<L, R>)
    requires Counted(t)
    ensures Counted(AddTransition(t, x))
  {
    assert Occurrences(t.transitions + [x]) == Occurrences(t.transitions) + [x.occurrences];
    SumNatAppend(Occurrences(t.transitions), x.occurrences);
  }

  /** `inc_occurance_num`. */
  function Increment<L, R>(x: Transition<L, R>): (y: Transition<L, R>)
    ensures y.lhs == x.lhs && y.rhs == x.rhs && y.occurrences == x.occurrences + 1
  {
    x.(occurrences := x.occurrences + 1)
  }

  /** `lhs == transition.get_lhs()` and `rhs == transition.get_rhs()`: the
      new motifs are on the left of each comparison. */
  predicate Matches<L, R>(x: Transition<L, R>, lhs: L, rhs: R, eqL: (L, L) -> bool, eqR: (R, R) -> bool)
  {
    eqL(lhs, x.lhs) && eqR(rhs, x.rhs)
  }

  /** The first position from `i` on whose transition matches the pair. */
  function FindMatch<L, R>(ts: seq<Transition<L, R>>, i: nat, lhs: L, rhs: R,
                           eqL: (L, L) -> bool, eqR: (R, R) -> bool): (k: Option<nat>)
    requires i <= |ts|
    ensures k.Some? ==> i <= k.value < |ts| && Matches(ts[k.value], lhs, rhs, eqL, eqR)
    ensures k.Some? ==> forall j :: i <= j < k.value ==> !Matches(ts[j], lhs, rhs, eqL, eqR)
    ensures k.None? ==> forall j :: i <= j < |ts| ==> !Matches(ts[j], lhs, rhs, eqL, eqR)
    decreases |ts| - i
  {
    if i == |ts| then None
    else if Matches(ts[i], lhs, rhs, eqL, eqR) then Some(i)
    else FindMatch(ts, i + 1, lhs, rhs, eqL, eqR)
  }

  /** `insert_motif_transition`: the first transition matching both sides
      is incremented; when none does, a new transition with count 1 is
      appended through `add_motif_transition`. */
  function InsertTransition<L, R>(t: TransitionList<L, R>, lhs: L, rhs: R,
                                  eqL: (L, L) -> bool, eqR: (R, R) -> bool): (r: TransitionList<L, R>)
    ensures r.numIterations == t.numIterations && r.totalChanges == t.totalChanges
    ensures |r.transitions| == |t.transitions| <==>
              exists k :: 0 <= k < |t.transitions| && Matches(t.transitions[k], lhs, rhs, eqL, eqR)
    ensures |r.transitions| != |t.transitions| ==>
              r.transitions == t.transitions + [Transition(lhs, rhs, 1)] &&
              r.totalOccurrences == t.totalOccurrences + 1
    ensures |r.transitions| == |t.transitions| ==> r.totalOccurrences == t.totalOccurrences
    ensures |r.transitions| == |t.transitions| ==>
              forall k :: 0 <= k < |t.transitions| ==>
                if Matches(t.transitions[k], lhs, rhs, eqL, eqR) &&
                   forall j :: 0 <= j < k ==> !Matches(t.transitions[j], lhs, rhs, eqL, eqR)
                then r.transitions[k] == Increment(t.transitions[k])
                else r.transitions[k] == t.transitions[k]
  {
    match FindMatch(t.transitions, 0, lhs, rhs, eqL, eqR)
    case Some(k) => t.(transitions := t.transitions[k := Increment(t.transitions[k])])
    case None => AddTransition(t, Transition(lhs, rhs, 1))
  }

  /** Each insertion records exactly one more occurrence. */
  lemma InsertAddsOne<L, R>(t: TransitionList<L, R>, lhs: L, rhs: R,
                            eqL: (L, L) -> bool, eqR: (R, R) -> bool)
    ensures Sum(InsertTransition(t, lhs, rhs, eqL, eqR).transitions) == Sum(t.transitions) + 1
  {
    var ts := t.transitions;
    match FindMatch(ts, 0, lhs, rhs, eqL, eqR)
    case Some(k) =>
      assert Occurrences(ts[k := Increment(ts[k])]) == Occurrences(ts)[k := ts[k].occurrences + 1];
      SumNatUpdate(Occurrences(ts), k, ts[k].occurrences + 1);
    case None =>
      assert Occurrences(ts + [Transition(lhs, rhs, 1)]) == Occurrences(ts) + [1];
      SumNatAppend(Occurrences(ts), 1);
  }

  /** Incrementing an existing transition leaves `total_occurances` behind
      the counts: a counted list stops being counted. */
  lemma IncrementLeavesTotal<L, R>(t: TransitionList<L, R>, lhs: L, rhs: R,
                                   eqL: (L, L) -> bool, eqR: (R, R) -> bool)
    requires Counted(t)
    requires exists k :: 0 <= k < |t.transitions| && Matches(t.transitions[k], lhs, rhs, eqL, eqR)
    ensures !Counted(InsertTransition(t, lhs, rhs, eqL, eqR))
  {
    InsertAddsOne(t, lhs, rhs, eqL, eqR);
  }

  /** An insertion that appends keeps `total_occurances` in step. */
  lemma AppendKeepsCounted<L, R>(t: TransitionList<L, R>, lhs: L, rhs: R,
                                 eqL: (L, L) -> bool, eqR: (R, R) -> bool)
    requires Counted(t)
    requires forall k :: 0 <= k < |t.transitions| ==> !Matches(t.transitions[k], lhs, rhs, eqL, eqR)
    ensures Counted(InsertTransition(t, lhs, rhs, eqL, eqR))
  {
    InsertAddsOne(t, lhs, rhs, eqL, eqR);
  }

  /** A Python list index `i` into a list of length `n`: negative indices
      count from the end. */
  predicate ValidIndex(i: int, n: nat)
  {
    -(n as int) <= i < n
  }

  function Normal(i: int, n: nat): (j: nat)
    requires ValidIndex(i, n)
    ensures j < n && (j == i || j == i + n)
  {
    if i < 0 then i + n else i
  }

  ghost predicate AllValid(options: seq<int>, n: nat)
  {
    forall k :: 0 <= k < |options| ==> ValidIndex(options[k], n)
  }

  /** The occurrence counts of the transitions `options` picks, in order. */
  ghost function Weights<L, R>(ts: seq<Transition<L, R>>, options: seq<int>): (ws: seq<nat>)
    requires AllValid(options, |ts|)
    ensures |ws| == |options|
    ensures forall k :: 0 <= k < |options| ==> ws[k] == ts[Normal(options[k], |ts|)].occurrences
  {
    seq(|options|, k requires 0 <= k < |options| && ValidIndex(options[k], |ts|) =>
                     ts[Normal(options[k], |ts|)].occurrences)
  }

  /** The running sum up to and including position `k`. */
  function Running(ws: seq<nat>, k: nat): nat
    requires k < |ws|
  {
    SumNat(ws[..k + 1])
  }

  /** Option `k` is the first whose running sum reaches `val`. */
  ghost predicate FirstReaching(ws: seq<nat>, val: int, k: int)
  {
    0 <= k < |ws| && Running(ws, k) >= val &&
    forall j :: 0 <= j < k ==> Running(ws, j) < val
  }

  /** `p` is the (index, transition) pair of the option first reaching `val`. */
  ghost predicate Picks<L, R>(ts: seq<Transition<L, R>>, options: seq<int>, val: int, p: (nat, Transition<L, R>))
    requires AllValid(options, |ts|)
  {
    exists k :: FirstReaching(Weights(ts, options), val, k) &&
                p.0 == Normal(options[k], |ts|) && p.1 == ts[p.0]
  }

  /** `choose_motif_transition(options)` with the draw `val` that
      `random.randint(0, total)` would return. `total_changes` is set
      first; an option outside the list raises IndexError; otherwise the
      option whose running count first reaches `val` is returned, and none
      is when no running count does. The transitions are distinct objects,
      so `list.index` finds the chosen one at its own position. */
  method ChooseTransition<L, R>(t: TransitionList<L, R>, options: seq<int>, val: int)
    returns (r: TransitionList<L, R>, choice: Result<Option<(nat, Transition<L, R>)>>)
    ensures r.totalChanges == Sum(t.transitions)
    ensures r.transitions == t.transitions && r.totalOccurrences == t.totalOccurrences
    ensures r.numIterations == t.numIterations
    ensures choice.Err? <==> !AllValid(options, |t.transitions|)
    ensures choice.Err? ==> choice.error == IndexError
    ensures choice.Ok? ==>
              (choice.value.Some? <==> |options| > 0 && val <= SumNat(Weights(t.transitions, options)))
    ensures choice.Ok? && choice.value.Some? ==> Picks(t.transitions, options, val, choice.value.value)
  {
    r := SetNumChanges(t);
    var valid := CheckOptions(options, |t.transitions|);
    if !valid {
      return r, Err(IndexError);
    }
    var c := PickFirst(t.transitions, options, val);
    choice := Ok(c);
  }

  /** Builds `choice_list`: every option must index the list. */
  method CheckOptions(options: seq<int>, n: nat) returns (valid: bool)
    ensures valid <==> AllValid(options, n)
  {
    var i := 0;
    while i < |options|
      invariant 0 <= i <= |options|
      invariant forall j :: 0 <= j < i ==> ValidIndex(options[j], n)
    {
      if !ValidIndex(options[i], n) {
        return false;
      }
      i := i + 1;
    }
    return true;
  }

  /** The accumulation loop of `choose_motif_transition`. */
  method PickFirst<L, R>(ts: seq<Transition<L, R>>, options: seq<int>, val: int)
    returns (c: Option<(nat, Transition<L, R>)>)
    requires AllValid(options, |ts|)
    ensures c.Some? <==> |options| > 0 && val <= SumNat(Weights(ts, options))
    ensures c.Some? ==> Picks(ts, options, val, c.value)
  {
    ghost var ws := Weights(ts, options);
    var accum := 0;
    var k := 0;
    while k < |options|
      invariant 0 <= k <= |options|
      invariant accum == SumNat(ws[..k])
      invariant forall j :: 0 <= j < k ==> Running(ws, j) < val
    {
      var x := ts[Normal(options[k], |ts|)];
      assert ws[..k + 1] == ws[..k] + [ws[k]];
      SumNatAppend(ws[..k], ws[k]);
      accum := accum + x.occurrences;
      if accum >= val {
        SumNatPrefix(ws, k + 1);
        assert FirstReaching(ws, val, k);
        return Some((Normal(options[k], |ts|), x));
      }
      k := k + 1;
    }
    if |options| > 0 {
      assert ws[..|options| - 1 + 1] == ws;
      assert Running(ws, |options| - 1) < val;
    }
    c := None;
  }
}
