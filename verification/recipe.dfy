/**
  `Recipe.py`: a recipe is a sequence of transition lists, each run for its
  own number of iterations, one after the other. An iteration number is
  mapped to the first list whose cumulative iteration count reaches it.
*/
module Recipes {
  import opened Wrappers
  import opened Motifs

  datatype Recipe<L, R> = Recipe(sets: seq<TransitionList<L, R>>, totalIterations: int)

  /** The recipe the constructor builds. */
  function EmptyRecipe<L, R>(): (r: Recipe<L, R>)
    ensures r.sets == [] && r.totalIterations == 0
  {
    Recipe([], 0)
  }

  /** The iterations of the first `k` lists together. */
  function Cumulative<L, R>(sets: seq<TransitionList<L, R>>, k: nat): int
    requires k <= |sets|
  {
    if k == 0 then 0 else Cumulative(sets, k - 1) + sets[k - 1].numIterations
  }

  /** The cumulative count once list `k` is included. */
  function Through<L, R>(sets: seq<TransitionList<L, R>>, k: nat): int
    requires k < |sets|
  {
    Cumulative(sets, k + 1)
  }

  /** `total_iterations` agrees with the lists. */
  ghost predicate Consistent<L, R>(rc: Recipe<L, R>)
  {
    rc.totalIterations == Cumulative(rc.sets, |rc.sets|)
  }

  ghost predicate NonNegative<L, R>(sets: seq<TransitionList<L, R>>)
  {
    forall k :: 0 <= k < |sets| ==> sets[k].numIterations >= 0
  }

  /** With non-negative counts the cumulative counts never decrease. */
  lemma {:induction false} CumulativeMonotone<L, R>(sets: seq<TransitionList<L, R>>, i: nat, j: nat)
    requires NonNegative(sets) && i <= j <= |sets|
    ensures Cumulative(sets, i) <= Cumulative(sets, j)
    decreases j
  {
    if i < j {
      CumulativeMonotone(sets, i, j - 1);
    }
  }

  /** Appending a list leaves the earlier cumulative counts alone. */
  lemma {:induction false} CumulativeAppend<L, R>(sets: seq<TransitionList<L, R>>, t: TransitionList<L, R>, k: nat)
    requires k <= |sets|
    ensures Cumulative(sets + [t], k) == Cumulative(sets, k)
    decreases k
  {
    if k > 0 {
      CumulativeAppend(sets, t, k - 1);
    }
  }

  /** `set_total_iterations`: the sum of the lists' iteration counts. */
  method SetTotalIterations<L, R>(rc: Recipe<L, R>) returns (r: Recipe<L, R>)
    ensures r.sets == rc.sets && Consistent(r)
  {
    var total := 0;
    var i := 0;
    while i < |rc.sets|
      invariant 0 <= i <= |rc.sets|
      invariant total == Cumulative(rc.sets, i)
    {
      total := total + rc.sets[i].numIterations;
      i := i + 1;
    }
    r := rc.(totalIterations := total);
  }

  /** `add_transition_list`: the list is appended and its iteration count
      added to the total. */
  function AddTransitionList<L, R>(rc: Recipe<L, R>, t: TransitionList<L, R>): (r: Recipe<L, R>)
    ensures r.sets == rc.sets + [t]
    ensures r.totalIterations == rc.totalIterations + t.numIterations
  {
    Recipe(rc.sets + [t], rc.totalIterations + t.numIterations)
  }

  /** Adding lists one at a time gives the total `set_total_iterations`
      would recompute. */
  lemma AddKeepsConsistent<L, R>(rc: Recipe<L, R>, t: TransitionList<L, R>)
    requires Consistent(rc)
    ensures Consistent(AddTransitionList(rc, t))
  {
    CumulativeAppend(rc.sets, t, |rc.sets|);
  }

  /** The `for transition_list in self.transition_sets` loop shared by the
      lookups: the first list whose cumulative count reaches `iteration`. */
  method SelectList<L, R>(sets: seq<TransitionList<L, R>>, iteration: int) returns (k: Option<nat>)
    ensures k.Some? ==> k.value < |sets| && iteration <= Through(sets, k.value)
    ensures k.Some? ==> forall j :: 0 <= j < k.value ==> Through(sets, j) < iteration
    ensures k.None? ==> forall j :: 0 <= j < |sets| ==> Through(sets, j) < iteration
  {
    var accum := 0;
    var i := 0;
    while i < |sets|
      invariant 0 <= i <= |sets|
      invariant accum == Cumulative(sets, i)
      invariant forall j :: 0 <= j < i ==> Through(sets, j) < iteration
    {
      accum := accum + sets[i].numIterations;
      if iteration <= accum {
        return Some(i);
      }
      i := i + 1;
    }
    return None;
  }

  /** Below a consistent total some list always reaches the iteration. */
  lemma SelectionExists<L, R>(rc: Recipe<L, R>, iteration: int)
    requires Consistent(rc) && 0 <= iteration < rc.totalIterations
    ensures exists j :: 0 <= j < |rc.sets| && iteration <= Through(rc.sets, j)
  {
    assert |rc.sets| > 0;
    assert iteration <= Through(rc.sets, |rc.sets| - 1);
  }

  /** `choose_motif_transition(iteration, options)` with the draw `val`:
      IndexError at or beyond the total; otherwise the selected list
      chooses (and records its `total_changes`). Running off the end of the
      lists, like a choice that reaches no option, returns nothing. */
  method ChooseMotifTransition<L, R>(rc: Recipe<L, R>, iteration: int, options: seq<int>, val: int)
    returns (r: Recipe<L, R>, choice: Result<Option<(nat, Transition<L, R>)>>)
    ensures iteration >= rc.totalIterations ==> r == rc && choice == Err(IndexError)
    ensures r.totalIterations == rc.totalIterations && |r.sets| == |rc.sets|
    ensures Consistent(rc) && 0 <= iteration < rc.totalIterations ==>
              exists k :: 0 <= k < |rc.sets| && iteration <= Through(rc.sets, k) &&
                          (forall j :: 0 <= j < k ==> Through(rc.sets, j) < iteration) &&
                          r.sets == rc.sets[k := r.sets[k]] &&
                          r.sets[k].totalChanges == Sum(rc.sets[k].transitions) &&
                          (choice.Err? <==> !AllValid(options, |rc.sets[k].transitions|)) &&
                          (choice.Ok? && choice.value.Some? ==>
                             Picks(rc.sets[k].transitions, options, val, choice.value.value))
  {
    if iteration >= rc.totalIterations {
      return rc, Err(IndexError);
    }
    var k := SelectList(rc.sets, iteration);
    if k.None? {
      if Consistent(rc) && 0 <= iteration {
        SelectionExists(rc, iteration);
      }
      return rc, Ok(None);
    }
    var t, c := ChooseTransition(rc.sets[k.value], options, val);
    r := rc.(sets := rc.sets[k.value := t]);
    choice := c;
  }

  /** `get_transition_list_for_iteration`: the `else` belongs to the `for`
      loop, so at or beyond the total nothing is returned, and IndexError
      is raised only when the loop runs off the end of the lists. */
  method TransitionListForIteration<L, R>(rc: Recipe<L, R>, iteration: int)
    returns (r: Result<Option<TransitionList<L, R>>>)
    ensures iteration >= rc.totalIterations ==> r == Ok(None)
    ensures iteration < rc.totalIterations ==> r != Ok(None)
    ensures r.Err? ==> r.error == IndexError &&
                       forall j :: 0 <= j < |rc.sets| ==> Through(rc.sets, j) < iteration
    ensures r.Ok? && r.value.Some? ==>
              exists k :: 0 <= k < |rc.sets| && r.value.value == rc.sets[k] &&
                          iteration <= Through(rc.sets, k) &&
                          forall j :: 0 <= j < k ==> Through(rc.sets, j) < iteration
    ensures Consistent(rc) && 0 <= iteration < rc.totalIterations ==> r.Ok?
  {
    if iteration >= rc.totalIterations {
      return Ok(None);
    }
    var k := SelectList(rc.sets, iteration);
    if k.None? {
      if Consistent(rc) && 0 <= iteration {
        SelectionExists(rc, iteration);
      }
      return Err(IndexError);
    }
    return Ok(Some(rc.sets[k.value]));
  }

  /** Python's integer `/`: the quotient rounded towards minus infinity. */
  function FloorDiv(a: int, b: int): (q: int)
    requires b != 0
    ensures b > 0 ==> q * b <= a < q * b + b
    ensures b < 0 ==> q * b + b < a <= q * b
  {
    if b > 0 then a / b else (-a) / (-b)
  }

  /** `get_num_changes_this_iteration`: the selected list's total changes
      divided by its iteration count, ZeroDivisionError for a list of no
      iterations. */
  method NumChangesThisIteration<L, R>(rc: Recipe<L, R>, iteration: int) returns (r: Result<Option<int>>)
    ensures iteration >= rc.totalIterations ==> r == Err(IndexError)
    ensures r == Ok(None) ==> forall j :: 0 <= j < |rc.sets| ==> Through(rc.sets, j) < iteration
    ensures Consistent(rc) && 0 <= iteration < rc.totalIterations ==>
              exists k :: 0 <= k < |rc.sets| && iteration <= Through(rc.sets, k) &&
                          (forall j :: 0 <= j < k ==> Through(rc.sets, j) < iteration) &&
                          r == if rc.sets[k].numIterations == 0 then Err(ZeroDivisionError)
                               else Ok(Some(FloorDiv(rc.sets[k].totalChanges, rc.sets[k].numIterations)))
  {
    if iteration >= rc.totalIterations {
      return Err(IndexError);
    }
    var k := SelectList(rc.sets, iteration);
    if k.None? {
      if Consistent(rc) && 0 <= iteration {
        SelectionExists(rc, iteration);
      }
      return Ok(None);
    }
    var t := rc.sets[k.value];
    if t.numIterations == 0 {
      return Err(ZeroDivisionError);
    }
    return Ok(Some(FloorDiv(t.totalChanges, t.numIterations)));
  }

  /** `get_lhs_for_iteration`: the left-hand sides of the selected list. */
  method LhsForIteration<L, R>(rc: Recipe<L, R>, iteration: int) returns (r: Result<Option<seq<L>>>)
    ensures iteration >= rc.totalIterations ==> r == Err(IndexError)
    ensures r == Ok(None) ==> forall j :: 0 <= j < |rc.sets| ==> Through(rc.sets, j) < iteration
    ensures Consistent(rc) && 0 <= iteration < rc.totalIterations ==>
              exists k :: 0 <= k < |rc.sets| && iteration <= Through(rc.sets, k) &&
                          (forall j :: 0 <= j < k ==> Through(rc.sets, j) < iteration) &&
                          r == Ok(Some(LeftHandSides(rc.sets[k])))
  {
    if iteration >= rc.totalIterations {
      return Err(IndexError);
    }
    var k := SelectList(rc.sets, iteration);
    if k.None? {
      if Consistent(rc) && 0 <= iteration {
        SelectionExists(rc, iteration);
      }
      return Ok(None);
    }
    return Ok(Some(LeftHandSides(rc.sets[k.value])));
  }

  /** Position `k` is the first (up to and including the end of the lists)
      whose cumulative count is at least `x`. */
  ghost predicate FirstAtLeast<L, R>(sets: seq<TransitionList<L, R>>, x: int, k: int)
  {
    0 <= k <= |sets| && Cumulative(sets, k) >= x &&
    forall j :: 0 <= j < k ==> Cumulative(sets, j) < x
  }

  /** The answer `is_new_iteration` gives: the loop stops at the first
      cumulative count that reaches `iteration - 1`, and the iteration is
      new exactly when that count is `iteration - 1`. */
  ghost predicate NewAt<L, R>(sets: seq<TransitionList<L, R>>, iteration: int, b: bool)
  {
    exists k :: FirstAtLeast(sets, iteration - 1, k) && (b <==> Cumulative(sets, k) == iteration - 1)
  }

  /** `is_new_iteration`: nothing at or beyond the total; IndexError when
      the loop runs past the last list. */
  method IsNewIteration<L, R>(rc: Recipe<L, R>, iteration: int) returns (r: Result<Option<bool>>)
    ensures iteration >= rc.totalIterations ==> r == Ok(None)
    ensures iteration < rc.totalIterations ==> r != Ok(None)
    ensures r.Err? ==> r.error == IndexError &&
                       forall j :: 0 <= j <= |rc.sets| ==> Cumulative(rc.sets, j) < iteration - 1
    ensures r.Ok? && r.value.Some? ==> NewAt(rc.sets, iteration, r.value.value)
    ensures Consistent(rc) && iteration < rc.totalIterations ==> r.Ok?
  {
    if iteration >= rc.totalIterations {
      return Ok(None);
    }
    var accum := 0;
    var index := 0;
    while accum < iteration
      invariant 0 <= index <= |rc.sets|
      invariant accum == Cumulative(rc.sets, index)
      invariant forall j :: 0 <= j < index ==> Cumulative(rc.sets, j) < iteration - 1
      decreases |rc.sets| - index + 1
    {
      if iteration == accum + 1 {
        assert FirstAtLeast(rc.sets, iteration - 1, index);
        return Ok(Some(true));
      }
      if index == |rc.sets| {
        return Err(IndexError);
      }
      accum := accum + rc.sets[index].numIterations;
      index := index + 1;
    }
    assert FirstAtLeast(rc.sets, iteration - 1, index);
    return Ok(Some(false));
  }

  /** With non-negative counts, `is_new_iteration` says True exactly when
      `iteration - 1` is one of the cumulative counts: the first iteration
      of each list after the first. */
  lemma NewMeansPrefix<L, R>(sets: seq<TransitionList<L, R>>, iteration: int, b: bool)
    requires NonNegative(sets) && NewAt(sets, iteration, b)
    ensures b <==> exists k :: 0 <= k <= |sets| && Cumulative(sets, k) == iteration - 1
  {
    var k :| FirstAtLeast(sets, iteration - 1, k) && (b <==> Cumulative(sets, k) == iteration - 1);
    if b {
      assert 0 <= k <= |sets| && Cumulative(sets, k) == iteration - 1;
    } else {
      forall j | 0 <= j <= |sets|
        ensures Cumulative(sets, j) != iteration - 1
      {
        if j >= k {
          CumulativeMonotone(sets, k, j);
        } else {
          assert Cumulative(sets, j) < iteration - 1;
        }
      }
    }
  }
}
