/**
 * RECURSIVE-DLS as a function, and what it promises.
 *
 * Dls gives, for a node, the problem, the remaining depth limit and the
 * cancellation oracle, the three-way outcome of the recursive depth-limited
 * search and the number of nodes whose children it enumerated. DlsChildren
 * is its sibling loop: children i.. are searched in order with the
 * "cutoff occurred" flag carried along.
 *
 * The lemmas state the search's contract against the reference notions of
 * SearchFramework: a solution is a goal reached by applicable actions within
 * the limit; failure means no goal and no path of full length within the
 * limit; without cancellation the outcome is exactly determined by those two
 * notions; and the expansion count never exceeds the number of tree nodes
 * above the limit, equalling it when the search runs to completion.
 */
module DepthLimited {
  import opened SearchFramework

  /** What a recursive search call returns: the cutoff sentinel and null of the original become Cutoff and Failure. */
  datatype Outcome<S, A> = Solution(node: Node<S, A>) | Cutoff | Failure

  /** An outcome together with the number of nodes expanded to reach it. */
  datatype Run<S, A> = Run(outcome: Outcome<S, A>, expanded: nat)

  /**
   * The search from n with the given remaining limit. cancel(m) is the value
   * the cancellation flag has when the call for node m polls it, after m's
   * goal test; a canceled call cuts off. A solution is always a goal node,
   * and Failure is never reported without an expansion.
   */
  function Dls<S, A>(p: Problem<S, A>, cancel: Node<S, A> -> bool, n: Node<S, A>, limit: nat): (r: Run<S, A>)
    ensures r.outcome.Solution? ==> p.isGoal(r.outcome.node.state)
    ensures r.outcome.Failure? ==> r.expanded > 0
    decreases limit, 1
  {
    if p.isGoal(n.state) then Run(Solution(n), 0)
    else if limit == 0 || cancel(n) then Run(Cutoff, 0)
    else
      var r := DlsChildren(p, cancel, Expand(p, n), 0, limit, false);
      Run(r.outcome, 1 + r.expanded)
  }

  /**
   * The loop over children[i..] of a node searched with the given limit: a
   * solution it returns is a goal, and once a cutoff has occurred the loop
   * can no longer end in Failure.
   */
  function DlsChildren<S, A>(p: Problem<S, A>, cancel: Node<S, A> -> bool, children: seq<Node<S, A>>,
                             i: nat, limit: nat, cutoffOccurred: bool): (r: Run<S, A>)
    requires i <= |children| && limit >= 1
    ensures r.outcome.Solution? ==> p.isGoal(r.outcome.node.state)
    ensures cutoffOccurred ==> !r.outcome.Failure?
    decreases limit, 0, |children| - i
  {
    if i == |children| then Run(if cutoffOccurred then Cutoff else Failure, 0)
    else
      var child := Dls(p, cancel, children[i], limit - 1);
      if child.outcome.Solution? then child
      else
        var rest := DlsChildren(p, cancel, children, i + 1, limit, cutoffOccurred || child.outcome.Cutoff?);
        Run(rest.outcome, child.expanded + rest.expanded)
  }

  /** The run of the j-th child of a node searched with the given limit. */
  function ChildRun<S, A>(p: Problem<S, A>, cancel: Node<S, A> -> bool, children: seq<Node<S, A>>,
                          j: nat, limit: nat): Run<S, A>
    requires j < |children| && limit >= 1
  {
    Dls(p, cancel, children[j], limit - 1)
  }

  /** The expansions of children[i..j], each searched on its own. */
  function SumExpanded<S, A>(p: Problem<S, A>, cancel: Node<S, A> -> bool, children: seq<Node<S, A>>,
                             i: nat, j: nat, limit: nat): nat
    requires i <= j <= |children| && limit >= 1
    decreases j - i
  {
    if i == j then 0
    else ChildRun(p, cancel, children, i, limit).expanded + SumExpanded(p, cancel, children, i + 1, j, limit)
  }

  /**
   * The sibling loop, characterised child by child: a solution is found iff
   * some child finds one; then it is the first such child's solution and
   * only the children up to that one were searched. Otherwise every child
   * was searched and the result is Cutoff iff the flag was already set or
   * some child cut off, Failure else.
   */
  lemma ChildrenOutcome<S, A>(p: Problem<S, A>, cancel: Node<S, A> -> bool, children: seq<Node<S, A>>,
                              i: nat, limit: nat, cutoffOccurred: bool)
    requires i <= |children| && limit >= 1
    ensures var r := DlsChildren(p, cancel, children, i, limit, cutoffOccurred);
      (r.outcome.Solution? <==>
        exists j :: i <= j < |children| && ChildRun(p, cancel, children, j, limit).outcome.Solution?) &&
      (r.outcome.Solution? ==>
        exists j :: i <= j < |children|
          && r == Run(ChildRun(p, cancel, children, j, limit).outcome, SumExpanded(p, cancel, children, i, j + 1, limit))
          && forall k :: i <= k < j ==> !ChildRun(p, cancel, children, k, limit).outcome.Solution?) &&
      (!r.outcome.Solution? ==>
        r == Run(if cutoffOccurred || exists j :: i <= j < |children| && ChildRun(p, cancel, children, j, limit).outcome.Cutoff?
                 then Cutoff else Failure,
                 SumExpanded(p, cancel, children, i, |children|, limit)))
  {
    ChildrenFirstSolution(p, cancel, children, i, limit, cutoffOccurred);
    ChildrenExhausted(p, cancel, children, i, limit, cutoffOccurred);
  }

  /** The solution half of ChildrenOutcome. */
  lemma {:induction false} ChildrenFirstSolution<S, A>(p: Problem<S, A>, cancel: Node<S, A> -> bool, children: seq<Node<S, A>>,
                                                       i: nat, limit: nat, cutoffOccurred: bool)
    requires i <= |children| && limit >= 1
    ensures var r := DlsChildren(p, cancel, children, i, limit, cutoffOccurred);
      (r.outcome.Solution? <==>
        exists j :: i <= j < |children| && ChildRun(p, cancel, children, j, limit).outcome.Solution?) &&
      (r.outcome.Solution? ==>
        exists j :: i <= j < |children|
          && r == Run(ChildRun(p, cancel, children, j, limit).outcome, SumExpanded(p, cancel, children, i, j + 1, limit))
          && forall k :: i <= k < j ==> !ChildRun(p, cancel, children, k, limit).outcome.Solution?)
    decreases |children| - i
  {
    if i < |children| {
      var first := ChildRun(p, cancel, children, i, limit);
      var flag := cutoffOccurred || first.outcome.Cutoff?;
      ChildrenFirstSolution(p, cancel, children, i + 1, limit, flag);
      var r := DlsChildren(p, cancel, children, i, limit, cutoffOccurred);
      if first.outcome.Solution? {
        assert r == Run(first.outcome, SumExpanded(p, cancel, children, i, i + 1, limit));
      } else {
        var rest := DlsChildren(p, cancel, children, i + 1, limit, flag);
        assert r == Run(rest.outcome, first.expanded + rest.expanded);
        if r.outcome.Solution? {
          var j :| i + 1 <= j < |children|
            && rest == Run(ChildRun(p, cancel, children, j, limit).outcome, SumExpanded(p, cancel, children, i + 1, j + 1, limit))
            && forall k :: i + 1 <= k < j ==> !ChildRun(p, cancel, children, k, limit).outcome.Solution?;
          assert r == Run(ChildRun(p, cancel, children, j, limit).outcome, SumExpanded(p, cancel, children, i, j + 1, limit));
        }
      }
    }
  }

  /** The half of ChildrenOutcome where no child finds a solution. */
  lemma {:induction false} ChildrenExhausted<S, A>(p: Problem<S, A>, cancel: Node<S, A> -> bool, children: seq<Node<S, A>>,
                                                   i: nat, limit: nat, cutoffOccurred: bool)
    requires i <= |children| && limit >= 1
    ensures var r := DlsChildren(p, cancel, children, i, limit, cutoffOccurred);
      !r.outcome.Solution? ==>
        r == Run(if cutoffOccurred || exists j :: i <= j < |children| && ChildRun(p, cancel, children, j, limit).outcome.Cutoff?
                 then Cutoff else Failure,
                 SumExpanded(p, cancel, children, i, |children|, limit))
    decreases |children| - i
  {
    if i < |children| {
      var first := ChildRun(p, cancel, children, i, limit);
      var flag := cutoffOccurred || first.outcome.Cutoff?;
      ChildrenExhausted(p, cancel, children, i + 1, limit, flag);
      if !first.outcome.Solution? {
        assert (exists j :: i <= j < |children| && ChildRun(p, cancel, children, j, limit).outcome.Cutoff?)
           <==> first.outcome.Cutoff?
                || exists j :: i + 1 <= j < |children| && ChildRun(p, cancel, children, j, limit).outcome.Cutoff?;
      }
    }
  }

  /** The goal test comes first; a non-goal node at limit 0 or under cancellation cuts off; neither expands anything. */
  lemma ImmediateOutcomes<S, A>(p: Problem<S, A>, cancel: Node<S, A> -> bool, n: Node<S, A>, limit: nat)
    ensures p.isGoal(n.state) ==> Dls(p, cancel, n, limit) == Run(Solution(n), 0)
    ensures !p.isGoal(n.state) && (limit == 0 || cancel(n)) ==> Dls(p, cancel, n, limit) == Run(Cutoff, 0)
    ensures !p.isGoal(n.state) && limit > 0 && !cancel(n) && p.actions(n.state) == []
            ==> Dls(p, cancel, n, limit) == Run(Failure, 1)
  {
  }

  /**
   * A solution is a goal node reached from n by a sequence of applicable
   * actions no longer than the limit, with the path and path cost the
   * expander accumulates along it.
   */
  lemma {:induction false} Soundness<S, A>(p: Problem<S, A>, cancel: Node<S, A> -> bool, n: Node<S, A>, limit: nat)
    requires Dls(p, cancel, n, limit).outcome.Solution?
    ensures var m := Dls(p, cancel, n, limit).outcome.node;
      p.isGoal(m.state) && exists suffix :: |suffix| <= limit && Reached(p, n, suffix, m)
    decreases limit
  {
    var m := Dls(p, cancel, n, limit).outcome.node;
    if p.isGoal(n.state) {
      assert n.path + [] == n.path;
      assert Reached(p, n, [], m);
    } else {
      var kids := Expand(p, n);
      ChildrenOutcome(p, cancel, kids, 0, limit, false);
      var j :| 0 <= j < |kids| && ChildRun(p, cancel, kids, j, limit).outcome == Solution(m);
      Soundness(p, cancel, kids[j], limit - 1);
      var rest :| |rest| <= limit - 1 && Reached(p, kids[j], rest, m);
      var a := p.actions(n.state)[j];
      ReachedThroughChild(p, n, a, rest, m);
      assert |[a] + rest| <= limit && Reached(p, n, [a] + rest, m);
      assert p.isGoal(m.state);
    }
  }

  /** A solution witnesses a goal within the limit. */
  lemma SolutionWithinLimit<S, A(!new)>(p: Problem<S, A>, cancel: Node<S, A> -> bool, n: Node<S, A>, limit: nat)
    ensures Dls(p, cancel, n, limit).outcome.Solution? ==> GoalWithin(p, n.state, limit)
  {
    if Dls(p, cancel, n, limit).outcome.Solution? {
      Soundness(p, cancel, n, limit);
    }
  }

  /** Without cancellation, a goal within the limit is always found. */
  lemma {:induction false} Completeness<S, A(!new)>(p: Problem<S, A>, cancel: Node<S, A> -> bool, n: Node<S, A>, limit: nat)
    requires forall m :: !cancel(m)
    ensures GoalWithin(p, n.state, limit) ==> Dls(p, cancel, n, limit).outcome.Solution?
    decreases limit
  {
    if GoalWithin(p, n.state, limit) && !p.isGoal(n.state) {
      var acts :| ValidPath(p, n.state, acts) && |acts| <= limit && p.isGoal(Replay(p, n.state, acts));
      var a, rest := acts[0], acts[1..];
      assert acts == [a] + rest;
      PrependAction(p, n.state, a, rest);
      var j :| 0 <= j < |p.actions(n.state)| && p.actions(n.state)[j] == a;
      var kids := Expand(p, n);
      assert GoalWithin(p, kids[j].state, limit - 1);
      Completeness(p, cancel, kids[j], limit - 1);
      assert ChildRun(p, cancel, kids, j, limit).outcome.Solution?;
      ChildrenOutcome(p, cancel, kids, 0, limit, false);
    }
  }

  /** Under a Failure outcome, every applicable path within the limit is shorter than it and ends in a non-goal. */
  lemma {:induction false} FailureExcludesPath<S, A>(p: Problem<S, A>, cancel: Node<S, A> -> bool, n: Node<S, A>,
                                                     limit: nat, acts: seq<A>)
    requires Dls(p, cancel, n, limit).outcome.Failure?
    requires ValidPath(p, n.state, acts) && |acts| <= limit
    ensures |acts| < limit && !p.isGoal(Replay(p, n.state, acts))
    decreases |acts|
  {
    if acts != [] {
      var a, rest := acts[0], acts[1..];
      assert acts == [a] + rest;
      PrependAction(p, n.state, a, rest);
      var j :| 0 <= j < |p.actions(n.state)| && p.actions(n.state)[j] == a;
      var kids := Expand(p, n);
      ChildrenOutcome(p, cancel, kids, 0, limit, false);
      assert !ChildRun(p, cancel, kids, j, limit).outcome.Cutoff?;
      FailureExcludesPath(p, cancel, kids[j], limit - 1, rest);
    }
  }

  /**
   * Failure is certain, whatever calls were canceled: no goal
   * lies within the limit, and no path reaches as deep as the limit.
   */
  lemma FailureIsCertain<S, A(!new)>(p: Problem<S, A>, cancel: Node<S, A> -> bool, n: Node<S, A>, limit: nat)
    requires Dls(p, cancel, n, limit).outcome.Failure?
    ensures !GoalWithin(p, n.state, limit) && !PathOfLength(p, n.state, limit)
  {
    forall acts | ValidPath(p, n.state, acts) && |acts| <= limit
      ensures |acts| < limit && !p.isGoal(Replay(p, n.state, acts))
    {
      FailureExcludesPath(p, cancel, n, limit, acts);
    }
  }

  /** Without cancellation, a cutoff means some path of applicable actions reaches the limit. */
  lemma {:induction false} CutoffReachesLimit<S, A(!new)>(p: Problem<S, A>, cancel: Node<S, A> -> bool, n: Node<S, A>, limit: nat)
    requires forall m :: !cancel(m)
    requires Dls(p, cancel, n, limit).outcome.Cutoff?
    ensures PathOfLength(p, n.state, limit)
    decreases limit
  {
    if limit == 0 {
      assert ValidPath(p, n.state, []);
    } else {
      var kids := Expand(p, n);
      ChildrenOutcome(p, cancel, kids, 0, limit, false);
      var j :| 0 <= j < |kids| && ChildRun(p, cancel, kids, j, limit).outcome.Cutoff?;
      CutoffReachesLimit(p, cancel, kids[j], limit - 1);
      PathThroughSuccessor(p, n.state, p.actions(n.state)[j], limit - 1);
    }
  }

  /**
   * Without cancellation the outcome is determined by the problem alone:
   * Solution iff a goal lies within the limit, Cutoff iff none does but some
   * path reaches the limit, Failure iff neither.
   */
  lemma OutcomeCharacterized<S, A(!new)>(p: Problem<S, A>, cancel: Node<S, A> -> bool, n: Node<S, A>, limit: nat)
    requires forall m :: !cancel(m)
    ensures Dls(p, cancel, n, limit).outcome.Solution? <==> GoalWithin(p, n.state, limit)
    ensures Dls(p, cancel, n, limit).outcome.Cutoff?
        <==> !GoalWithin(p, n.state, limit) && PathOfLength(p, n.state, limit)
    ensures Dls(p, cancel, n, limit).outcome.Failure?
        <==> !GoalWithin(p, n.state, limit) && !PathOfLength(p, n.state, limit)
  {
    var o := Dls(p, cancel, n, limit).outcome;
    SolutionWithinLimit(p, cancel, n, limit);
    Completeness(p, cancel, n, limit);
    if o.Cutoff? {
      CutoffReachesLimit(p, cancel, n, limit);
    } else if o.Failure? {
      FailureIsCertain(p, cancel, n, limit);
    }
  }

  /**
   * Cancellation can only turn an outcome into Cutoff or into another goal:
   * a search under any oracle fails only where the uncanceled search fails,
   * and where the uncanceled search fails, it fails or cuts off.
   */
  lemma CancellationNeverFails<S, A(!new)>(p: Problem<S, A>, cancel: Node<S, A> -> bool,
                                           never: Node<S, A> -> bool, n: Node<S, A>, limit: nat)
    requires forall m :: !never(m)
    ensures Dls(p, cancel, n, limit).outcome.Failure? ==> Dls(p, never, n, limit).outcome.Failure?
    ensures Dls(p, never, n, limit).outcome.Failure? ==> !Dls(p, cancel, n, limit).outcome.Solution?
  {
    OutcomeCharacterized(p, never, n, limit);
    if Dls(p, cancel, n, limit).outcome.Failure? {
      FailureIsCertain(p, cancel, n, limit);
    }
    SolutionWithinLimit(p, cancel, n, limit);
  }

  /**
   * Every node expanded is a node of the search tree above the limit, and
   * each is expanded at most once; a search no call of which is canceled and that finds
   * no goal expands every one of them.
   */
  lemma {:induction false} ExpandedNodes<S, A(!new)>(p: Problem<S, A>, cancel: Node<S, A> -> bool, n: Node<S, A>, limit: nat)
    ensures Dls(p, cancel, n, limit).expanded <= Interior(p, n.state, limit)
    ensures (forall m :: !cancel(m)) && !GoalWithin(p, n.state, limit)
            ==> Dls(p, cancel, n, limit).expanded == Interior(p, n.state, limit)
    decreases limit, 1
  {
    if p.isGoal(n.state) {
      assert ValidPath(p, n.state, []) && Replay(p, n.state, []) == n.state;
    } else if limit != 0 && !cancel(n) {
      var kids := Expand(p, n);
      var r := DlsChildren(p, cancel, kids, 0, limit, false);
      ChildrenOutcome(p, cancel, kids, 0, limit, false);
      if r.outcome.Solution? {
        var j :| 0 <= j < |kids|
          && r == Run(ChildRun(p, cancel, kids, j, limit).outcome, SumExpanded(p, cancel, kids, 0, j + 1, limit));
        ChildrenExpanded(p, cancel, n, 0, j + 1, limit);
      } else {
        ChildrenExpanded(p, cancel, n, 0, |kids|, limit);
      }
      if !GoalWithin(p, n.state, limit) {
        NoGoalInChildren(p, cancel, n, limit);
        ChildrenExpanded(p, cancel, n, 0, |kids|, limit);
      }
    }
  }

  /** With no goal within the limit below n, no child of n has a goal within one less, and none finds a solution. */
  lemma NoGoalInChildren<S, A(!new)>(p: Problem<S, A>, cancel: Node<S, A> -> bool, n: Node<S, A>, limit: nat)
    requires limit >= 1 && !GoalWithin(p, n.state, limit)
    ensures forall k :: 0 <= k < |Expand(p, n)| ==>
      !GoalWithin(p, Expand(p, n)[k].state, limit - 1)
      && !ChildRun(p, cancel, Expand(p, n), k, limit).outcome.Solution?
  {
    var kids := Expand(p, n);
    forall k | 0 <= k < |kids|
      ensures !GoalWithin(p, kids[k].state, limit - 1)
      ensures !ChildRun(p, cancel, kids, k, limit).outcome.Solution?
    {
      GoalThroughSuccessor(p, n.state, p.actions(n.state)[k], limit - 1);
      SolutionWithinLimit(p, cancel, kids[k], limit - 1);
    }
  }

  /** The expansions of children i..j of n stay within their subtrees' interior nodes. */
  lemma {:induction false} ChildrenExpanded<S, A(!new)>(p: Problem<S, A>, cancel: Node<S, A> -> bool, n: Node<S, A>,
                                                  i: nat, j: nat, limit: nat)
    requires limit >= 1 && i <= j <= |p.actions(n.state)|
    ensures SumExpanded(p, cancel, Expand(p, n), i, j, limit)
         <= InteriorOf(p, n.state, p.actions(n.state), i, limit)
    ensures (forall m :: !cancel(m)) && j == |p.actions(n.state)|
            && (forall k :: i <= k < j ==> !GoalWithin(p, Expand(p, n)[k].state, limit - 1))
            ==> (SumExpanded(p, cancel, Expand(p, n), i, j, limit)
                 == InteriorOf(p, n.state, p.actions(n.state), i, limit))
    decreases limit, 0, j - i
  {
    var kids := Expand(p, n);
    if i < j {
      ExpandedNodes(p, cancel, kids[i], limit - 1);
      ChildrenExpanded(p, cancel, n, i + 1, j, limit);
    }
  }
}
