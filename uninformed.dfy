/**
 * The DepthLimitedSearch object: a depth limit, the expander's parent-link
 * mode and two metrics (nodes expanded, path cost of the solution found) that
 * every search resets and then updates in place. Its recursive search is a
 * method with the original's loop over the children, proved to compute
 * DepthLimited.Dls and to leave in the metrics what Dls counts.
 *
 * The process-wide cancellation flag is passed in as the oracle `cancel`:
 * cancel(m) is the value the flag has when the call for node m polls it.
 */
module Uninformed {
  import opened SearchFramework
  import opened DepthLimited

  /** The action list of a solution node; a node at the root gets the single NoOp action. */
  function SequenceOfActions<S, A>(n: Node<S, A>, noOp: A): (acts: seq<A>)
    ensures acts != []
  {
    if n.path == [] then [noOp] else n.path
  }

  /** What findActions makes of an outcome: cutoff and failure both become the empty list. */
  function ActionsOf<S, A>(o: Outcome<S, A>, noOp: A): (acts: seq<A>)
    ensures acts == [] <==> !o.Solution?
  {
    if o.Solution? then SequenceOfActions(o.node, noOp) else []
  }

  /** What findState makes of an outcome: cutoff and failure both become null. */
  function StateOf<S, A>(o: Outcome<S, A>): (s: Option<S>)
    ensures s.Some? <==> o.Solution?
    ensures s.Some? ==> s.value == o.node.state
  {
    if o.Solution? then Some(o.node.state) else None
  }

  class DepthLimitedSearch<S, A> {
    const limit: nat
    /** The NoOp action that stands for "already at the goal". */
    const noOp: A
    /** Metric "nodesExpanded". */
    var nodesExpanded: nat
    /** Metric "pathCost". */
    var pathCost: int
    /** Whether the node expander keeps parent links. */
    var useParentLinks: bool

    constructor (limit: nat, noOp: A)
      ensures this.limit == limit && this.noOp == noOp
      ensures nodesExpanded == 0 && pathCost == 0
      ensures useParentLinks
    {
      this.limit := limit;
      this.noOp := noOp;
      nodesExpanded := 0;
      pathCost := 0;
      useParentLinks := true;
    }

    /** The run a search of p from its initial state with this object's limit performs. */
    function Searched(p: Problem<S, A>, cancel: Node<S, A> -> bool): Run<S, A>
    {
      Dls(p, cancel, RootNode(p.initialState), limit)
    }

    method ClearInstrumentation()
      modifies this`nodesExpanded, this`pathCost
      ensures nodesExpanded == 0 && pathCost == 0
    {
      nodesExpanded := 0;
      pathCost := 0;
    }

    /**
     * RECURSIVE-DLS: returns the outcome Dls specifies, adds to nodesExpanded
     * the expansions it counts, and sets pathCost exactly when a solution is
     * found, to that solution's path cost.
     */
    method RecursiveDls(p: Problem<S, A>, cancel: Node<S, A> -> bool, node: Node<S, A>, limit: nat) returns (r: Outcome<S, A>)
      modifies this`nodesExpanded, this`pathCost
      ensures r == Dls(p, cancel, node, limit).outcome
      ensures nodesExpanded == old(nodesExpanded) + Dls(p, cancel, node, limit).expanded
      ensures pathCost == if r.Solution? then r.node.pathCost else old(pathCost)
      decreases limit
    {
      if p.isGoal(node.state) {
        pathCost := node.pathCost;
        return Solution(node);
      } else if limit == 0 || cancel(node) {
        return Cutoff;
      }
      var cutoffOccurred := false;
      nodesExpanded := nodesExpanded + 1;
      var children := Expand(p, node);
      ghost var total := DlsChildren(p, cancel, children, 0, limit, false);
      var i := 0;
      while i < |children|
        invariant 0 <= i <= |children|
        invariant DlsChildren(p, cancel, children, i, limit, cutoffOccurred).outcome == total.outcome
        invariant nodesExpanded + DlsChildren(p, cancel, children, i, limit, cutoffOccurred).expanded
               == old(nodesExpanded) + 1 + total.expanded
        invariant pathCost == old(pathCost)
      {
        var result := RecursiveDls(p, cancel, children[i], limit - 1);
        if result.Cutoff? {
          cutoffOccurred := true;
        } else if result.Solution? {
          return result;
        }
        i := i + 1;
      }
      if cutoffOccurred {
        return Cutoff;
      } else {
        return Failure;
      }
    }

    /** Resets the metrics and searches from the root node of p's initial state. */
    method FindNode(p: Problem<S, A>, cancel: Node<S, A> -> bool) returns (r: Outcome<S, A>)
      modifies this`nodesExpanded, this`pathCost
      ensures r == Searched(p, cancel).outcome
      ensures nodesExpanded == Searched(p, cancel).expanded
      ensures pathCost == if r.Solution? then r.node.pathCost else 0
    {
      ClearInstrumentation();
      r := RecursiveDls(p, cancel, RootNode(p.initialState), limit);
    }

    /** The actions to a goal, [noOp] when the initial state is one, [] on cutoff or failure. */
    method FindActions(p: Problem<S, A>, cancel: Node<S, A> -> bool) returns (acts: seq<A>)
      modifies this`nodesExpanded, this`pathCost, this`useParentLinks
      ensures useParentLinks
      ensures acts == ActionsOf(Searched(p, cancel).outcome, noOp)
      ensures nodesExpanded == Searched(p, cancel).expanded
      ensures pathCost == if acts != [] then Searched(p, cancel).outcome.node.pathCost else 0
    {
      useParentLinks := true;
      var node := FindNode(p, cancel);
      acts := if node.Failure? || node.Cutoff? then [] else SequenceOfActions(node.node, noOp);
    }

    /** The goal state found, None on cutoff or failure. */
    method FindState(p: Problem<S, A>, cancel: Node<S, A> -> bool) returns (s: Option<S>)
      modifies this`nodesExpanded, this`pathCost, this`useParentLinks
      ensures !useParentLinks
      ensures s == StateOf(Searched(p, cancel).outcome)
      ensures nodesExpanded == Searched(p, cancel).expanded
      ensures pathCost == if s.Some? then Searched(p, cancel).outcome.node.pathCost else 0
    {
      useParentLinks := false;
      var node := FindNode(p, cancel);
      s := if node.Failure? || node.Cutoff? then None else Some(node.node.state);
    }
  }

  /**
   * findActions' answer: [noOp] when the initial state is a goal, whatever
   * the limit; otherwise, when not empty, applicable actions, no more than
   * the limit, that lead from the initial state to a goal, with the path
   * cost metric their summed step cost. Empty exactly when no goal lies
   * within the limit, if no call is canceled; exactly when the initial
   * state is not a goal, if the call for the root is.
   */
  lemma FindActionsResult<S, A(!new)>(p: Problem<S, A>, cancel: Node<S, A> -> bool, limit: nat, noOp: A)
    ensures var o := Dls(p, cancel, RootNode(p.initialState), limit).outcome;
      var acts := ActionsOf(o, noOp);
      (p.isGoal(p.initialState) ==> acts == [noOp]) &&
      (!p.isGoal(p.initialState) && acts != [] ==>
         ValidPath(p, p.initialState, acts) && |acts| <= limit
         && p.isGoal(Replay(p, p.initialState, acts))
         && o.node.pathCost == PathCost(p, p.initialState, acts)) &&
      ((forall m :: !cancel(m)) ==> (acts == [] <==> !GoalWithin(p, p.initialState, limit))) &&
      (cancel(RootNode(p.initialState)) ==> (acts == [] <==> !p.isGoal(p.initialState)))
  {
    var root: Node<S, A> := RootNode(p.initialState);
    var o := Dls(p, cancel, root, limit).outcome;
    if o.Solution? && !p.isGoal(p.initialState) {
      Soundness(p, cancel, root, limit);
      var suffix :| |suffix| <= limit && Reached(p, root, suffix, o.node);
      assert o.node.path == suffix;
    }
    if forall m :: !cancel(m) {
      OutcomeCharacterized(p, cancel, root, limit);
    }
  }

  /**
   * findState's answer: a goal state reachable by applicable actions within
   * the limit; absent exactly when no goal lies within the limit, if no
   * call is canceled; the initial state or absent, if the call for the root is.
   */
  lemma FindStateResult<S, A(!new)>(p: Problem<S, A>, cancel: Node<S, A> -> bool, limit: nat)
    ensures var s := StateOf(Dls(p, cancel, RootNode(p.initialState), limit).outcome);
      (s.Some? ==> p.isGoal(s.value)
                   && exists acts :: ValidPath(p, p.initialState, acts) && |acts| <= limit
                                     && Replay(p, p.initialState, acts) == s.value) &&
      ((forall m :: !cancel(m)) ==> (s.Some? <==> GoalWithin(p, p.initialState, limit))) &&
      (cancel(RootNode(p.initialState)) ==> s == if p.isGoal(p.initialState) then Some(p.initialState) else None)
  {
    var root: Node<S, A> := RootNode(p.initialState);
    var o := Dls(p, cancel, root, limit).outcome;
    if o.Solution? {
      Soundness(p, cancel, root, limit);
    }
    if forall m :: !cancel(m) {
      OutcomeCharacterized(p, cancel, root, limit);
    }
  }
}
