/**
 * The collaborators the depth-limited search relies on: the problem it is
 * asked to solve, the search-tree nodes, and the node expander that builds a
 * node's children. The search only calls these; they are stated here as
 * plain values so that the search can be specified against them.
 *
 * Beside them stand the reference notions the search is judged by: replaying
 * a sequence of actions from a state, whether a goal lies within k actions,
 * whether a path of exactly k actions exists, and how many nodes the search
 * tree has above depth k.
 */
module SearchFramework {

  datatype Option<T> = None | Some(value: T)

  /**
   * A search problem: its initial state, the actions applicable in a state
   * (in the order the problem lists them), the transition function, the
   * step cost, and the goal test.
   */
  datatype Problem<!S, !A> = Problem(
    initialState: S,
    actions: S -> seq<A>,
    result: (S, A) -> S,
    stepCost: (S, A, S) -> int,
    isGoal: S -> bool)

  /**
   * A search-tree node: its state, the actions that led to it from the root
   * (which the parent links of the original node encode), and the path cost
   * accumulated along them. The depth of a node is |path|.
   */
  datatype Node<S, A> = Node(state: S, path: seq<A>, pathCost: int)

  /** The node the expander creates for the initial state. */
  function RootNode<S, A>(s: S): Node<S, A>
  {
    Node(s, [], 0)
  }

  /** The child of n reached by action a. */
  function ChildNode<S, A>(p: Problem<S, A>, n: Node<S, A>, a: A): Node<S, A>
  {
    var next := p.result(n.state, a);
    Node(next, n.path + [a], n.pathCost + p.stepCost(n.state, a, next))
  }

  /** The expander: one child per applicable action, in the problem's order. */
  function Expand<S, A>(p: Problem<S, A>, n: Node<S, A>): (children: seq<Node<S, A>>)
    ensures |children| == |p.actions(n.state)|
  {
    var acts := p.actions(n.state);
    seq(|acts|, i requires 0 <= i < |acts| => ChildNode(p, n, acts[i]))
  }

  /** Every action of acts is applicable in the state it is applied to. */
  ghost predicate ValidPath<S, A>(p: Problem<S, A>, s: S, acts: seq<A>)
    decreases |acts|
  {
    acts == [] || (acts[0] in p.actions(s) && ValidPath(p, p.result(s, acts[0]), acts[1..]))
  }

  /** The state reached from s by applying acts in order. */
  function Replay<S, A>(p: Problem<S, A>, s: S, acts: seq<A>): S
    decreases |acts|
  {
    if acts == [] then s else Replay(p, p.result(s, acts[0]), acts[1..])
  }

  /** The summed step costs of applying acts in order from s. */
  function PathCost<S, A>(p: Problem<S, A>, s: S, acts: seq<A>): int
    decreases |acts|
  {
    if acts == [] then 0
    else
      var next := p.result(s, acts[0]);
      p.stepCost(s, acts[0], next) + PathCost(p, next, acts[1..])
  }

  /** Prepending one action to a path: how each of the three notions unfolds. */
  lemma PrependAction<S, A>(p: Problem<S, A>, s: S, a: A, rest: seq<A>)
    ensures ValidPath(p, s, [a] + rest) <==> a in p.actions(s) && ValidPath(p, p.result(s, a), rest)
    ensures Replay(p, s, [a] + rest) == Replay(p, p.result(s, a), rest)
    ensures PathCost(p, s, [a] + rest)
         == p.stepCost(s, a, p.result(s, a)) + PathCost(p, p.result(s, a), rest)
  {
    assert ([a] + rest)[1..] == rest;
  }

  /** Some applicable sequence of at most k actions leads from s to a goal state. */
  ghost predicate GoalWithin<S, A(!new)>(p: Problem<S, A>, s: S, k: nat)
  {
    exists acts :: ValidPath(p, s, acts) && |acts| <= k && p.isGoal(Replay(p, s, acts))
  }

  /** Some applicable sequence of exactly k actions starts at s. */
  ghost predicate PathOfLength<S, A(!new)>(p: Problem<S, A>, s: S, k: nat)
  {
    exists acts :: ValidPath(p, s, acts) && |acts| == k
  }

  /**
   * The number of nodes of the search tree rooted at s that lie at depth
   * less than k: the nodes whose children a search limited to k would have
   * to enumerate. Duplicate actions give duplicate subtrees, as they do in
   * the expander.
   */
  function Interior<S, A>(p: Problem<S, A>, s: S, k: nat): nat
    decreases k, 1
  {
    if k == 0 then 0 else 1 + InteriorOf(p, s, p.actions(s), 0, k)
  }

  /** The sum of Interior(child, k - 1) over the children of s for acts[i..]. */
  function InteriorOf<S, A>(p: Problem<S, A>, s: S, acts: seq<A>, i: nat, k: nat): nat
    requires i <= |acts| && k >= 1
    decreases k, 0, |acts| - i
  {
    if i == |acts| then 0
    else Interior(p, p.result(s, acts[i]), k - 1) + InteriorOf(p, s, acts, i + 1, k)
  }

  /** A goal within k actions of a successor of s is a goal within k + 1 actions of s. */
  lemma GoalThroughSuccessor<S, A(!new)>(p: Problem<S, A>, s: S, a: A, k: nat)
    requires a in p.actions(s)
    ensures GoalWithin(p, p.result(s, a), k) ==> GoalWithin(p, s, k + 1)
  {
    if GoalWithin(p, p.result(s, a), k) {
      var rest :| ValidPath(p, p.result(s, a), rest) && |rest| <= k
                  && p.isGoal(Replay(p, p.result(s, a), rest));
      PrependAction(p, s, a, rest);
      assert ValidPath(p, s, [a] + rest) && |[a] + rest| <= k + 1;
    }
  }

  /** A path of k actions from a successor of s extends to a path of k + 1 actions from s. */
  lemma PathThroughSuccessor<S, A(!new)>(p: Problem<S, A>, s: S, a: A, k: nat)
    requires a in p.actions(s)
    ensures PathOfLength(p, p.result(s, a), k) ==> PathOfLength(p, s, k + 1)
  {
    if PathOfLength(p, p.result(s, a), k) {
      var rest :| ValidPath(p, p.result(s, a), rest) && |rest| == k;
      PrependAction(p, s, a, rest);
      assert ValidPath(p, s, [a] + rest) && |[a] + rest| == k + 1;
    }
  }

  /**
   * m is reached from n by the applicable actions suffix: its path extends
   * n's by suffix, and its state and path cost are those of replaying suffix.
   */
  ghost predicate Reached<S, A>(p: Problem<S, A>, n: Node<S, A>, suffix: seq<A>, m: Node<S, A>)
  {
    && ValidPath(p, n.state, suffix)
    && m.path == n.path + suffix
    && m.state == Replay(p, n.state, suffix)
    && m.pathCost == n.pathCost + PathCost(p, n.state, suffix)
  }

  /** What is reached from a child of n by rest is reached from n by the child's action followed by rest. */
  lemma ReachedThroughChild<S, A>(p: Problem<S, A>, n: Node<S, A>, a: A, rest: seq<A>, m: Node<S, A>)
    requires a in p.actions(n.state)
    requires Reached(p, ChildNode(p, n, a), rest, m)
    ensures Reached(p, n, [a] + rest, m)
  {
    PrependAction(p, n.state, a, rest);
    assert n.path + [a] + rest == n.path + ([a] + rest);
  }
}
