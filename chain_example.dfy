/**
 * A worked example: the chain A -> B -> C -> D with D the goal and unit
 * step costs (states 0..3, the action taken in state s is s itself).
 * With limit 3 the search finds D by three actions after expanding A, B and
 * C; with limit 2 it cuts off after expanding A and B; a limit of 5 finds the
 * same solution with the same work as 3. When the cancellation flag is raised
 * as the call for B polls it, limit 3 cuts off after expanding A alone.
 */
module ChainExample {
  import opened SearchFramework
  import opened DepthLimited

  function Chain(): Problem<int, int>
  {
    Problem(0, s => if 0 <= s < 3 then [s] else [], (s, a) => s + 1, (s, a, t) => 1, s => s == 3)
  }

  /** The oracle of a search no call of which is canceled. */
  function Never(): Node<int, int> -> bool
  {
    m => false
  }

  /** The chain's nodes, each with its single child. */
  lemma ChainExpansions()
    ensures Expand(Chain(), RootNode(0)) == [Node(1, [0], 1)]
    ensures Expand(Chain(), Node(1, [0], 1)) == [Node(2, [0, 1], 2)]
    ensures Expand(Chain(), Node(2, [0, 1], 2)) == [Node(3, [0, 1, 2], 3)]
  {
    var p := Chain();
    var a: Node<int, int> := RootNode(0);
    var b, c, d := Node(1, [0], 1), Node(2, [0, 1], 2), Node(3, [0, 1, 2], 3);
    assert p.actions(0) == [0] && ChildNode(p, a, 0) == b;
    assert |Expand(p, a)| == 1 && Expand(p, a)[0] == b;
    assert p.actions(1) == [1] && ChildNode(p, b, 1) == c;
    assert |Expand(p, b)| == 1 && Expand(p, b)[0] == c;
    assert p.actions(2) == [2] && ChildNode(p, c, 2) == d;
    assert |Expand(p, c)| == 1 && Expand(p, c)[0] == d;
  }

  /** From C, any limit of at least 1 finds D after expanding C. */
  lemma ChainFromC(k: nat)
    requires k >= 1
    ensures Dls(Chain(), Never(), Node(2, [0, 1], 2), k) == Run(Solution(Node(3, [0, 1, 2], 3)), 1)
  {
    ChainExpansions();
    assert DlsChildren(Chain(), Never(), [Node(3, [0, 1, 2], 3)], 0, k, false)
        == Run(Solution(Node(3, [0, 1, 2], 3)), 0);
  }

  /** From B, any limit of at least 2 finds D after expanding B and C. */
  lemma ChainFromB(k: nat)
    requires k >= 2
    ensures Dls(Chain(), Never(), Node(1, [0], 1), k) == Run(Solution(Node(3, [0, 1, 2], 3)), 2)
  {
    ChainExpansions();
    ChainFromC(k - 1);
    assert DlsChildren(Chain(), Never(), [Node(2, [0, 1], 2)], 0, k, false)
        == Run(Solution(Node(3, [0, 1, 2], 3)), 1);
  }

  /** From A, any limit of at least 3 finds D after expanding A, B and C. */
  lemma ChainFromA(k: nat)
    requires k >= 3
    ensures Dls(Chain(), Never(), RootNode(0), k) == Run(Solution(Node(3, [0, 1, 2], 3)), 3)
  {
    ChainExpansions();
    ChainFromB(k - 1);
    assert DlsChildren(Chain(), Never(), [Node(1, [0], 1)], 0, k, false)
        == Run(Solution(Node(3, [0, 1, 2], 3)), 2);
  }

  /** From B with limit 1, C is reached with limit 0 and cuts off, after expanding B. */
  lemma ChainCutoffFromB()
    ensures Dls(Chain(), Never(), Node(1, [0], 1), 1) == Run(Cutoff, 1)
  {
    var p := Chain();
    var b, c := Node(1, [0], 1), Node(2, [0, 1], 2);
    ChainExpansions();
    assert !p.isGoal(b.state) && !Never()(b);
    assert Dls(p, Never(), c, 0) == Run(Cutoff, 0);
    assert DlsChildren(p, Never(), [c], 1, 1, true) == Run(Cutoff, 0);
    assert DlsChildren(p, Never(), [c], 0, 1, false) == Run(Cutoff, 0);
  }

  /** A loop over a single child that cuts off cuts off, with the child's expansions. */
  lemma SingleChildCutoff(p: Problem<int, int>, c: Node<int, int>, limit: nat)
    requires limit >= 1 && Dls(p, Never(), c, limit - 1).outcome.Cutoff?
    ensures DlsChildren(p, Never(), [c], 0, limit, false) == Run(Cutoff, Dls(p, Never(), c, limit - 1).expanded)
  {
    assert DlsChildren(p, Never(), [c], 1, limit, true) == Run(Cutoff, 0);
  }

  /** A's loop over its single child B passes up B's cutoff and B's one expansion. */
  lemma ChainLoopAtA()
    ensures DlsChildren(Chain(), Never(), [Node(1, [0], 1)], 0, 2, false) == Run(Cutoff, 1)
  {
    ChainCutoffFromB();
    SingleChildCutoff(Chain(), Node(1, [0], 1), 2);
  }

  /** From A with limit 2, the cutoff below B is passed up, after expanding A and B. */
  lemma ChainCutoff()
    ensures Dls(Chain(), Never(), RootNode(0), 2) == Run(Cutoff, 2)
  {
    ChainExpansions();
    ChainLoopAtA();
  }

  /** The oracle of a search whose flag is raised when the call for B polls it. */
  function CanceledAtB(): Node<int, int> -> bool
  {
    (m: Node<int, int>) => m.state == 1
  }

  /**
   * With the flag raised at B, a search from A with limit 3 cuts off below A
   * after expanding A alone, although D lies within the limit.
   */
  lemma ChainCanceled()
    ensures Dls(Chain(), CanceledAtB(), RootNode(0), 3) == Run(Cutoff, 1)
  {
    var p := Chain();
    var b := Node(1, [0], 1);
    ChainExpansions();
    assert Dls(p, CanceledAtB(), b, 2) == Run(Cutoff, 0);
    assert DlsChildren(p, CanceledAtB(), [b], 1, 3, true) == Run(Cutoff, 0);
    assert DlsChildren(p, CanceledAtB(), [b], 0, 3, false) == Run(Cutoff, 0);
  }

  lemma ChainSearch()
    ensures Dls(Chain(), Never(), RootNode(0), 3) == Run(Solution(Node(3, [0, 1, 2], 3)), 3)
    ensures Dls(Chain(), Never(), RootNode(0), 2) == Run(Cutoff, 2)
    ensures Dls(Chain(), Never(), RootNode(0), 5) == Run(Solution(Node(3, [0, 1, 2], 3)), 3)
  {
    ChainFromA(3);
    ChainFromA(5);
    ChainCutoff();
  }
}
