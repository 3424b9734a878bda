/** Network-guided Monte Carlo tree search (pv_mcts.py).

    The tree is an explicit value: a node carries its position, its prior `p`,
    its accumulated value `w`, its visit count `n`, and its children once it
    has been expanded. The network is a function from positions to a raw
    policy over the nine cells and a value; the PUCT choice of a child is a
    function from the children to an index. */
module PvMcts {
  import opened Scores
  import opened Game

  /** Simulations per search (PV_EVALUATE_COUNT). */
  const PvEvaluateCount: nat := 50

  /** What the network returns for a position: one policy entry per cell and a value. */
  datatype Prediction = Prediction(policy: seq<real>, value: real)

  type Network = State -> Prediction

  /** The PUCT rule, abstracted: the index of the child to descend into. */
  type Selector = seq<Node> -> nat

  datatype Node = Node(state: State, p: real, w: real, n: nat, expanded: bool, children: seq<Node>)

  /** The outcome of one `evaluate` call: the updated node and the value it returned. */
  datatype Evaluation = Evaluation(node: Node, value: real)

  ghost predicate ValidNet(net: Network) {
    forall s: State :: |net(s).policy| == CellCount
  }

  ghost predicate ValidSelector(select: Selector) {
    forall cs: seq<Node> :: |cs| > 0 ==> select(cs) < |cs|
  }

  function Scale(xs: seq<real>, d: real): (r: seq<real>)
    requires d != 0.0
    ensures |r| == |xs|
    ensures forall j :: 0 <= j < |xs| ==> r[j] == xs[j] / d
  {
    seq(|xs|, j requires 0 <= j < |xs| => xs[j] / d)
  }

  lemma {:induction false} SumScale(xs: seq<real>, d: real)
    requires d != 0.0
    ensures Sum(Scale(xs, d)) == Sum(xs) / d
  {
    if xs != [] {
      SumScale(xs[..|xs| - 1], d);
      assert Scale(xs, d)[..|xs| - 1] == Scale(xs[..|xs| - 1], d);
    }
  }

  /** The raw policy entries of the given cells, in order. */
  function Gather(raw: seq<real>, cells: seq<int>): (r: seq<real>)
    requires forall j :: 0 <= j < |cells| ==> 0 <= cells[j] < |raw|
    ensures |r| == |cells|
    ensures forall j :: 0 <= j < |cells| ==> r[j] == raw[cells[j]]
  {
    seq(|cells|, j requires 0 <= j < |cells| => raw[cells[j]])
  }

  /** Lines 24-25 of predict: keep the legal entries and divide them by their
      total, or by 1 when the total is zero. */
  function LegalPolicies(raw: seq<real>, legal: seq<int>): (r: seq<real>)
    requires forall j :: 0 <= j < |legal| ==> 0 <= legal[j] < |raw|
    ensures |r| == |legal|
    ensures Sum(Gather(raw, legal)) != 0.0 ==>
      Sum(r) == 1.0 && forall j :: 0 <= j < |r| ==> r[j] == raw[legal[j]] / Sum(Gather(raw, legal))
    ensures Sum(Gather(raw, legal)) == 0.0 ==> r == Gather(raw, legal)
  {
    var g := Gather(raw, legal);
    var mass := Sum(g);
    if mass != 0.0 then
      SumScale(g, mass);
      assert Sum(g) / mass == 1.0;
      Scale(g, mass)
    else g
  }

  /** predict: the legal policy and the value of the network for s. */
  function Predict(net: Network, s: State): (r: Prediction)
    requires ValidNet(net) && s.WellFormed()
    ensures |r.policy| == |s.Legal()| && r.value == net(s).value
  {
    LegalAllEmpty(s);
    Prediction(LegalPolicies(net(s).policy, s.Legal()), net(s).value)
  }

  /** What a finished position is worth to its side to move: -1 lost, 0 drawn. */
  function TerminalValue(s: State): real
    requires s.WellFormed()
  {
    if s.Lost() then -1.0 else 0.0
  }

  function Leaf(s: State, p: real): Node {
    Node(s, p, 0.0, 0, false, [])
  }

  /** One fresh child per legal move, in the order of the legal moves, each
      with the policy entry of its move as prior. */
  function Expand(s: State, policies: seq<real>): (cs: seq<Node>)
    requires s.WellFormed() && |policies| == |s.Legal()|
    ensures |cs| == |s.Legal()|
  {
    LegalAllEmpty(s);
    seq(|s.Legal()|, j requires 0 <= j < |s.Legal()| => Leaf(s.Next(s.Legal()[j]), policies[j]))
  }

  function SumN(cs: seq<Node>): nat {
    if cs == [] then 0 else cs[0].n + SumN(cs[1..])
  }

  function SumW(cs: seq<Node>): real {
    if cs == [] then 0.0 else cs[0].w + SumW(cs[1..])
  }

  lemma {:induction false} SumsUpdate(cs: seq<Node>, k: int, c: Node)
    requires 0 <= k < |cs|
    ensures SumN(cs[k := c]) == SumN(cs) - cs[k].n + c.n
    ensures SumW(cs[k := c]) == SumW(cs) - cs[k].w + c.w
  {
    if k > 0 {
      SumsUpdate(cs[1..], k - 1, c);
      assert cs[k := c][1..] == cs[1..][k - 1 := c];
    }
  }

  lemma {:induction false} SumsOfLeaves(cs: seq<Node>)
    requires forall j :: 0 <= j < |cs| ==> cs[j].n == 0 && cs[j].w == 0.0
    ensures SumN(cs) == 0 && SumW(cs) == 0.0
  {
    if cs != [] {
      SumsOfLeaves(cs[1..]);
    }
  }

  /** The tree invariant. A finished position is never expanded and has
      accumulated its terminal value once per visit. An unexpanded open
      position has not been visited. An expanded node has one child per legal
      move, in order, with the network's prior for that move; it was visited
      once when it was expanded and once per visit of a child; and its value
      is the network's value minus what the children accumulated, because every
      value backed up from a child is negated. */
  ghost predicate Valid(node: Node, net: Network)
    requires ValidNet(net)
    decreases node
  {
    && node.state.Balanced()
    && (node.state.Done() ==> !node.expanded && node.w == node.n as real * TerminalValue(node.state))
    && (!node.expanded ==> node.children == [])
    && (!node.state.Done() && !node.expanded ==> node.n == 0 && node.w == 0.0)
    && (node.expanded ==>
          && !node.state.Done()
          && |node.children| == |node.state.Legal()| > 0
          && node.n == 1 + SumN(node.children)
          && node.w == net(node.state).value - SumW(node.children)
          && forall j :: 0 <= j < |node.children| ==>
               && node.state.IsEmpty(node.state.Legal()[j])
               && node.children[j].state == node.state.Next(node.state.Legal()[j])
               && node.children[j].p == Predict(net, node.state).policy[j]
               && Valid(node.children[j], net))
  }

  lemma LeavesValid(s: State, net: Network)
    requires ValidNet(net) && s.Balanced() && !s.Done()
    ensures forall j :: 0 <= j < |s.Legal()| ==>
      s.IsEmpty(s.Legal()[j]) && Valid(Expand(s, Predict(net, s).policy)[j], net)
  {
    LegalAllEmpty(s);
    forall j | 0 <= j < |s.Legal()|
      ensures Valid(Expand(s, Predict(net, s).policy)[j], net)
    {
      NextBalanced(s, s.Legal()[j]);
    }
  }

  /** A finished position visited once more has accumulated its terminal value once more. */
  lemma TerminalValid(node: Node, net: Network)
    requires ValidNet(net) && Valid(node, net) && node.state.Done()
    ensures Valid(node.(w := node.w + TerminalValue(node.state), n := node.n + 1), net)
  {
  }

  lemma ChildValid(node: Node, net: Network, k: int)
    requires ValidNet(net) && Valid(node, net) && node.expanded && 0 <= k < |node.children|
    ensures Valid(node.children[k], net)
  {
  }

  /** A node after its first visit: expanded with the network's policy. */
  function Expanded(node: Node, net: Network): (r: Node)
    requires ValidNet(net) && node.state.Balanced() && !node.state.Done()
  {
    var pr := Predict(net, node.state);
    node.(w := node.w + pr.value, n := node.n + 1, expanded := true,
          children := Expand(node.state, pr.policy))
  }

  lemma ExpandedValid(node: Node, net: Network)
    requires ValidNet(net) && Valid(node, net) && !node.state.Done() && !node.expanded
    ensures Valid(Expanded(node, net), net)
  {
    var cs := Expanded(node, net).children;
    LeavesValid(node.state, net);
    SumsOfLeaves(cs);
    NotDoneHasMove(node.state);
  }

  /** The update of an expanded node after child k returned `v`: the child is
      replaced and the node backs up -v. */
  lemma BackedUpValid(node: Node, net: Network, k: int, c: Node, v: real)
    requires ValidNet(net) && Valid(node, net) && node.expanded
    requires 0 <= k < |node.children| && Valid(c, net)
    requires c.state == node.children[k].state && c.p == node.children[k].p
    requires c.n == node.children[k].n + 1 && c.w == node.children[k].w + v
    ensures Valid(node.(w := node.w - v, n := node.n + 1, children := node.children[k := c]), net)
  {
    SumsUpdate(node.children, k, c);
  }

  /** evaluate: one simulation from `node`. A finished position scores its
      terminal value; an open position visited for the first time is expanded
      with the network's policy and scores the network's value; otherwise the
      selected child is evaluated and its value is backed up negated. Each call
      adds one visit and adds the returned value to `w`. */
  function Evaluate(node: Node, net: Network, select: Selector): (e: Evaluation)
    requires ValidNet(net) && ValidSelector(select) && Valid(node, net)
    decreases node
    ensures Valid(e.node, net)
    ensures e.node.state == node.state && e.node.p == node.p
    ensures e.node.n == node.n + 1 && e.node.w == node.w + e.value
    ensures node.state.Done() ==> !e.node.expanded && e.value == TerminalValue(node.state)
    ensures !node.state.Done() ==> e.node.expanded
  {
    if node.state.Done() then
      var v := TerminalValue(node.state);
      TerminalValid(node, net);
      Evaluation(node.(w := node.w + v, n := node.n + 1), v)
    else if !node.expanded then
      ExpandedValid(node, net);
      Evaluation(Expanded(node, net), net(node.state).value)
    else
      var k := select(node.children);
      ChildValid(node, net, k);
      var child := Evaluate(node.children[k], net, select);
      BackedUpValid(node, net, k, child.node, child.value);
      BackUp(node, k, child)
  }

  /** The node after child k's visit returned `e`: the child is replaced and
      the node backs up the negated value. */
  function BackUp(node: Node, k: nat, e: Evaluation): Evaluation
    requires k < |node.children|
  {
    Evaluation(node.(w := node.w - e.value, n := node.n + 1, children := node.children[k := e.node]), -e.value)
  }

  /** The first visit of an open position creates one fresh child per legal
      move, with that move's prior, and returns the network's value. */
  lemma EvaluateExpands(node: Node, net: Network, select: Selector)
    requires ValidNet(net) && ValidSelector(select) && Valid(node, net)
    requires !node.state.Done() && !node.expanded
    ensures Evaluate(node, net, select).value == net(node.state).value
    ensures Evaluate(node, net, select).node.children == Expand(node.state, Predict(net, node.state).policy)
    ensures forall j :: 0 <= j < |node.state.Legal()| ==>
      Evaluate(node, net, select).node.children[j]
        == Leaf(node.state.Next(node.state.Legal()[j]), Predict(net, node.state).policy[j])
  {
    LegalAllEmpty(node.state);
  }

  /** The child that receives the visit in an expanded node returns the value the
      node backs up, negated. */
  lemma EvaluateNegatesChild(node: Node, net: Network, select: Selector)
    requires ValidNet(net) && ValidSelector(select) && Valid(node, net) && node.expanded
    ensures select(node.children) < |node.children|
    ensures Evaluate(node, net, select).value ==
      -Evaluate(node.children[select(node.children)], net, select).value
    ensures Evaluate(node, net, select).node.children ==
      node.children[select(node.children) := Evaluate(node.children[select(node.children)], net, select).node]
  {
  }

  /** A visit to an expanded node, written with the selected child's outcome. */
  lemma EvaluateBacksUp(node: Node, net: Network, select: Selector, child: Node, childValue: real)
    requires ValidNet(net) && ValidSelector(select) && Valid(node, net) && node.expanded
    requires select(node.children) < |node.children|
    requires Evaluation(child, childValue) == Evaluate(node.children[select(node.children)], net, select)
    ensures Evaluate(node, net, select) == BackUp(node, select(node.children), Evaluation(child, childValue))
  {
  }

  /** The expansion loop of evaluate: one child per (legal move, prior) pair. */
  method ExpandChildren(s: State, policies: seq<real>) returns (cs: seq<Node>)
    requires s.WellFormed() && |policies| == |s.Legal()|
    ensures cs == Expand(s, policies)
  {
    var legal := LegalActions(s);
    LegalAllEmpty(s);
    cs := [];
    var j := 0;
    while j < |legal|
      invariant 0 <= j <= |legal| && |cs| == j
      invariant forall i :: 0 <= i < j ==> cs[i] == Leaf(s.Next(legal[i]), policies[i])
    {
      cs := cs + [Leaf(s.Next(legal[j]), policies[j])];
      j := j + 1;
    }
  }

  /** The visit of a finished position: it scores -1 when lost and 0 when drawn. */
  method VisitTerminal(node: Node, net: Network, select: Selector) returns (updated: Node, value: real)
    requires ValidNet(net) && ValidSelector(select) && Valid(node, net) && node.state.Done()
    ensures Evaluation(updated, value) == Evaluate(node, net, select)
  {
    var lost := IsLose(node.state);
    value := if lost then -1.0 else 0.0;
    updated := node.(w := node.w + value, n := node.n + 1);
  }

  /** The first visit of an open position: ask the network and expand. */
  method VisitLeaf(node: Node, net: Network, select: Selector) returns (updated: Node, value: real)
    requires ValidNet(net) && ValidSelector(select) && Valid(node, net)
    requires !node.state.Done() && !node.expanded
    ensures Evaluation(updated, value) == Evaluate(node, net, select)
  {
    var pr := Predict(net, node.state);
    value := pr.value;
    var cs := ExpandChildren(node.state, pr.policy);
    updated := node.(w := node.w + value, n := node.n + 1, expanded := true, children := cs);
  }

  /** evaluate as the node updates it performs: the updated node and the
      value returned, which is what Evaluate specifies. */
  method Simulate(node: Node, net: Network, select: Selector) returns (updated: Node, value: real)
    requires ValidNet(net) && ValidSelector(select) && Valid(node, net)
    decreases node
    ensures Evaluation(updated, value) == Evaluate(node, net, select)
  {
    var done := IsDone(node.state);
    if done {
      updated, value := VisitTerminal(node, net, select);
    } else if !node.expanded {
      updated, value := VisitLeaf(node, net, select);
    } else {
      var k := select(node.children);
      var child, childValue := Simulate(node.children[k], net, select);
      EvaluateBacksUp(node, net, select, child, childValue);
      var e := BackUp(node, k, Evaluation(child, childValue));
      updated, value := e.node, e.value;
    }
  }

  /** The tree after k simulations from a fresh root for s. */
  function SearchTree(s: State, net: Network, select: Selector, k: nat): (r: Node)
    requires ValidNet(net) && ValidSelector(select) && s.Balanced()
    ensures Valid(r, net) && r.state == s && r.p == 0.0 && r.n == k
    ensures k > 0 && !s.Done() ==> r.expanded
  {
    if k == 0 then Leaf(s, 0.0)
    else Evaluate(SearchTree(s, net, select, k - 1), net, select).node
  }

  /** The search loop of pv_mcts_scores: PV_EVALUATE_COUNT evaluations of a
      fresh root. */
  method Search(s: State, net: Network, select: Selector) returns (root: Node)
    requires ValidNet(net) && ValidSelector(select)
    requires s.Balanced() && !s.Done()
    ensures root == SearchTree(s, net, select, PvEvaluateCount)
    ensures Valid(root, net) && root.state == s && root.p == 0.0
    ensures root.n == PvEvaluateCount && root.expanded
    ensures |root.children| == |s.Legal()|
    ensures SumN(root.children) == PvEvaluateCount - 1
  {
    root := Leaf(s, 0.0);
    var i := 0;
    while i < PvEvaluateCount
      invariant 0 <= i <= PvEvaluateCount
      invariant root == SearchTree(s, net, select, i)
      invariant Valid(root, net) && root.state == s && root.p == 0.0
      invariant root.n == i
      invariant i > 0 ==> root.expanded
    {
      var value;
      root, value := Simulate(root, net, select);
      i := i + 1;
    }
  }

  /** nodes_to_scores: the visit counts of the nodes, in order. */
  method NodesToScores(nodes: seq<Node>) returns (scores: seq<int>)
    ensures |scores| == |nodes|
    ensures forall j :: 0 <= j < |nodes| ==> scores[j] == nodes[j].n
  {
    scores := [];
    var i := 0;
    while i < |nodes|
      invariant 0 <= i <= |nodes|
      invariant |scores| == i
      invariant forall j :: 0 <= j < i ==> scores[j] == nodes[j].n
    {
      scores := scores + [nodes[i].n];
      i := i + 1;
    }
  }

  /** The temperature-0 branch: a zero array with a 1 at the first index of
      the largest count. */
  method OneHot(scores: seq<int>) returns (r: seq<real>)
    requires |scores| > 0
    requires forall j :: 0 <= j < |scores| ==> scores[j] >= 0
    ensures |r| == |scores|
    ensures 0 <= ArgBest(scores) < |scores|
    ensures forall j :: 0 <= j < |r| ==> r[j] == if j == ArgBest(scores) then 1.0 else 0.0
  {
    ArgBestAboveNegInf(scores);
    var action := ArgBest(scores);
    var a := new real[|scores|](_ => 0.0);
    a[action] := 1.0;
    r := a[..];
  }

  /** The result of the temperature-0 branch puts its single 1 on the most
      visited child, the first one among equals. */
  lemma OneHotPicksMostVisited(scores: seq<int>, r: seq<real>)
    requires |scores| > 0
    requires forall j :: 0 <= j < |scores| ==> scores[j] >= 0
    requires |r| == |scores|
    requires forall j :: 0 <= j < |r| ==> r[j] == if j == ArgBest(scores) then 1.0 else 0.0
    ensures exists k :: 0 <= k < |r| && r[k] == 1.0
    ensures forall k :: 0 <= k < |r| && r[k] == 1.0 ==>
      (forall j :: 0 <= j < |scores| ==> scores[j] <= scores[k]) &&
      (forall j :: 0 <= j < k ==> scores[j] < scores[k])
    ensures forall k :: 0 <= k < |r| ==> r[k] == 0.0 || r[k] == 1.0
  {
    ArgBestAboveNegInf(scores);
    assert r[ArgBest(scores)] == 1.0;
  }

  /** pv_mcts_scores: search, read the root's visit counts, and turn them
      into a distribution (greedy one-hot at temperature 0, otherwise the
      Boltzmann reweighting, here a parameter). */
  method PvMctsScores(s: State, net: Network, select: Selector, temperature: real,
                      boltzmann: (seq<int>, real) -> seq<real>)
    returns (r: seq<real>)
    requires ValidNet(net) && ValidSelector(select)
    requires s.Balanced() && !s.Done()
    ensures var root := SearchTree(s, net, select, PvEvaluateCount);
      && (temperature == 0.0 ==>
            && |r| == |root.children| == |s.Legal()|
            && forall j :: 0 <= j < |r| ==> r[j] == if j == ArgBest(VisitCounts(root.children)) then 1.0 else 0.0)
      && (temperature != 0.0 ==> r == boltzmann(VisitCounts(root.children), temperature))
  {
    var root := Search(s, net, select);
    var scores := NodesToScores(root.children);
    assert scores == VisitCounts(SearchTree(s, net, select, PvEvaluateCount).children);
    if temperature == 0.0 {
      r := OneHot(scores);
      assert |root.children| == |s.Legal()|;
    } else {
      r := boltzmann(scores, temperature);
    }
  }

  function VisitCounts(cs: seq<Node>): (r: seq<int>)
    ensures |r| == |cs|
  {
    seq(|cs|, j requires 0 <= j < |cs| => cs[j].n)
  }
}
