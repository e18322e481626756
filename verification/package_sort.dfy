/**
 * Reordering a package's children (PackageModule.java): `move` swaps a child with its
 * neighbour, `sortChildren` is the greedy "least outgoing dependencies first, then reversed"
 * ordering. The outgoing weight of a candidate against the remaining work list is computed by
 * `Module.outgoingDependencies`, which is not part of this model; it is the parameter `outgoing`.
 */
module PackageSort {
  import opened Kinds
  import opened Sequences
  import opened ModuleTree

  /** Module.outgoingDependencies(workList), left uninterpreted. */
  type OutgoingWeight = (Node, seq<Node>) -> int

  /**
   * PackageModule.move: when the move is valid, `child` is removed and re-inserted at
   * `index + delta`, so it lands there and the others keep their order; otherwise nothing changes.
   */
  function Move(p: Node, child: Node, direction: MoveDirection): (r: Node)
    requires p.Package?
    ensures r.Package? && r.id == p.id && r.name == p.name && |r.children| == |p.children|
    ensures multiset(r.children) == multiset(p.children)
    ensures ValidMove(p, child, direction) ==>
      var newIndex := IndexOf(p.children, child) + direction.Delta();
      r.children[newIndex] == child
      && RemoveAt(r.children, newIndex) == RemoveAt(p.children, IndexOf(p.children, child))
    ensures !ValidMove(p, child, direction) ==> r == p
  {
    if ValidMove(p, child, direction) then
      var newIndex := IndexOf(p.children, child) + direction.Delta();
      var rest := RemoveFirst(p.children, child);
      RemoveInserted(rest, newIndex, child);
      p.(children := InsertAt(rest, newIndex, child))
    else
      p
  }

  /** The guard of move: `child` is a child and `index + delta` is a valid child index (isValidChildIndex). */
  predicate ValidMove(p: Node, child: Node, direction: MoveDirection)
    requires p.Package?
  {
    var index := IndexOf(p.children, child);
    index != -1 && 0 <= index + direction.Delta() < |p.children|
  }

  /** Moving a child up and then down again restores the original order. */
  lemma {:induction false} MoveUpThenDown(p: Node, child: Node)
    requires p.Package?
    requires IndexOf(p.children, child) >= 1
    ensures Move(Move(p, child, Up), child, Down) == p
  {
    var cs := p.children;
    var i := IndexOf(cs, child);
    MoveFrontThenBack(cs, i);
    var up := Move(p, child, Up);
    assert ValidMove(p, child, Up);
    assert up.children == InsertAt(RemoveFirst(cs, child), i - 1, child);
    assert ValidMove(up, child, Down);
    assert Move(up, child, Down).children == InsertAt(RemoveFirst(up.children, child), i, child);
  }

  /** The outgoing weight of every candidate against the whole work list `ws`. */
  function OutgoingWeights(ws: seq<Node>, outgoing: OutgoingWeight): (w: seq<int>)
    ensures |w| == |ws|
    ensures forall i :: 0 <= i < |ws| ==> w[i] == outgoing(ws[i], ws)
  {
    seq(|ws|, i requires 0 <= i < |ws| => outgoing(ws[i], ws))
  }

  /** The position pickModuleWithLeastOutgoingDependencies selects. */
  function PickIndex(ws: seq<Node>, outgoing: OutgoingWeight): (k: nat)
    requires ws != []
    ensures k < |ws|
  {
    FirstMinIndex(OutgoingWeights(ws, outgoing))
  }

  /**
   * The order in which the work-list loop of sortChildren appends modules, before the
   * final reversal: each step picks against the shrinking work list.
   */
  function GreedyOrder(ws: seq<Node>, outgoing: OutgoingWeight): (r: seq<Node>)
    ensures |r| == |ws| && multiset(r) == multiset(ws)
    decreases |ws|
  {
    if ws == [] then []
    else
      var m := ws[PickIndex(ws, outgoing)];
      [m] + GreedyOrder(RemoveFirst(ws, m), outgoing)
  }

  /** The children of a package after sortChildren. */
  function SortedChildren(cs: seq<Node>, outgoing: OutgoingWeight): seq<Node> {
    Reverse(GreedyOrder(cs, outgoing))
  }

  /**
   * pickModuleWithLeastOutgoingDependencies: the scan keeps its candidate unless a later
   * module has a strictly smaller outgoing weight, so it returns the module at PickIndex.
   */
  method PickModuleWithLeastOutgoingDependencies(modules: seq<Node>, outgoing: OutgoingWeight)
    returns (minimumModule: Node)
    requires modules != []
    ensures minimumModule == modules[PickIndex(modules, outgoing)]
  {
    ghost var w := OutgoingWeights(modules, outgoing);
    ghost var k := 0;
    minimumModule := modules[0];
    var minimumDependencies := outgoing(minimumModule, modules);
    for i := 1 to |modules|
      invariant k < i && minimumModule == modules[k] && minimumDependencies == w[k]
      invariant k == FirstMinIndex(w[..i])
    {
      assert w[..i + 1][..i] == w[..i];
      var dependencies := outgoing(modules[i], modules);
      if dependencies < minimumDependencies {
        minimumDependencies := dependencies;
        minimumModule := modules[i];
        k := i;
      }
    }
    assert w[..|modules|] == w;
  }

  /**
   * The picked module has the least outgoing weight against the work list, and it is the
   * first one in work-list order with that weight: a later tie never replaces it.
   */
  lemma PickedIsFirstLeast(ws: seq<Node>, outgoing: OutgoingWeight)
    requires ws != []
    ensures ws[PickIndex(ws, outgoing)] in ws
    ensures IndexOf(ws, ws[PickIndex(ws, outgoing)]) == PickIndex(ws, outgoing)
    ensures forall j :: 0 <= j < |ws| ==>
      outgoing(ws[PickIndex(ws, outgoing)], ws) <= outgoing(ws[j], ws)
    ensures forall j :: 0 <= j < |ws| && outgoing(ws[j], ws) == outgoing(ws[PickIndex(ws, outgoing)], ws) ==>
              PickIndex(ws, outgoing) <= j
  {
    var k := PickIndex(ws, outgoing);
    var w := OutgoingWeights(ws, outgoing);
    var i := IndexOf(ws, ws[k]);
    assert w[i] == w[k];
  }

  /** One step of the work-list loop: the picked module comes first, the rest follows. */
  lemma GreedyStep(ws: seq<Node>, outgoing: OutgoingWeight, picked: Node)
    requires ws != [] && picked == ws[PickIndex(ws, outgoing)]
    ensures GreedyOrder(ws, outgoing) == [picked] + GreedyOrder(RemoveFirst(ws, picked), outgoing)
  {
  }

  /**
   * The sorted children are a permutation of the old ones, and the last of them is the
   * module picked first from the whole list.
   */
  lemma {:induction false} SortedChildrenProperties(cs: seq<Node>, outgoing: OutgoingWeight)
    ensures |SortedChildren(cs, outgoing)| == |cs|
    ensures multiset(SortedChildren(cs, outgoing)) == multiset(cs)
    ensures cs != [] ==> SortedChildren(cs, outgoing)[|cs| - 1] == cs[PickIndex(cs, outgoing)]
  {
    var g := GreedyOrder(cs, outgoing);
    if cs != [] {
      GreedyStep(cs, outgoing, cs[PickIndex(cs, outgoing)]);
      assert g[0] == cs[PickIndex(cs, outgoing)];
      assert Reverse(g)[|cs| - 1] == g[0];
    }
  }

  /**
   * PackageModule.sortChildren (ClassModule.sortChildren does nothing): the children are
   * emptied, refilled in greedy pick order, and reversed.
   */
  method SortChildren(m: Node, outgoing: OutgoingWeight) returns (r: Node)
    ensures m.Class? ==> r == m
    ensures m.Package? ==> r == m.(children := SortedChildren(m.children, outgoing))
  {
    if m.Class? {
      return m;
    }
    var workList := m.children;
    var children := [];
    while workList != []
      invariant children + GreedyOrder(workList, outgoing) == GreedyOrder(m.children, outgoing)
      decreases |workList|
    {
      var picked := PickModuleWithLeastOutgoingDependencies(workList, outgoing);
      ghost var rest := GreedyOrder(RemoveFirst(workList, picked), outgoing);
      GreedyStep(workList, outgoing, picked);
      AppendAssoc(children, [picked], rest);
      workList := RemoveFirst(workList, picked);
      children := children + [picked];
    }
    assert children == children + GreedyOrder([], outgoing);
    r := m.(children := Reverse(children));
  }

  /** With no outgoing weight anywhere, each pick is the head of the work list. */
  lemma {:induction false} GreedyOrderWithoutWeights(ws: seq<Node>, outgoing: OutgoingWeight)
    requires forall m, l :: outgoing(m, l) == 0
    ensures GreedyOrder(ws, outgoing) == ws
    decreases |ws|
  {
    if ws != [] {
      var k := PickIndex(ws, outgoing);
      var w := OutgoingWeights(ws, outgoing);
      assert w[0] == w[k];
      assert k == 0;
      RemoveFirstHead(ws);
      GreedyOrderWithoutWeights(ws[1..], outgoing);
    }
  }

  /**
   * sortChildren is not idempotent: when no child depends on another, sorting reverses the
   * children, so sorting twice restores the original order.
   */
  lemma {:induction false} SortTwiceWithoutWeights(cs: seq<Node>, outgoing: OutgoingWeight)
    requires forall m, l :: outgoing(m, l) == 0
    ensures SortedChildren(cs, outgoing) == Reverse(cs)
    ensures SortedChildren(SortedChildren(cs, outgoing), outgoing) == cs
    ensures |cs| >= 2 && cs[0] != cs[|cs| - 1] ==> SortedChildren(cs, outgoing) != cs
  {
    GreedyOrderWithoutWeights(cs, outgoing);
    GreedyOrderWithoutWeights(Reverse(cs), outgoing);
    ReverseReverse(cs);
    if |cs| >= 2 && cs[0] != cs[|cs| - 1] {
      assert Reverse(cs)[0] == cs[|cs| - 1];
    }
  }
}
