/**
 * DependencyModel.java: a flat list of modules (the Module.java class) and its greedy
 * ordering. Each step takes, from the modules not yet placed, the one that the remaining
 * modules depend on least, and appends it; there is no final reversal.
 *
 * The weights are read from the modules' strength tables and from nothing else. Sorting
 * changes no table, so the specification works on the tables read once (`Tables`) and the
 * methods, which read the objects, are proved to agree with it.
 */
module Dependencies {
  import opened Wrappers
  import opened Sequences
  import FlatModules

  type Module = FlatModules.Module

  /** The strength table of each module, keyed by the module object. */
  type Tables = map<Module, FlatModules.StrengthTable>

  /** The tables of the modules of `ms` as they are now. */
  ghost function TablesOf(ms: seq<Module>): (g: Tables)
    reads set m | m in ms
    ensures forall m :: m in ms ==> m in g && g[m] == m.strengths
  {
    map m | m in ms :: m.strengths
  }

  /** Two table snapshots that record the same tables for the modules of `ms`. */
  predicate Agree(g: Tables, h: Tables, ms: seq<Module>) {
    forall m :: m in ms ==> m in g && m in h && g[m] == h[m]
  }

  /** getDependencyStrength(x) on module `m`, read from the snapshot. */
  function StrengthIn(g: Tables, m: Module, x: Module): (n: int)
    ensures m in g ==> n == FlatModules.Strength(g[m], x)
  {
    if m in g then FlatModules.Strength(g[m], x) else 0
  }

  /**
   * incomingDependencies(module, modules): the strengths toward `x` recorded by every module
   * of `ms`, `x` itself included, added up.
   */
  function IncomingWeight(g: Tables, x: Module, ms: seq<Module>): int {
    if ms == [] then 0
    else IncomingWeight(g, x, ms[..|ms| - 1]) + StrengthIn(g, ms[|ms| - 1], x)
  }

  /** The incoming weight of every module of `ms` against the whole of `ms`. */
  function Weights(g: Tables, ms: seq<Module>): (w: seq<int>)
    ensures |w| == |ms|
    ensures forall i :: 0 <= i < |ms| ==> w[i] == IncomingWeight(g, ms[i], ms)
  {
    WeightsAgainst(g, ms, ms)
  }

  /** The incoming weight of every module of `xs` against `ms`. */
  function WeightsAgainst(g: Tables, xs: seq<Module>, ms: seq<Module>): (w: seq<int>)
    ensures |w| == |xs|
    ensures forall i :: 0 <= i < |xs| ==> w[i] == IncomingWeight(g, xs[i], ms)
  {
    if xs == [] then []
    else WeightsAgainst(g, xs[..|xs| - 1], ms) + [IncomingWeight(g, xs[|xs| - 1], ms)]
  }

  /** ModuleWithWeight: a module paired with its incoming weight. */
  datatype ModuleWithWeight = ModuleWithWeight(candidate: Module, weight: int)

  /**
   * ModuleWithWeight.compareTo: the difference of the weights, so the sign orders by weight
   * (Java's int subtraction can overflow; here integers are unbounded).
   */
  function CompareTo(a: ModuleWithWeight, b: ModuleWithWeight): (r: int)
    ensures r < 0 <==> a.weight < b.weight
    ensures r == 0 <==> a.weight == b.weight
    ensures r > 0 <==> a.weight > b.weight
  {
    a.weight - b.weight
  }

  /** The weights of a list of weighted modules, in order. */
  function WeightsOf(ws: seq<ModuleWithWeight>): (r: seq<int>)
    ensures |r| == |ws| && forall i :: 0 <= i < |ws| ==> r[i] == ws[i].weight
  {
    if ws == [] then [] else WeightsOf(ws[..|ws| - 1]) + [ws[|ws| - 1].weight]
  }

  /**
   * Collections.min under compareTo: the JDK scan keeps its candidate unless a later element
   * compares strictly below it, so it returns the first element of least weight.
   */
  function CollectionsMin(ws: seq<ModuleWithWeight>): (r: ModuleWithWeight)
    requires ws != []
    ensures r == ws[FirstMinIndex(WeightsOf(ws))]
    ensures forall i :: 0 <= i < |ws| ==> CompareTo(r, ws[i]) <= 0
  {
    ws[FirstMinIndex(WeightsOf(ws))]
  }

  /** The position pickModuleWithLeastIncomingDependencies selects. */
  function PickIndex(g: Tables, ms: seq<Module>): (k: nat)
    requires ms != []
    ensures k < |ms|
  {
    FirstMinIndex(Weights(g, ms))
  }

  /** The order sortModules produces: each step picks against the modules still left. */
  function GreedyOrder(g: Tables, ms: seq<Module>): (r: seq<Module>)
    ensures |r| == |ms|
    decreases |ms|
  {
    if ms == [] then []
    else
      var m := ms[PickIndex(g, ms)];
      var rest := RemoveFirst(ms, m);
      [m] + GreedyOrder(g, rest)
  }

  /** sortModules only reorders: the sorted list is a permutation of the modules. */
  lemma {:induction false} GreedyOrderIsPermutation(g: Tables, ms: seq<Module>)
    ensures multiset(GreedyOrder(g, ms)) == multiset(ms)
    decreases |ms|
  {
    if ms != [] {
      var m := ms[PickIndex(g, ms)];
      var rest := RemoveFirst(ms, m);
      GreedyOrderIsPermutation(g, rest);
      PrependRestores(ms, m, GreedyOrder(g, rest));
    }
  }

  /** One step of the work-list loop: the picked module comes first, the rest follows. */
  lemma GreedyStep(g: Tables, ms: seq<Module>, picked: Module)
    requires ms != [] && picked == ms[PickIndex(g, ms)]
    ensures GreedyOrder(g, ms) == [picked] + GreedyOrder(g, RemoveFirst(ms, picked))
  {
  }

  /** The incoming weight depends only on the tables of the modules summed over. */
  lemma {:induction false} IncomingWeightAgree(g: Tables, h: Tables, x: Module, ms: seq<Module>)
    requires Agree(g, h, ms)
    ensures IncomingWeight(g, x, ms) == IncomingWeight(h, x, ms)
  {
    if ms != [] {
      var init := ms[..|ms| - 1];
      assert forall m :: m in init ==> m in ms;
      IncomingWeightAgree(g, h, x, init);
    }
  }

  /** Snapshots that agree on `ms` give the same weights, hence the same pick. */
  lemma WeightsAgree(g: Tables, h: Tables, ms: seq<Module>)
    requires Agree(g, h, ms)
    ensures Weights(g, ms) == Weights(h, ms)
    ensures ms != [] ==> PickIndex(g, ms) == PickIndex(h, ms)
  {
    forall i | 0 <= i < |ms|
      ensures Weights(g, ms)[i] == Weights(h, ms)[i]
    {
      IncomingWeightAgree(g, h, ms[i], ms);
    }
  }

  /** incomingDependencies, summing in a loop. */
  method IncomingDependencies(x: Module, ms: seq<Module>) returns (sum: int)
    ensures sum == IncomingWeight(TablesOf(ms), x, ms)
  {
    ghost var g := TablesOf(ms);
    sum := 0;
    for i := 0 to |ms|
      invariant sum == IncomingWeight(g, x, ms[..i])
    {
      assert ms[..i + 1][..i] == ms[..i];
      sum := sum + ms[i].GetDependencyStrength(x);
    }
    assert ms[..|ms|] == ms;
  }

  /**
   * pickModuleWithLeastIncomingDependencies: an empty list is an illegal argument; otherwise
   * the modules are weighed against the list and the first of least weight is returned.
   */
  method PickModuleWithLeastIncomingDependencies(ms: seq<Module>) returns (r: Result<Module>)
    ensures ms == [] ==> r == Failure(IllegalArgument("empty modules"))
    ensures ms != [] ==> r == Success(ms[PickIndex(TablesOf(ms), ms)])
  {
    if ms == [] {
      return Failure(IllegalArgument("empty modules"));
    }
    ghost var g := TablesOf(ms);
    var weightedModules := [];
    for i := 0 to |ms|
      invariant |weightedModules| == i
      invariant forall j :: 0 <= j < i ==> weightedModules[j] == ModuleWithWeight(ms[j], IncomingWeight(g, ms[j], ms))
    {
      var w := IncomingDependencies(ms[i], ms);
      weightedModules := weightedModules + [ModuleWithWeight(ms[i], w)];
    }
    assert WeightsOf(weightedModules) == Weights(g, ms);
    r := Success(CollectionsMin(weightedModules).candidate);
  }

  /** The picked module is of least incoming weight and the first in list order with that weight. */
  lemma PickedIsFirstLeast(g: Tables, ms: seq<Module>)
    requires ms != []
    ensures forall j :: 0 <= j < |ms| ==> IncomingWeight(g, ms[PickIndex(g, ms)], ms) <= IncomingWeight(g, ms[j], ms)
    ensures forall j :: 0 <= j < PickIndex(g, ms) ==> IncomingWeight(g, ms[PickIndex(g, ms)], ms) < IncomingWeight(g, ms[j], ms)
  {
    var w := Weights(g, ms);
    assert forall j :: 0 <= j < |ms| ==> w[j] == IncomingWeight(g, ms[j], ms);
  }

  /** The first module after sorting has the least incoming weight over the whole list. */
  lemma FirstIsLeastIncoming(g: Tables, ms: seq<Module>)
    requires ms != []
    ensures GreedyOrder(g, ms)[0] == ms[PickIndex(g, ms)]
    ensures forall j :: 0 <= j < |ms| ==> IncomingWeight(g, GreedyOrder(g, ms)[0], ms) <= IncomingWeight(g, ms[j], ms)
  {
    PickedIsFirstLeast(g, ms);
  }

  /**
   * When no module depends on another, every weight is 0, each pick is the head of the work
   * list and the order is kept: unlike sortChildren, nothing is reversed.
   */
  lemma {:induction false} NoDependenciesKeepsOrder(g: Tables, ms: seq<Module>)
    requires forall m, x :: m in ms && x in ms ==> StrengthIn(g, m, x) == 0
    ensures GreedyOrder(g, ms) == ms
    decreases |ms|
  {
    if ms != [] {
      NoDependenciesZeroWeight(g, ms[0], ms);
      var w := Weights(g, ms);
      var k := PickIndex(g, ms);
      NoDependenciesZeroWeight(g, ms[k], ms);
      assert w[0] == w[k];
      RemoveFirstHead(ms);
      NoDependenciesKeepsOrder(g, ms[1..]);
    }
  }

  /** With no dependencies toward `x` among `ms`, the incoming weight of `x` is 0. */
  lemma {:induction false} NoDependenciesZeroWeight(g: Tables, x: Module, ms: seq<Module>)
    requires forall m :: m in ms ==> StrengthIn(g, m, x) == 0
    ensures IncomingWeight(g, x, ms) == 0
  {
    if ms != [] {
      NoDependenciesZeroWeight(g, x, ms[..|ms| - 1]);
    }
  }

  /**
   * The loop of sortModules: a shrinking work list from which the module of least incoming
   * weight (against the modules still in it) is taken and appended to the sorted list.
   */
  method SortedByIncoming(ms: seq<Module>) returns (sorted: seq<Module>)
    ensures sorted == GreedyOrder(TablesOf(ms), ms)
  {
    ghost var g := TablesOf(ms);
    var workList := ms;
    sorted := [];
    while workList != []
      invariant forall m :: m in workList ==> m in ms
      invariant sorted + GreedyOrder(g, workList) == GreedyOrder(g, ms)
      decreases |workList|
    {
      sorted, workList := PickInto(g, sorted, workList);
    }
    assert sorted == sorted + GreedyOrder(g, []);
  }

  /** One turn of the sortModules loop: the picked module moves from the work list to the sorted list. */
  method PickInto(ghost g: Tables, sorted: seq<Module>, workList: seq<Module>)
    returns (sorted': seq<Module>, workList': seq<Module>)
    requires workList != [] && forall m :: m in workList ==> m in g && g[m] == m.strengths
    ensures |workList'| == |workList| - 1 && forall m :: m in workList' ==> m in workList
    ensures sorted' + GreedyOrder(g, workList') == sorted + GreedyOrder(g, workList)
  {
    var result := PickModuleWithLeastIncomingDependencies(workList);
    WeightsAgree(g, TablesOf(workList), workList);
    var picked := result.value;
    GreedyStep(g, workList, picked);
    AppendAssoc(sorted, [picked], GreedyOrder(g, RemoveFirst(workList, picked)));
    workList' := RemoveFirst(workList, picked);
    sorted' := sorted + [picked];
  }

  class DependencyModel {
    var modules: seq<Module>

    /** `new DependencyModel()`: no modules. */
    constructor ()
      ensures modules == []
    {
      modules := [];
    }

    /**
     * sortModules: the list is refilled in pick order from a shrinking work list (collected
     * aside and stored at the end); by GreedyOrderIsPermutation the result is a permutation
     * of the old list.
     */
    method SortModules()
      modifies this`modules
      ensures modules == old(GreedyOrder(TablesOf(modules), modules))
    {
      modules := SortedByIncoming(modules);
    }
  }
}
