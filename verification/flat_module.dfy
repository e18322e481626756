/**
 * Module.java as shown: a flat module with a name, a program-module flag, a list of children
 * and a table of dependency strengths keyed by the depended-on module (a HashMap on a class
 * that keeps Object's equals, so the keys are object references).
 */
module FlatModules {
  import opened Kinds

  /** The strength table's abstract value: recorded counts per target module. */
  type StrengthTable = map<Module, int>

  /** getDirectDependencyStrength: the recorded count, or 0 when there is no entry. */
  function Strength(strengths: StrengthTable, target: Module): (n: int)
    ensures target !in strengths ==> n == 0
    ensures target in strengths ==> n == strengths[target]
  {
    if target in strengths then strengths[target] else 0
  }

  /** The table after addDependency(target, _): the entry for `target` goes up by one. */
  function Increment(strengths: StrengthTable, target: Module): (r: StrengthTable)
    ensures target in r && Strength(r, target) == Strength(strengths, target) + 1
    ensures r.Keys == strengths.Keys + {target}
    ensures forall other :: other in strengths && other != target ==> r[other] == strengths[other]
  {
    strengths[target := Strength(strengths, target) + 1]
  }

  /** The table after `n` calls of addDependency(target, _). */
  function IncrementTimes(strengths: StrengthTable, target: Module, n: nat): (r: StrengthTable)
    ensures r.Keys == if n == 0 then strengths.Keys else strengths.Keys + {target}
  {
    if n == 0 then strengths else Increment(IncrementTimes(strengths, target, n - 1), target)
  }

  /** `n` calls of addDependency(target, _) raise the strength to `target` by `n`, and no other. */
  lemma {:induction false} IncrementTimesStrength(strengths: StrengthTable, target: Module, n: nat)
    ensures Strength(IncrementTimes(strengths, target, n), target) == Strength(strengths, target) + n
    ensures forall other :: other != target ==>
      Strength(IncrementTimes(strengths, target, n), other) == Strength(strengths, other)
  {
    if n > 0 {
      IncrementTimesStrength(strengths, target, n - 1);
    }
  }

  /** On a fresh module, with an empty table, `n` calls give strength `n`. */
  lemma FreshModuleStrength(target: Module, n: nat)
    ensures Strength(IncrementTimes(map[], target, n), target) == n
  {
    IncrementTimesStrength(map[], target, n);
  }

  class Module {
    var name: string
    var programModule: bool
    var children: seq<Module>
    var strengths: StrengthTable
    /** The objects this module and the modules below it are made of. */
    ghost var Repr: set<object>

    /** The children form a tree (or a DAG) below this module, never a cycle through it. */
    ghost predicate Valid()
      reads this, Repr
      decreases Repr
    {
      this in Repr
      && forall c :: c in children ==>
           c in Repr && c.Repr <= Repr && this !in c.Repr && c.Valid()
    }

    /** `new Module(name)`: not a program module, no children, no strengths. */
    constructor (name: string)
      ensures Valid() && fresh(Repr)
      ensures this.name == name && !programModule
      ensures children == [] && strengths == map[]
    {
      this.name := name;
      programModule := false;
      children := [];
      strengths := map[];
      Repr := {this};
    }

    /** setName: overwrites the name and nothing else. */
    method SetName(name: string)
      modifies this`name
      ensures old(Valid()) ==> Valid()
      ensures this.name == name
    {
      this.name := name;
    }

    /** setProgramModule: overwrites the flag and nothing else. */
    method SetProgramModule(programModule: bool)
      modifies this`programModule
      ensures old(Valid()) ==> Valid()
      ensures this.programModule == programModule
    {
      this.programModule := programModule;
    }

    /** isLeaf: no children. */
    predicate IsLeaf()
      reads this
    {
      children == []
    }

    /** getDependencyStrength: the recorded count toward `target`, or 0. */
    function GetDependencyStrength(target: Module): (n: int)
      reads this
      ensures n == Strength(strengths, target)
    {
      if target in strengths then strengths[target] else 0
    }

    /** setDependencyStrength: `target` now maps to `strength`; other entries are kept. */
    method SetDependencyStrength(target: Module, strength: int)
      modifies this`strengths
      ensures old(Valid()) ==> Valid()
      ensures strengths == old(strengths)[target := strength]
      ensures GetDependencyStrength(target) == strength
    {
      strengths := strengths[target := strength];
    }

    /**
     * addDependency: get-or-increment; the strength toward `target` rises by exactly one
     * whatever the dependency type, and every other entry is kept.
     */
    method AddDependency(target: Module, dependencyType: DependencyType)
      modifies this`strengths
      ensures old(Valid()) ==> Valid()
      ensures strengths == Increment(old(strengths), target)
      ensures GetDependencyStrength(target) == old(GetDependencyStrength(target)) + 1
    {
      if target in strengths {
        strengths := strengths[target := strengths[target] + 1];
      } else {
        strengths := strengths[target := 1];
      }
    }

    /** getChildren().add(child): appends a module that does not contain this one. */
    method AddChild(child: Module)
      requires Valid() && child.Valid() && this !in child.Repr
      modifies this`children, this`Repr
      ensures Valid()
      ensures children == old(children) + [child]
      ensures Repr == old(Repr) + child.Repr
    {
      children := children + [child];
      Repr := Repr + child.Repr;
    }

    /** countLeafsUnder: 1 for a leaf, otherwise the leaves under the children added up. */
    ghost function LeafCount(): (n: nat)
      requires Valid()
      reads this, Repr
      ensures n >= 1
      decreases Repr, 1
    {
      if children == [] then 1 else SumLeafCounts(children)
    }

    /** The leaf counts of some of this module's children added up; each adds at least 1. */
    ghost function SumLeafCounts(cs: seq<Module>): (n: nat)
      requires Valid() && forall c :: c in cs ==> c in children
      reads this, Repr
      ensures n >= |cs|
      decreases Repr, 0, |cs|
    {
      if cs == [] then 0
      else
        var last := cs[|cs| - 1];
        assert last in children;
        SumLeafCounts(cs[..|cs| - 1]) + last.LeafCount()
    }

    /** Module.countLeafsUnder with its accumulating loop. */
    method CountLeafsUnder() returns (count: nat)
      requires Valid()
      ensures count == LeafCount()
      decreases Repr
    {
      if IsLeaf() {
        return 1;
      }
      count := 0;
      for i := 0 to |children|
        invariant count == SumLeafCounts(children[..i])
      {
        assert children[..i + 1][..i] == children[..i];
        var child := children[i];
        var n := child.CountLeafsUnder();
        count := count + n;
      }
      assert children[..|children|] == children;
    }
  }
}
