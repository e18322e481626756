/**
 * JavaDependencyParser.java without the class-file reading: the callbacks receive names that
 * are already decoded. Each type name is reduced to the name of its package, one module per
 * package is kept in a TreeMap keyed by that name, and every reference from the type being
 * visited to another package adds one to the visited package's strength toward it.
 */
module JavaParser {
  import opened Wrappers
  import opened Kinds
  import opened Sequences
  import opened StringOrder
  import FlatModules
  import Dependencies

  type Module = FlatModules.Module

  /** String.replace(from, to): every `from` becomes `to`, every other character stays. */
  function ReplaceChar(s: string, from: char, to: char): (r: string)
    ensures |r| == |s|
    ensures forall i :: 0 <= i < |s| ==> r[i] == if s[i] == from then to else s[i]
    ensures from != to ==> from !in r
  {
    seq(|s|, i requires 0 <= i < |s| => if s[i] == from then to else s[i])
  }

  /** substring(0, index) when `index` is a found position, the whole text for -1. */
  function PrefixBefore(s: string, index: int): (r: string)
    requires -1 <= index < |s|
    ensures index == -1 ==> r == s
    ensures index != -1 ==> |r| == index && r == s[..index]
  {
    if index == -1 then s else s[..index]
  }

  /**
   * getModule's key: slashes become periods, an inner class is cut at its first `$`, and the
   * part after the last period (the class name) is dropped; a name without a period is kept.
   */
  function ModuleKey(name: string): (key: string)
    ensures '/' !in key && '$' !in key
    ensures |key| <= |name|
  {
    var dotted := ReplaceChar(name, '/', '.');
    var outer := PrefixBefore(dotted, IndexOf(dotted, '$'));
    assert forall c :: c in outer ==> c in dotted;
    PrefixBefore(outer, LastIndexOf(outer, '.'))
  }

  /** An inner class belongs to the same module as the class it is declared in. */
  lemma InnerClassSameKey(outer: string, inner: string)
    requires '$' !in outer
    ensures ModuleKey(outer + "$" + inner) == ModuleKey(outer)
  {
    var name := outer + "$" + inner;
    var d := ReplaceChar(name, '/', '.');
    var o := ReplaceChar(outer, '/', '.');
    assert d[..|outer|] == o;
    assert '$' !in o;
    IndexOfAt(d, |outer|, '$');
  }

  /** The class name after the last slash is dropped and the package path is kept, with periods. */
  lemma ClassNameDropped(pkg: string, cls: string)
    requires '$' !in pkg && '$' !in cls && '.' !in cls && '/' !in cls
    ensures ModuleKey(pkg + "/" + cls) == ReplaceChar(pkg, '/', '.')
  {
    var name := pkg + "/" + cls;
    var d := ReplaceChar(name, '/', '.');
    assert d[|pkg| + 1..] == cls;
    assert '$' !in d;
    LastIndexOfAt(d, |pkg|, '.');
    assert d[..|pkg|] == ReplaceChar(pkg, '/', '.');
  }

  /** A type of the default package: a name with no period, slash or dollar sign is its own key. */
  lemma DefaultPackageKeepsName(name: string)
    requires '.' !in name && '/' !in name && '$' !in name
    ensures ModuleKey(name) == name
  {
    var d := ReplaceChar(name, '/', '.');
    assert d == name;
  }

  /** The names a class's visit depends on: its superclass (absent for java.lang.Object), then its interfaces. */
  function InheritedNames(superName: Option<string>, interfaces: seq<string>): seq<string> {
    (if superName.Some? then [superName.value] else []) + interfaces
  }

  /** The module key of each name, in order: the keys getModule looks up for them. */
  function KeysOf(names: seq<string>): (r: seq<string>)
    ensures |r| == |names|
  {
    if names == [] then [] else KeysOf(names[..|names| - 1]) + [ModuleKey(names[|names| - 1])]
  }

  /** Position `i` of the key list is the key of the `i`-th name. */
  lemma {:induction false} KeysOfAt(names: seq<string>, i: int)
    requires 0 <= i < |names|
    ensures KeysOf(names)[i] == ModuleKey(names[i])
  {
    if i < |names| - 1 {
      var init := names[..|names| - 1];
      KeysOfAt(init, i);
      assert init[i] == names[i];
    }
  }

  /** The keys of one more name: the key list grows by that name's key. */
  lemma KeysOfNext(names: seq<string>, i: int)
    requires 0 <= i < |names|
    ensures KeysOf(names[..i + 1]) == KeysOf(names[..i]) + [ModuleKey(names[i])]
  {
    assert names[..i + 1][..i] == names[..i];
  }

  /** How many times `k` occurs in `keys`. */
  function KeyCount(keys: seq<string>, k: string): (n: nat)
    ensures n <= |keys|
    ensures k !in keys ==> n == 0
  {
    if keys == [] then 0
    else KeyCount(keys[..|keys| - 1], k) + if keys[|keys| - 1] == k then 1 else 0
  }

  /** Every key of `keys` has a module in `mods`. */
  predicate AllKnown(keys: seq<string>, mods: map<string, Module>) {
    forall i :: 0 <= i < |keys| ==> keys[i] in mods
  }

  /**
   * The strength table of the module `self` after addDependency toward each of `keys` in
   * turn: the module's own key is skipped, every other one adds one toward its module.
   */
  function Recorded(strengths: FlatModules.StrengthTable, self: string, keys: seq<string>,
                    mods: map<string, Module>): FlatModules.StrengthTable
    requires AllKnown(keys, mods)
  {
    if keys == [] then strengths
    else
      var prev := Recorded(strengths, self, keys[..|keys| - 1], mods);
      var k := keys[|keys| - 1];
      if k == self then prev else FlatModules.Increment(prev, mods[k])
  }

  /** Different keys are different module objects. */
  predicate Injective(mods: map<string, Module>) {
    forall k1, k2 :: k1 in mods && k2 in mods && k1 != k2 ==> mods[k1] != mods[k2]
  }

  /**
   * The visited module never records a dependency on itself, and its strength toward any other
   * module goes up by the number of times that module's key occurs.
   */
  lemma {:induction false} RecordedStrengths(strengths: FlatModules.StrengthTable, self: string,
                                             keys: seq<string>, mods: map<string, Module>, k: string)
    requires AllKnown(keys, mods) && Injective(mods) && self in mods && k in mods
    ensures k == self ==>
      FlatModules.Strength(Recorded(strengths, self, keys, mods), mods[k]) == FlatModules.Strength(strengths, mods[k])
    ensures k != self ==>
      FlatModules.Strength(Recorded(strengths, self, keys, mods), mods[k])
      == FlatModules.Strength(strengths, mods[k]) + KeyCount(keys, k)
  {
    if keys != [] {
      var init := keys[..|keys| - 1];
      assert AllKnown(init, mods);
      RecordedStrengths(strengths, self, init, mods, k);
      var last := keys[|keys| - 1];
      var prev := Recorded(strengths, self, init, mods);
      if last != self {
        if last == k {
          assert FlatModules.Strength(FlatModules.Increment(prev, mods[last]), mods[k])
            == FlatModules.Strength(prev, mods[k]) + 1;
        } else {
          assert mods[last] != mods[k];
          assert FlatModules.Strength(FlatModules.Increment(prev, mods[last]), mods[k])
            == FlatModules.Strength(prev, mods[k]);
        }
      }
    }
  }

  /** Modules added to the map later do not change what was recorded toward known modules. */
  lemma {:induction false} RecordedExtended(strengths: FlatModules.StrengthTable, self: string, keys: seq<string>,
                                            mods: map<string, Module>, bigger: map<string, Module>)
    requires AllKnown(keys, mods)
    requires forall k :: k in mods ==> k in bigger && bigger[k] == mods[k]
    ensures AllKnown(keys, bigger)
    ensures Recorded(strengths, self, keys, bigger) == Recorded(strengths, self, keys, mods)
  {
    if keys != [] {
      var init := keys[..|keys| - 1];
      assert AllKnown(init, mods);
      RecordedExtended(strengths, self, init, mods, bigger);
    }
  }

  /** One more addDependency of a visit: the recorded table for the key list grown by `k`. */
  lemma RecordedNext(s0: FlatModules.StrengthTable, self: string, keys: seq<string>, k: string,
                     before: map<string, Module>, mods: map<string, Module>,
                     prev: FlatModules.StrengthTable, next: FlatModules.StrengthTable)
    requires AllKnown(keys, before)
    requires forall x :: x in before ==> x in mods && mods[x] == before[x]
    requires prev == Recorded(s0, self, keys, before) && k in mods
    requires next == if k == self then prev else FlatModules.Increment(prev, mods[k])
    ensures AllKnown(keys + [k], mods)
    ensures next == Recorded(s0, self, keys + [k], mods)
  {
    RecordedExtended(s0, self, keys, before, mods);
    assert (keys + [k])[..|keys|] == keys;
  }

  /** `mods` keeps every entry of `m0` and adds only keys from `keys`. */
  predicate Grown(m0: map<string, Module>, mods: map<string, Module>, keys: seq<string>) {
    (forall k :: k in m0 ==> k in mods && mods[k] == m0[k])
    && (forall k :: k in mods && k !in m0 ==> k in keys)
  }

  /** One more addDependency of a visit: the map still extends `m0`, by the keys so far and `k`. */
  lemma GrowthNext(m0: map<string, Module>, before: map<string, Module>, mods: map<string, Module>,
                   keys: seq<string>, k: string)
    requires Grown(m0, before, keys)
    requires forall x :: x in before ==> x in mods && mods[x] == before[x]
    requires forall x :: x in mods ==> x in before || x == k
    ensures Grown(m0, mods, keys + [k])
  {
  }

  /** Every module added to `m0` is still named after its key and not visited. */
  ghost predicate AddedUnvisited(mods: map<string, Module>, m0: map<string, Module>)
    reads mods.Values`name, mods.Values`programModule
  {
    forall k :: k in mods && k !in m0 ==> mods[k].name == k && !mods[k].programModule
  }

  /** One more addDependency of a visit keeps the added modules unvisited, the one it may add too. */
  lemma AddedUnvisitedNext(m0: map<string, Module>, before: map<string, Module>,
                           mods: map<string, Module>, k: string)
    requires AddedUnvisited(before, m0)
    requires forall x :: x in before ==> x in mods && mods[x] == before[x]
    requires forall x :: x in mods ==> x in before || x == k
    requires k in mods && k !in before ==> mods[k].name == k && !mods[k].programModule
    ensures AddedUnvisited(mods, m0)
  {
  }

  /** Whether each key's module was visited: the programModule flags at one moment. */
  function VisitedFlags(mods: map<string, Module>): (r: map<string, bool>)
    reads mods.Values
    ensures forall k :: k in r <==> k in mods
    ensures forall k :: k in r ==> r[k] == mods[k].programModule
  {
    map k | k in mods :: mods[k].programModule
  }

  /** The keys of `keys` whose module was visited, in the same order. */
  function ProgramKeys(keys: seq<string>, visited: map<string, bool>): (r: seq<string>)
    requires forall k :: k in keys ==> k in visited
    ensures forall k :: k in r <==> k in keys && visited[k]
    ensures Ascending(keys) ==> Ascending(r)
  {
    if keys == [] then []
    else
      var init := keys[..|keys| - 1];
      var last := keys[|keys| - 1];
      assert forall k :: k in keys <==> k in init || k == last;
      var prev := ProgramKeys(init, visited);
      if visited[last] then
        assert Ascending(keys) ==> forall i :: 0 <= i < |prev| ==> Less(prev[i], last) by {
          if Ascending(keys) {
            forall i | 0 <= i < |prev|
              ensures Less(prev[i], last)
            {
              assert prev[i] in init;
              var t :| 0 <= t < |init| && init[t] == prev[i];
            }
          }
        }
        prev + [last]
      else prev
  }

  /** One more key: ProgramKeys grows by that key exactly when its module was visited. */
  lemma ProgramKeysStep(keys: seq<string>, i: int, visited: map<string, bool>)
    requires 0 <= i < |keys| && forall k :: k in keys ==> k in visited
    ensures forall k :: k in keys[..i] ==> k in visited
    ensures ProgramKeys(keys[..i + 1], visited)
      == ProgramKeys(keys[..i], visited) + if visited[keys[i]] then [keys[i]] else []
  {
    assert keys[..i + 1][..i] == keys[..i];
  }

  /** `ms` lists the modules of the keys `pk`, in that order. */
  predicate ModulesOf(ms: seq<Module>, pk: seq<string>, mods: map<string, Module>) {
    |ms| == |pk| && forall j :: 0 <= j < |pk| ==> pk[j] in mods && ms[j] == mods[pk[j]]
  }

  /** Adding the module of one more key keeps the two lists in step. */
  lemma ModulesOfNext(ms: seq<Module>, pk: seq<string>, mods: map<string, Module>, k: string)
    requires ModulesOf(ms, pk, mods) && k in mods
    ensures ModulesOf(ms + [mods[k]], pk + [k], mods)
  {
  }

  /** A module as getModule creates it: named after its key, not visited, with no strengths. */
  predicate NewModule(m: Module, key: string)
    reads m
  {
    m.name == key && !m.programModule && m.strengths == map[]
  }

  class JavaDependencyParser {
    /** The TreeMap's keys in ascending order. */
    var keys: seq<string>
    /** The TreeMap's entries. */
    var modules: map<string, Module>
    /** The module of the class being visited; null outside visit ... visitEnd. */
    var current: Option<Module>
    /** The key of `current`. */
    ghost var currentKey: string

    /** The key list and the map describe the same TreeMap, and each key has its own module. */
    ghost predicate Valid()
      reads this
    {
      Ascending(keys)
      && (forall k :: k in modules <==> k in keys)
      && Injective(modules)
      && (current.Some? ==> currentKey in modules && modules[currentKey] == current.value)
    }

    /** `new JavaDependencyParser()`: no modules, no class being visited. */
    constructor ()
      ensures Valid() && keys == [] && modules == map[] && current == None
    {
      keys := [];
      modules := map[];
      current := None;
      currentKey := "";
    }

    /** The module under `key`, if the map has one; the object a visit may change. */
    function Existing(key: string): set<Module>
      reads this
    {
      if key in modules then {modules[key]} else {}
    }

    /**
     * getModule: get-or-create by key. An existing key gives back its module and changes
     * nothing; a new key gets a fresh, unvisited module named after it.
     */
    method GetModule(name: string) returns (m: Module)
      requires Valid()
      modifies this`keys, this`modules
      ensures Valid()
      ensures ModuleKey(name) in modules && m == modules[ModuleKey(name)]
      ensures ModuleKey(name) in old(modules) ==> keys == old(keys) && modules == old(modules)
      ensures ModuleKey(name) !in old(modules) ==>
        fresh(m) && m.Valid() && m.name == ModuleKey(name) && !m.programModule && m.strengths == map[]
        && modules == old(modules)[ModuleKey(name) := m] && keys == Insert(old(keys), ModuleKey(name))
    {
      var key := ModuleKey(name);
      if key in modules {
        m := modules[key];
      } else {
        m := new FlatModules.Module(key);
        keys := Insert(keys, key);
        modules := modules[key := m];
      }
    }

    /** getVisitedModule: getModule, then the module is marked as part of the program. */
    method GetVisitedModule(name: string) returns (m: Module)
      requires Valid()
      modifies this`keys, this`modules, Existing(ModuleKey(name))`programModule
      ensures Valid()
      ensures ModuleKey(name) in modules && m == modules[ModuleKey(name)] && m.programModule
      ensures ModuleKey(name) in old(modules) ==>
        keys == old(keys) && modules == old(modules) && m.strengths == old(m.strengths)
      ensures ModuleKey(name) !in old(modules) ==>
        fresh(m) && m.Valid() && m.name == ModuleKey(name) && m.strengths == map[]
        && modules == old(modules)[ModuleKey(name) := m] && keys == Insert(old(keys), ModuleKey(name))
    {
      m := GetModule(name);
      m.SetProgramModule(true);
    }

    /**
     * addDependency: the target is looked up (or created) first; with no class being visited
     * `module.addDependency` throws. A target in the visited class's own module is skipped,
     * any other gets one more unit of strength.
     */
    method AddDependency(toModule: string, dependencyType: DependencyType) returns (r: Outcome)
      requires Valid()
      modifies this`keys, this`modules, (if current.Some? then {current.value} else {})`strengths
      ensures Valid()
      ensures ModuleKey(toModule) in modules
      ensures forall k :: k in old(modules) ==> k in modules && modules[k] == old(modules)[k]
      ensures forall k :: k in modules ==> k in old(modules) || k == ModuleKey(toModule)
      ensures ModuleKey(toModule) in old(modules) ==> keys == old(keys) && modules == old(modules)
      ensures ModuleKey(toModule) !in old(modules) ==>
        var m := modules[ModuleKey(toModule)];
        fresh(m) && NewModule(m, ModuleKey(toModule))
        && modules == old(modules)[ModuleKey(toModule) := m] && keys == Insert(old(keys), ModuleKey(toModule))
      ensures current.None? ==> r == Fail(NullPointer(""))
      ensures current.Some? ==> r == Pass
      ensures current.Some? ==>
        current.value.strengths == if ModuleKey(toModule) == currentKey then old(current.value.strengths)
          else FlatModules.Increment(old(current.value.strengths), modules[ModuleKey(toModule)])
    {
      var target := GetModule(toModule);
      if current.None? {
        return Fail(NullPointer(""));
      }
      if current.value != target {
        current.value.AddDependency(target, dependencyType);
      }
      r := Pass;
    }

    /**
     * MyClassVisitor.visit: the visited class's module becomes the current module and is
     * marked as part of the program; the superclass, when there is one, and then each
     * interface add an INHERITANCE dependency.
     */
    method Visit(name: string, superName: Option<string>, interfaces: seq<string>)
      requires Valid()
      modifies this`keys, this`modules, this`current, this`currentKey
      modifies Existing(ModuleKey(name))`programModule, Existing(ModuleKey(name))`strengths
      ensures Valid()
      ensures ModuleKey(name) in modules && current == Some(modules[ModuleKey(name)])
      ensures currentKey == ModuleKey(name) && current.value.programModule
      ensures AllKnown(KeysOf(InheritedNames(superName, interfaces)), modules)
      ensures forall k :: k in old(modules) ==> k in modules && modules[k] == old(modules)[k]
      ensures forall k :: k in modules && k !in old(modules) ==>
        k == ModuleKey(name) || k in KeysOf(InheritedNames(superName, interfaces))
      ensures forall k :: k in modules && k !in old(modules) && k != ModuleKey(name) ==>
        modules[k].name == k && !modules[k].programModule
      ensures current.value.strengths
        == Recorded(old(if ModuleKey(name) in modules then modules[ModuleKey(name)].strengths else map[]),
                    ModuleKey(name), KeysOf(InheritedNames(superName, interfaces)), modules)
    {
      var m := GetVisitedModule(name);
      current := Some(m);
      currentKey := ModuleKey(name);
      AddInheritances(InheritedNames(superName, interfaces));
    }

    /**
     * One turn of the loop in visit: the addDependency call for `name`, which keeps the modules
     * added since `m0` unvisited.
     */
    method AddInheritance(ghost m0: map<string, Module>, name: string)
      requires Valid() && current.Some? && AddedUnvisited(modules, m0)
      modifies this`keys, this`modules, current.value`strengths
      ensures Valid() && current == old(current) && currentKey == old(currentKey)
      ensures ModuleKey(name) in modules && AddedUnvisited(modules, m0)
      ensures forall k :: k in old(modules) ==> k in modules && modules[k] == old(modules)[k]
      ensures forall k :: k in modules ==> k in old(modules) || k == ModuleKey(name)
      ensures current.value.strengths == if ModuleKey(name) == currentKey then old(current.value.strengths)
        else FlatModules.Increment(old(current.value.strengths), modules[ModuleKey(name)])
    {
      ghost var before := modules;
      label Call:
      var _ := AddDependency(name, Inheritance);
      assert forall k :: k in before ==>
        (before[k].name == old@Call(before[k].name)
         && before[k].programModule == old@Call(before[k].programModule));
      assert AddedUnvisited(before, m0);
      AddedUnvisitedNext(m0, before, modules, ModuleKey(name));
    }

    /** The addDependency calls of visit, one INHERITANCE dependency per name, in order. */
    method AddInheritances(names: seq<string>)
      requires Valid() && current.Some?
      modifies this`keys, this`modules, current.value`strengths
      ensures Valid() && current == old(current) && currentKey == old(currentKey)
      ensures current.value.programModule == old(current.value.programModule)
      ensures AllKnown(KeysOf(names), modules)
      ensures forall k :: k in old(modules) ==> k in modules && modules[k] == old(modules)[k]
      ensures forall k :: k in modules && k !in old(modules) ==> k in KeysOf(names)
      ensures AddedUnvisited(modules, old(modules))
      ensures current.value.strengths == Recorded(old(current.value.strengths), currentKey, KeysOf(names), modules)
    {
      ghost var s0 := current.value.strengths;
      for i := 0 to |names|
        invariant Valid() && current == old(current) && currentKey == old(currentKey)
        invariant current.value.programModule == old(current.value.programModule)
        invariant Grown(old(modules), modules, KeysOf(names[..i]))
        invariant AddedUnvisited(modules, old(modules))
        invariant AllKnown(KeysOf(names[..i]), modules)
        invariant current.value.strengths == Recorded(s0, currentKey, KeysOf(names[..i]), modules)
      {
        ghost var before := modules;
        ghost var prev := current.value.strengths;
        AddInheritance(old(modules), names[i]);
        KeysOfNext(names, i);
        GrowthNext(old(modules), before, modules, KeysOf(names[..i]), ModuleKey(names[i]));
        RecordedNext(s0, currentKey, KeysOf(names[..i]), ModuleKey(names[i]), before, modules,
                     prev, current.value.strengths);
      }
      assert names[..|names|] == names;
    }

    /** MyClassVisitor.visitEnd: no class is being visited any more. */
    method VisitEnd()
      requires Valid()
      modifies this`current
      ensures Valid() && current == None
    {
      current := None;
    }

    /**
     * getModel: a new DependencyModel holding exactly the visited modules, in the ascending
     * key order in which the TreeMap lists its values.
     */
    method GetModel() returns (model: Dependencies.DependencyModel)
      requires Valid()
      ensures fresh(model)
      ensures var pk := ProgramKeys(keys, VisitedFlags(modules));
        Ascending(pk) && ModulesOf(model.modules, pk, modules)
    {
      var ks, mods := keys, modules;
      ghost var visited := VisitedFlags(mods);
      assert forall k :: k in ks ==> k in visited;
      model := new Dependencies.DependencyModel();
      ghost var pk: seq<string> := [];
      for i := 0 to |ks|
        invariant fresh(model)
        invariant pk == ProgramKeys(ks[..i], visited)
        invariant ModulesOf(model.modules, pk, mods)
      {
        ProgramKeysStep(ks, i, visited);
        var m := mods[ks[i]];
        if m.programModule {
          ModulesOfNext(model.modules, pk, mods, ks[i]);
          model.modules := model.modules + [m];
          pk := pk + [ks[i]];
        }
      }
      assert ks[..|ks|] == ks;
    }
  }
}
