/**
 * ui/matrix/DependencyMatrixViewModel.java: the state of the dependency matrix view, apart
 * from the model itself: which module is selected, which matrix cell is selected, which
 * modules are opened, and the cached list of visible modules (a pre-order walk from the root
 * that descends only into opened modules).
 *
 * Modules are values of the module tree; the selection and the opened set hold module
 * identities, which is what Java's reference comparison and IdentityHashSet compare.
 * The newer Module members this class calls (getDependencyStrength, getDependencies,
 * outgoingDependencies) are not part of this model and are given as functions.
 */
module MatrixView {
  import opened Wrappers
  import opened Kinds
  import opened Sequences
  import opened ModuleTree
  import opened TreeEdit
  import opened IdentitySets
  import PackageSort

  /** java.awt.Dimension as the selected cell: `width` is the "from" index, `height` the "to" index. */
  datatype Cell = Cell(width: int, height: int)

  /** Module.getDependencyStrength(to) of the newer Module class. */
  type StrengthOf = (Node, Node) -> int

  /**
   * Module.getDependencies(to) of the newer Module class, each Dependency already rendered by
   * its toString; no dependencies (Java's null) is the empty list.
   */
  type DependencyLines = (Node, Node) -> seq<string>

  /**
   * The modules addVisibleModules lists for the subtree `m`: `m` itself, then, when `m` is
   * opened, the visible modules of each child in turn.
   */
  function Visible(m: Node, openIds: set<ModuleId>): (r: seq<Node>)
    ensures |r| >= 1 && r[0] == m
    ensures m.id !in openIds || IsLeaf(m) ==> r == [m]
    decreases m, 1
  {
    match m
    case Class(_, _, _, _) => [m]
    case Package(_, _, cs) => [m] + if m.id in openIds then VisibleAll(cs, openIds) else []
  }

  /** The visible modules of the siblings `cs`, one subtree after the other. */
  function VisibleAll(cs: seq<Node>, openIds: set<ModuleId>): (r: seq<Node>)
    ensures |r| >= |cs|
    decreases cs, 0
  {
    if cs == [] then []
    else VisibleAll(cs[..|cs| - 1], openIds) + Visible(cs[|cs| - 1], openIds)
  }

  /** A module is visible among siblings exactly when it is visible under one of them. */
  lemma {:induction false} VisibleAllMembers(cs: seq<Node>, openIds: set<ModuleId>, x: Node)
    ensures x in VisibleAll(cs, openIds) <==> exists c :: c in cs && x in Visible(c, openIds)
  {
    if cs != [] {
      var init := cs[..|cs| - 1];
      var last := cs[|cs| - 1];
      VisibleAllMembers(init, openIds, x);
      assert cs == init + [last];
      if x in VisibleAll(cs, openIds) {
        if x in VisibleAll(init, openIds) {
          var c :| c in init && x in Visible(c, openIds);
          assert c in cs;
        } else {
          assert last in cs && x in Visible(last, openIds);
        }
      }
      forall c | c in cs && x in Visible(c, openIds)
        ensures x in VisibleAll(cs, openIds)
      {
        if c != last {
          assert c in init;
        }
      }
    }
  }

  /** Opening more modules never hides one: the visible list only grows (as a set). */
  lemma {:induction false} OpeningMoreShowsMore(m: Node, o1: set<ModuleId>, o2: set<ModuleId>, x: Node)
    requires o1 <= o2 && x in Visible(m, o1)
    ensures x in Visible(m, o2)
    decreases m
  {
    if x != m {
      var cs := m.children;
      VisibleAllMembers(cs, o1, x);
      var c :| c in cs && x in Visible(c, o1);
      OpeningMoreShowsMore(c, o1, o2, x);
      VisibleAllMembers(cs, o2, x);
    }
  }

  /** What is visible under a visible module is visible from the root. */
  lemma {:induction false} VisibleTransitive(m: Node, openIds: set<ModuleId>, x: Node, y: Node)
    requires x in Visible(m, openIds) && y in Visible(x, openIds)
    ensures y in Visible(m, openIds)
    decreases m
  {
    if x != m {
      var cs := m.children;
      VisibleAllMembers(cs, openIds, x);
      var c :| c in cs && x in Visible(c, openIds);
      VisibleTransitive(c, openIds, x, y);
      VisibleAllMembers(cs, openIds, y);
    }
  }

  /**
   * Opening a visible package shows each of its children: this is what
   * openSelectedModule is for.
   */
  lemma OpenShowsChildren(root: Node, openIds: set<ModuleId>, n: Node, c: Node)
    requires n in Visible(root, openIds) && n.Package? && c in n.children
    ensures c in Visible(root, openIds + {n.id})
  {
    var o2 := openIds + {n.id};
    OpeningMoreShowsMore(root, openIds, o2, n);
    VisibleAllMembers(n.children, o2, c);
    VisibleTransitive(root, o2, n, c);
  }

  /** The identities of a list of modules, in order. */
  function Ids(vs: seq<Node>): (r: seq<ModuleId>)
    ensures |r| == |vs| && forall i :: 0 <= i < |vs| ==> r[i] == vs[i].id
  {
    seq(|vs|, i requires 0 <= i < |vs| => vs[i].id)
  }

  /** The position moveSelection moves to: the selected module's index plus the direction's delta. */
  function MoveTarget(vs: seq<Node>, id: ModuleId, direction: MoveDirection): int {
    IndexOf(Ids(vs), id) + direction.Delta()
  }

  /**
   * The selection after moveSelection: the module at the new position when that position is
   * within the visible list, otherwise the same selection.
   */
  function SelectionAfterMove(vs: seq<Node>, id: ModuleId, direction: MoveDirection): (r: ModuleId)
    ensures r == id || exists k :: 0 <= k < |vs| && r == vs[k].id
  {
    var k := MoveTarget(vs, id, direction);
    if 0 <= k < |vs| then vs[k].id else id
  }

  /** With distinct identities, moving the selection down and then up comes back to it. */
  lemma MoveDownThenUp(vs: seq<Node>, id: ModuleId)
    requires forall i, j :: 0 <= i < j < |vs| ==> vs[i].id != vs[j].id
    requires 0 <= IndexOf(Ids(vs), id) < |vs| - 1
    ensures SelectionAfterMove(vs, SelectionAfterMove(vs, id, Down), Up) == id
  {
    var ids := Ids(vs);
    var i := IndexOf(ids, id);
    IndexOfAt(ids, i + 1, ids[i + 1]);
  }

  /**
   * A selection that is not in the visible list has index -1; Java's `assert index != -1` is
   * off unless assertions are enabled, so moving down from it selects the first visible
   * module, the root.
   */
  lemma MissingSelectionMovesToRoot(root: Node, openIds: set<ModuleId>, id: ModuleId)
    requires id !in Ids(Visible(root, openIds))
    ensures SelectionAfterMove(Visible(root, openIds), id, Down) == root.id
    ensures SelectionAfterMove(Visible(root, openIds), id, Up) == id
  {
  }

  /** The selected node once sortChildren has run on it; a type's sortChildren does nothing. */
  function SortedNode(n: Node, outgoing: PackageSort.OutgoingWeight): Node {
    if n.Package? then n.(children := PackageSort.SortedChildren(n.children, outgoing)) else n
  }

  /** The tree after `selectedModule.sortChildren()`: the selected node is sorted in place. */
  function SortedAt(root: Node, id: ModuleId, outgoing: PackageSort.OutgoingWeight): Node {
    match Find(root, id)
    case None => root
    case Some(n) => Replace(root, id, SortedNode(n, outgoing))
  }

  /** After sortModules the selected node, found from the root, has its children sorted. */
  lemma SortedAtFindsSorted(root: Node, id: ModuleId, outgoing: PackageSort.OutgoingWeight)
    requires Find(root, id).Some?
    ensures Find(SortedAt(root, id, outgoing), id) == Some(SortedNode(Find(root, id).value, outgoing))
    ensures SortedAt(root, id, outgoing).id == root.id || root.id == id
    ensures Find(root, id).value.Package? ==>
      multiset(Find(SortedAt(root, id, outgoing), id).value.children) == multiset(Find(root, id).value.children)
  {
    var n := Find(root, id).value;
    FindReplaced(root, id, SortedNode(n, outgoing));
    if n.Package? {
      PackageSort.SortedChildrenProperties(n.children, outgoing);
    }
  }

  /**
   * The tree after `selectedModule.move(direction)`. That method belongs to the newer Module
   * class, which is not part of this model; it is taken to be the parent's move(this,
   * direction), and nothing when the module has no parent.
   */
  function MovedAt(root: Node, id: ModuleId, direction: MoveDirection): Node {
    match ParentOf(root, id)
    case None => root
    case Some(p) => Replace(root, p.id, PackageSort.Move(p, ChildWithId(p.children, id).value, direction))
  }

  /** The parent ParentOf finds is a node of the tree. */
  lemma {:induction false} ParentIsNode(m: Node, id: ModuleId)
    requires ParentOf(m, id).Some?
    ensures Find(m, ParentOf(m, id).value.id).Some?
    decreases m, 1
  {
    if ChildWithId(m.children, id).None? && m.id != ParentOf(m, id).value.id {
      ParentInIsNode(m.children, id);
    }
  }

  /** `ParentIsNode` over siblings. */
  lemma {:induction false} ParentInIsNode(cs: seq<Node>, id: ModuleId)
    requires ParentIn(cs, id).Some?
    ensures FindIn(cs, ParentIn(cs, id).value.id).Some?
    decreases cs, 0
  {
    var pid := ParentIn(cs, id).value.id;
    if ParentOf(cs[0], id).Some? {
      ParentIsNode(cs[0], id);
    } else if Find(cs[0], pid).None? {
      ParentInIsNode(cs[1..], id);
    }
  }

  /** After moveSelectedModule the parent, found from the root, is the moved parent. */
  lemma MovedAtFindsMoved(root: Node, id: ModuleId, direction: MoveDirection)
    requires ParentOf(root, id).Some?
    ensures var p := ParentOf(root, id).value;
      Find(MovedAt(root, id, direction), p.id)
      == Some(PackageSort.Move(p, ChildWithId(p.children, id).value, direction))
  {
    var p := ParentOf(root, id).value;
    ParentIsNode(root, id);
    FindReplaced(root, p.id, PackageSort.Move(p, ChildWithId(p.children, id).value, direction));
  }

  /** The selection names a node of the tree that has children (the guard of open and close). */
  predicate Expandable(root: Node, selected: Option<ModuleId>) {
    selected.Some? && Find(root, selected.value).Some? && !IsLeaf(Find(root, selected.value).value)
  }

  /** The lines listDependencies appends for one pair of modules. */
  function LinesText(from: Node, lines: seq<string>): string {
    if lines == [] then ""
    else LinesText(from, lines[..|lines| - 1]) + "Depencency from=" + from.name + " " + lines[|lines| - 1] + "\n"
  }

  /**
   * The text listDependencies appends for `from` and `to`: first for each child of `from`
   * against `to`, then for `from` against each child of `to`, then the pair's own dependencies.
   */
  function DependencyText(from: Node, to: Node, deps: DependencyLines): string
    decreases from, to, 2
  {
    FromPart(from, to, deps) + ToPart(from, to, deps) + LinesText(from, deps(from, to))
  }

  /** The part of `DependencyText` for the children of `from`; none for a type. */
  function FromPart(from: Node, to: Node, deps: DependencyLines): string
    decreases from, to, 1
  {
    match from
    case Class(_, _, _, _) => ""
    case Package(_, _, cs) => FromChildrenText(cs, to, deps)
  }

  /** The part of `DependencyText` for the children of `to`; none for a type. */
  function ToPart(from: Node, to: Node, deps: DependencyLines): string
    decreases from, to, 1
  {
    match to
    case Class(_, _, _, _) => ""
    case Package(_, _, ts) => ToChildrenText(from, ts, deps)
  }

  /** `DependencyText` of each of `cs` against `to`, in order. */
  function FromChildrenText(cs: seq<Node>, to: Node, deps: DependencyLines): string
    decreases cs, to, 0
  {
    if cs == [] then ""
    else FromChildrenText(cs[..|cs| - 1], to, deps) + DependencyText(cs[|cs| - 1], to, deps)
  }

  /** `DependencyText` of `from` against each of `ts`, in order. */
  function ToChildrenText(from: Node, ts: seq<Node>, deps: DependencyLines): string
    decreases from, ts, 0
  {
    if ts == [] then ""
    else ToChildrenText(from, ts[..|ts| - 1], deps) + DependencyText(from, ts[|ts| - 1], deps)
  }

  /** For two leaves the details are just their own dependency lines. */
  lemma LeavesListOwnDependencies(from: Node, to: Node, deps: DependencyLines)
    requires IsLeaf(from) && IsLeaf(to)
    ensures DependencyText(from, to, deps) == LinesText(from, deps(from, to))
  {
    assert FromPart(from, to, deps) == "" && ToPart(from, to, deps) == "";
  }

  /** The heading of getDependencyDetailsOfSelectedCell. */
  function DetailsHeader(from: Node, to: Node): string {
    "Dependencies from module \n    " + from.name + "\nto module\n    " + to.name + "\n\n"
  }

  class DependencyMatrixViewModel {
    var root: Node
    var selectedModule: Option<ModuleId>
    var selectedCell: Option<Cell>
    const openedModules: IdentityHashSet<ModuleId>
    var cachedVisibleModules: Option<seq<Node>>
    /** ChangeListenerList: the number of stateChanged notifications fired so far. */
    var changeEvents: nat
    const strength: StrengthOf
    const outgoing: PackageSort.OutgoingWeight
    const dependencies: DependencyLines

    /** A filled cache holds the visible modules of the current tree and opened set. */
    ghost predicate Valid()
      reads this`root, this`cachedVisibleModules, openedModules`elements
    {
      cachedVisibleModules.Some? ==> cachedVisibleModules.value == Visible(root, openedModules.elements)
    }

    /** The constructor for a non-null root: the root is selected and opened. */
    constructor (root: Node, strength: StrengthOf, outgoing: PackageSort.OutgoingWeight,
                 dependencies: DependencyLines)
      ensures Valid() && fresh(openedModules)
      ensures this.root == root && selectedModule == Some(root.id) && selectedCell == None
      ensures openedModules.elements == {root.id}
      ensures cachedVisibleModules == None && changeEvents == 0
      ensures this.strength == strength && this.outgoing == outgoing && this.dependencies == dependencies
    {
      this.root := root;
      selectedModule := Some(root.id);
      selectedCell := None;
      cachedVisibleModules := None;
      changeEvents := 0;
      this.strength := strength;
      this.outgoing := outgoing;
      this.dependencies := dependencies;
      openedModules := new IdentityHashSet<ModuleId>();
      new;
      var _ := openedModules.Add(root.id);
    }

    /** flushCaches: the visible list is recomputed on next use (the tree's own caches are not modelled). */
    method FlushCaches()
      modifies this`cachedVisibleModules
      ensures cachedVisibleModules == None && Valid()
    {
      cachedVisibleModules := None;
    }

    /** fireStateChanged: one more notification. */
    method FireStateChanged()
      modifies this`changeEvents
      ensures changeEvents == old(changeEvents) + 1
    {
      changeEvents := changeEvents + 1;
    }

    /** getVisibleModules: the cached list, computed by addVisibleModules from the root when empty. */
    method GetVisibleModules() returns (vs: seq<Node>)
      requires Valid()
      modifies this`cachedVisibleModules
      ensures Valid()
      ensures vs == Visible(root, openedModules.elements) && cachedVisibleModules == Some(vs)
    {
      if cachedVisibleModules.None? {
        var modules := AddVisibleModules([], [root]);
        assert [root][..0] == [];
        cachedVisibleModules := Some(modules);
      }
      vs := cachedVisibleModules.value;
    }

    /** addVisibleModules: appends each module and, when it is opened, its children's walk. */
    method AddVisibleModules(result: seq<Node>, modules: seq<Node>) returns (r: seq<Node>)
      ensures r == result + VisibleAll(modules, openedModules.elements)
      decreases modules
    {
      r := result;
      for i := 0 to |modules|
        invariant r == result + VisibleAll(modules[..i], openedModules.elements)
      {
        var m := modules[i];
        assert modules[..i + 1][..i] == modules[..i];
        ghost var before := r;
        r := r + [m];
        var isOpen := openedModules.Contains(m.id);
        if isOpen && m.Package? {
          r := AddVisibleModules(r, m.children);
        }
        assert r == before + Visible(m, openedModules.elements);
      }
      assert modules[..|modules|] == modules;
    }

    /** getVisibleModuleCount: the root is always visible. */
    method GetVisibleModuleCount() returns (n: int)
      requires Valid()
      modifies this`cachedVisibleModules
      ensures Valid() && n == |Visible(root, openedModules.elements)| && n >= 1
    {
      var vs := GetVisibleModules();
      n := |vs|;
    }

    /** getModuleAt: the visible module at `index`; List.get throws outside the list. */
    method GetModuleAt(index: int) returns (r: Result<Node>)
      requires Valid()
      modifies this`cachedVisibleModules
      ensures Valid() && cachedVisibleModules == Some(Visible(root, openedModules.elements))
      ensures var vs := Visible(root, openedModules.elements);
        if 0 <= index < |vs| then r == Success(vs[index]) else r == Failure(IndexOutOfBounds(index))
    {
      var vs := GetVisibleModules();
      if 0 <= index < |vs| {
        r := Success(vs[index]);
      } else {
        r := Failure(IndexOutOfBounds(index));
      }
    }

    /** dependencyStrength: the strength from the visible module at `from` to the one at `to`. */
    method DependencyStrength(from: int, to: int) returns (r: Result<int>)
      requires Valid()
      modifies this`cachedVisibleModules
      ensures Valid() && cachedVisibleModules == Some(Visible(root, openedModules.elements))
      ensures var vs := Visible(root, openedModules.elements);
        if !(0 <= from < |vs|) then r == Failure(IndexOutOfBounds(from))
        else if !(0 <= to < |vs|) then r == Failure(IndexOutOfBounds(to))
        else r == Success(strength(vs[from], vs[to]))
    {
      var vs := GetVisibleModules();
      if !(0 <= from < |vs|) {
        return Failure(IndexOutOfBounds(from));
      }
      if !(0 <= to < |vs|) {
        return Failure(IndexOutOfBounds(to));
      }
      r := Success(strength(vs[from], vs[to]));
    }

    /**
     * getDependencyDetailsOfSelectedCell: null without a selected cell; otherwise the heading
     * naming both modules followed by what listDependencies appends.
     */
    method GetDependencyDetailsOfSelectedCell() returns (r: Result<Option<string>>)
      requires Valid()
      modifies this`cachedVisibleModules
      ensures Valid()
      ensures selectedCell.None? ==> r == Success(None) && unchanged(this`cachedVisibleModules)
      ensures selectedCell.Some? ==>
        var vs := Visible(root, openedModules.elements);
        var from := selectedCell.value.width;
        var to := selectedCell.value.height;
        if !(0 <= from < |vs|) then r == Failure(IndexOutOfBounds(from))
        else if !(0 <= to < |vs|) then r == Failure(IndexOutOfBounds(to))
        else r == Success(Some(DetailsHeader(vs[from], vs[to]) + DependencyText(vs[from], vs[to], dependencies)))
    {
      if selectedCell.None? {
        return Success(None);
      }
      var vs := GetVisibleModules();
      var from := selectedCell.value.width;
      var to := selectedCell.value.height;
      if !(0 <= from < |vs|) {
        return Failure(IndexOutOfBounds(from));
      }
      if !(0 <= to < |vs|) {
        return Failure(IndexOutOfBounds(to));
      }
      var fromModule := vs[from];
      var toModule := vs[to];
      var b := DetailsHeader(fromModule, toModule);
      b := ListDependencies(fromModule, toModule, b);
      r := Success(Some(b));
    }

    /** listDependencies: appends to the builder `b` the lines of DependencyText. */
    method ListDependencies(fromModule: Node, toModule: Node, b: string) returns (r: string)
      ensures r == b + DependencyText(fromModule, toModule, dependencies)
      decreases fromModule, toModule, 2
    {
      ghost var fromPart := FromPart(fromModule, toModule, dependencies);
      ghost var toPart := ToPart(fromModule, toModule, dependencies);
      r := b;
      if fromModule.Package? {
        r := ListFromChildren(fromModule.children, toModule, r);
      }
      assert r == b + fromPart;
      if toModule.Package? {
        r := ListToChildren(fromModule, toModule.children, r);
      }
      assert r == b + fromPart + toPart;
      r := AppendLines(fromModule, dependencies(fromModule, toModule), r);
      AppendAssoc(b + fromPart + toPart, [], LinesText(fromModule, dependencies(fromModule, toModule)));
      AppendAssoc(b, fromPart + toPart, LinesText(fromModule, dependencies(fromModule, toModule)));
      AppendAssoc(b, fromPart, toPart);
    }

    /** The loop of listDependencies over the children of the "from" module. */
    method ListFromChildren(cs: seq<Node>, toModule: Node, b: string) returns (r: string)
      ensures r == b + FromChildrenText(cs, toModule, dependencies)
      decreases cs, toModule, 1
    {
      r := b;
      for i := 0 to |cs|
        invariant r == b + FromChildrenText(cs[..i], toModule, dependencies)
      {
        assert cs[..i + 1][..i] == cs[..i];
        r := ListDependencies(cs[i], toModule, r);
      }
      assert cs[..|cs|] == cs;
    }

    /** The loop of listDependencies over the children of the "to" module. */
    method ListToChildren(fromModule: Node, ts: seq<Node>, b: string) returns (r: string)
      ensures r == b + ToChildrenText(fromModule, ts, dependencies)
      decreases fromModule, ts, 1
    {
      r := b;
      for i := 0 to |ts|
        invariant r == b + ToChildrenText(fromModule, ts[..i], dependencies)
      {
        assert ts[..i + 1][..i] == ts[..i];
        r := ListDependencies(fromModule, ts[i], r);
      }
      assert ts[..|ts|] == ts;
    }

    /** The loop of listDependencies over the pair's own dependencies. */
    method AppendLines(fromModule: Node, lines: seq<string>, b: string) returns (r: string)
      ensures r == b + LinesText(fromModule, lines)
    {
      r := b;
      for i := 0 to |lines|
        invariant r == b + LinesText(fromModule, lines[..i])
      {
        assert lines[..i + 1][..i] == lines[..i];
        r := r + "Depencency from=" + fromModule.name + " " + lines[i] + "\n";
      }
      assert lines[..|lines|] == lines;
    }

    /** setSelectedModule: notifies only when the selection changes. */
    method SetSelectedModule(selection: Option<ModuleId>)
      modifies this`selectedModule, this`changeEvents
      ensures selectedModule == selection
      ensures changeEvents == old(changeEvents) + if selection != old(selectedModule) then 1 else 0
    {
      if selection != selectedModule {
        selectedModule := selection;
        FireStateChanged();
      }
    }

    /**
     * setSelectedCell: `dimension.equals(selectedCell)` throws on a null dimension; otherwise
     * the cell is stored and a notification fired only when it differs.
     */
    method SetSelectedCell(dimension: Option<Cell>) returns (r: Outcome)
      modifies this`selectedCell, this`changeEvents
      ensures dimension.None? ==> r == Fail(NullPointer("")) && unchanged(this`selectedCell, this`changeEvents)
      ensures dimension.Some? ==> r == Pass && selectedCell == dimension
      ensures dimension.Some? ==>
        changeEvents == old(changeEvents) + if dimension != old(selectedCell) then 1 else 0
    {
      if dimension.None? {
        return Fail(NullPointer(""));
      }
      if dimension != selectedCell {
        selectedCell := dimension;
        FireStateChanged();
      }
      r := Pass;
    }

    /**
     * moveSelection: nothing without a selection; otherwise the selection moves to the
     * visible module one step up or down, when there is one.
     */
    method MoveSelection(direction: MoveDirection)
      requires Valid()
      modifies this`cachedVisibleModules, this`selectedModule, this`changeEvents
      ensures Valid()
      ensures old(selectedModule).None? ==>
        unchanged(this`cachedVisibleModules, this`selectedModule, this`changeEvents)
      ensures old(selectedModule).Some? ==>
        var vs := Visible(root, openedModules.elements);
        var k := MoveTarget(vs, old(selectedModule).value, direction);
        cachedVisibleModules == Some(vs)
        && selectedModule == Some(SelectionAfterMove(vs, old(selectedModule).value, direction))
        && changeEvents == old(changeEvents) + if 0 <= k < |vs| then 1 else 0
    {
      if selectedModule.None? {
        return;
      }
      var visibleModules := GetVisibleModules();
      var index := IndexOf(Ids(visibleModules), selectedModule.value);
      var newIndex := index + direction.Delta();
      if 0 <= newIndex < |visibleModules| {
        selectedModule := Some(visibleModules[newIndex].id);
        FireStateChanged();
      }
    }

    /** sortModules: with a selection, the selected module sorts its children and the view refreshes. */
    method SortModules()
      requires Valid()
      modifies this`root, this`cachedVisibleModules, this`changeEvents
      ensures Valid()
      ensures old(selectedModule).None? ==> unchanged(this`root, this`cachedVisibleModules, this`changeEvents)
      ensures old(selectedModule).Some? ==>
        root == SortedAt(old(root), selectedModule.value, outgoing)
        && cachedVisibleModules == None && changeEvents == old(changeEvents) + 1
    {
      if selectedModule.Some? {
        var id := selectedModule.value;
        var found := Find(root, id);
        if found.Some? {
          var sorted := PackageSort.SortChildren(found.value, outgoing);
          root := Replace(root, id, sorted);
        }
        FlushCaches();
        FireStateChanged();
      }
    }

    /** moveSelectedModule: with a selection, the selected module moves within its parent. */
    method MoveSelectedModule(direction: MoveDirection)
      requires Valid()
      modifies this`root, this`cachedVisibleModules, this`changeEvents
      ensures Valid()
      ensures old(selectedModule).None? ==> unchanged(this`root, this`cachedVisibleModules, this`changeEvents)
      ensures old(selectedModule).Some? ==>
        root == MovedAt(old(root), selectedModule.value, direction)
        && cachedVisibleModules == None && changeEvents == old(changeEvents) + 1
    {
      if selectedModule.Some? {
        root := MovedAt(root, selectedModule.value, direction);
        FlushCaches();
        FireStateChanged();
      }
    }

    /**
     * openSelectedModule: a selected module with children is added to the opened set; if it
     * was not there yet the visible list is invalidated and a notification fired.
     */
    method OpenSelectedModule()
      requires Valid()
      modifies this`cachedVisibleModules, this`changeEvents, openedModules
      ensures Valid()
      ensures Expandable(root, selectedModule) ==>
        openedModules.elements == old(openedModules.elements) + {selectedModule.value}
      ensures !Expandable(root, selectedModule) ==> openedModules.elements == old(openedModules.elements)
      ensures if Expandable(root, selectedModule) && selectedModule.value !in old(openedModules.elements)
        then cachedVisibleModules == None && changeEvents == old(changeEvents) + 1
        else unchanged(this`cachedVisibleModules, this`changeEvents)
    {
      if selectedModule.Some? {
        var found := Find(root, selectedModule.value);
        if found.Some? && !IsLeaf(found.value) {
          var added := openedModules.Add(selectedModule.value);
          if added {
            cachedVisibleModules := None;
            FireStateChanged();
          } else {
            assert openedModules.elements == old(openedModules.elements);
          }
        }
      }
    }

    /**
     * closeSelectedModule: a selected module with children is removed from the opened set; if
     * it was there the visible list is invalidated and a notification fired.
     */
    method CloseSelectedModule()
      requires Valid()
      modifies this`cachedVisibleModules, this`changeEvents, openedModules
      ensures Valid()
      ensures Expandable(root, selectedModule) ==>
        openedModules.elements == old(openedModules.elements) - {selectedModule.value}
      ensures !Expandable(root, selectedModule) ==> openedModules.elements == old(openedModules.elements)
      ensures if Expandable(root, selectedModule) && selectedModule.value in old(openedModules.elements)
        then cachedVisibleModules == None && changeEvents == old(changeEvents) + 1
        else unchanged(this`cachedVisibleModules, this`changeEvents)
    {
      if selectedModule.Some? {
        var found := Find(root, selectedModule.value);
        if found.Some? && !IsLeaf(found.value) {
          var removed := openedModules.Remove(selectedModule.value);
          if removed {
            cachedVisibleModules := None;
            FireStateChanged();
          } else {
            assert openedModules.elements == old(openedModules.elements);
          }
        }
      }
    }

    /** isOpened: membership in the opened set. */
    method IsOpened(id: ModuleId) returns (b: bool)
      ensures b <==> id in openedModules.elements
    {
      b := openedModules.Contains(id);
    }

    /** hasSelection: whether a module is selected. */
    predicate HasSelection()
      reads this`selectedModule
    {
      selectedModule.Some?
    }
  }

  /** `new DependencyMatrixViewModel(root)`: a null root is rejected with a NullPointerException. */
  method NewDependencyMatrixViewModel(root: Option<Node>, strength: StrengthOf,
                                      outgoing: PackageSort.OutgoingWeight, dependencies: DependencyLines)
    returns (r: Result<DependencyMatrixViewModel>)
    ensures root.None? ==> r == Failure(NullPointer("null root"))
    ensures root.Some? ==> (r.Success? && fresh(r.value) && r.value.Valid()
      && r.value.root == root.value && r.value.selectedModule == Some(root.value.id)
      && r.value.openedModules.elements == {root.value.id})
  {
    if root.None? {
      return Failure(NullPointer("null root"));
    }
    var model := new DependencyMatrixViewModel(root.value, strength, outgoing, dependencies);
    r := Success(model);
  }
}
