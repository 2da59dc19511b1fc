/** Circular-dependency search over Terraform modules
    (packages/types/src/terraformModuleValidation.ts). */
module CycleSearch {
  import opened Text

  datatype Module = Module(name: string, dependencies: seq<string>)

  /** Module name to the names it depends on. A name without an entry has no edges. */
  type Graph = map<string, seq<string>>

  /** `new Map(modules.map(...))`: the last module of a name wins. */
  function ByName(modules: seq<Module>): Graph {
    if modules == [] then map[]
    else
      var last := modules[|modules| - 1];
      ByName(modules[..|modules| - 1])[last.name := last.dependencies]
  }

  lemma {:induction false} ByNameKeys(modules: seq<Module>)
    ensures forall n :: n in ByName(modules) <==> exists i :: 0 <= i < |modules| && modules[i].name == n
  {
    if modules != [] {
      var front := modules[..|modules| - 1];
      ByNameKeys(front);
      assert modules[|modules| - 1].name in ByName(modules);
      forall n | n in ByName(front)
        ensures exists i :: 0 <= i < |modules| && modules[i].name == n
      {
        var i :| 0 <= i < |front| && front[i].name == n;
        assert modules[i].name == n;
      }
      forall i | 0 <= i < |front| ensures modules[i].name in ByName(front) {
        assert front[i].name == modules[i].name;
      }
    }
  }

  /** The last module of a name wins: its dependencies are the edges. */
  lemma {:induction false} ByNameLast(modules: seq<Module>, i: nat)
    requires i < |modules| && forall j :: i < j < |modules| ==> modules[j].name != modules[i].name
    ensures modules[i].name in ByName(modules) && ByName(modules)[modules[i].name] == modules[i].dependencies
    decreases |modules|
  {
    if i < |modules| - 1 {
      ByNameLast(modules[..|modules| - 1], i);
    }
  }

  // ---- Walks ----

  predicate Edge(g: Graph, u: string, v: string) {
    u in g && v in g[u]
  }

  predicate Walk(g: Graph, w: seq<string>) {
    forall i :: 0 <= i < |w| - 1 ==> Edge(g, w[i], w[i + 1])
  }

  /** A closed walk along at least one edge. */
  predicate Cycle(g: Graph, w: seq<string>) {
    |w| >= 2 && Walk(g, w) && w[0] == w[|w| - 1]
  }

  ghost predicate Acyclic(g: Graph) {
    forall w :: !Cycle(g, w)
  }

  /** A walk that runs into itself: its last name already occurs earlier. */
  predicate Lasso(g: Graph, w: seq<string>) {
    |w| >= 2 && Walk(g, w) && w[|w| - 1] in w[..|w| - 1]
  }

  /** The part of a lasso after its lead-in is a cycle. */
  lemma LassoHoldsCycle(g: Graph, w: seq<string>) returns (k: nat)
    requires Lasso(g, w)
    ensures k < |w| - 1 && Cycle(g, w[k..])
  {
    k :| 0 <= k < |w| - 1 && w[k] == w[|w| - 1];
    forall i | 0 <= i < |w[k..]| - 1 ensures Edge(g, w[k..][i], w[k..][i + 1]) {
      assert Edge(g, w[k + i], w[k + i + 1]);
    }
  }

  // ---- What is reported ----

  /** Some walk from the name runs into itself. */
  ghost predicate LeadsToCycle(g: Graph, n: string) {
    exists w :: Lasso(g, w) && w[0] == n
  }

  predicate Distinct(w: seq<string>) {
    forall i, j :: 0 <= i < j < |w| ==> w[i] != w[j]
  }

  /** `v` is the first dependency of `u`, in listed order, that leads to a cycle, if any does. */
  ghost predicate FirstChoice(g: Graph, u: string, v: string) {
    && u in g
    && exists p :: 0 <= p < |g[u]| && g[u][p] == v && forall q :: 0 <= q < p ==> !LeadsToCycle(g, g[u][q])
  }

  ghost predicate FirstChoices(g: Graph, w: seq<string>) {
    forall i :: 0 <= i < |w| - 1 ==> FirstChoice(g, w[i], w[i + 1])
  }

  /** A lasso along first choices that stops at its first repetition. */
  ghost predicate Reported(g: Graph, w: seq<string>) {
    Lasso(g, w) && Distinct(w[..|w| - 1]) && FirstChoices(g, w)
  }

  /** The first listed module that leads to a cycle. */
  ghost predicate FirstCulprit(modules: seq<Module>, i: nat) {
    && i < |modules|
    && LeadsToCycle(ByName(modules), modules[i].name)
    && forall j :: 0 <= j < i ==> !LeadsToCycle(ByName(modules), modules[j].name)
  }

  /** What the search returns for the modules. */
  ghost predicate ReportOf(modules: seq<Module>, w: seq<string>) {
    Reported(ByName(modules), w) && exists i: nat :: FirstCulprit(modules, i) && w[0] == modules[i].name
  }

  lemma FirstChoicesWalk(g: Graph, w: seq<string>)
    requires FirstChoices(g, w)
    ensures Walk(g, w)
  {
    forall i | 0 <= i < |w| - 1 ensures Edge(g, w[i], w[i + 1]) {
      assert FirstChoice(g, w[i], w[i + 1]);
    }
  }

  lemma WalkFrom(g: Graph, w: seq<string>, i: nat)
    requires Walk(g, w) && i <= |w|
    ensures Walk(g, w[i..]) && Walk(g, w[..i])
  {
    forall k | 0 <= k < |w[i..]| - 1 ensures Edge(g, w[i..][k], w[i..][k + 1]) {
      assert Edge(g, w[i + k], w[i + k + 1]);
    }
  }

  /** The part of a lasso from before its loop on is a lasso. */
  lemma LassoFrom(g: Graph, w: seq<string>, k: nat, h: nat)
    requires Lasso(g, w) && h <= k < |w| - 1 && w[k] == w[|w| - 1]
    ensures Lasso(g, w[h..]) && w[h..][0] == w[h]
  {
    var v := w[h..];
    WalkFrom(g, w, h);
    assert v[..|v| - 1][k - h] == v[|v| - 1];
  }

  /** From inside its loop a lasso runs to the end and once around. */
  lemma LassoAround(g: Graph, w: seq<string>, k: nat, i: nat)
    requires Lasso(g, w) && k < i < |w| - 1 && w[k] == w[|w| - 1]
    ensures var around := w[i..] + w[k + 1..i + 1];
      Lasso(g, around) && around[0] == w[i]
  {
    var around := w[i..] + w[k + 1..i + 1];
    forall j | 0 <= j < |around| - 1 ensures Edge(g, around[j], around[j + 1]) {
      if j < |w| - i {
        assert around[j] == w[i + j] && (j + 1 < |w| - i ==> Edge(g, w[i + j], w[i + j + 1]));
        assert j + 1 == |w| - i ==> around[j + 1] == w[k + 1] && Edge(g, w[k], w[k + 1]);
      } else {
        var m := k + 1 + j - (|w| - i);
        assert Edge(g, w[m], w[m + 1]);
      }
    }
    assert around[|around| - 1] == w[i] == around[..|around| - 1][0];
  }

  /** Every name on a lasso leads to a cycle. */
  lemma OnLassoLeadsToCycle(g: Graph, w: seq<string>, i: nat)
    requires Lasso(g, w) && i < |w|
    ensures LeadsToCycle(g, w[i])
  {
    var k :| 0 <= k < |w| - 1 && w[k] == w[|w| - 1];
    if i <= k {
      LassoFrom(g, w, k, i);
    } else if i == |w| - 1 {
      LassoFrom(g, w, k, k);
    } else {
      LassoAround(g, w, k, i);
    }
  }

  lemma FirstChoiceUnique(g: Graph, u: string, v: string, v': string)
    requires FirstChoice(g, u, v) && FirstChoice(g, u, v') && LeadsToCycle(g, v) && LeadsToCycle(g, v')
    ensures v == v'
  {
  }

  /** Lassos along first choices agree for as long as both go on. */
  lemma {:induction false} ChoicesAgreeAt(g: Graph, v: seq<string>, w: seq<string>, i: nat)
    requires Lasso(g, v) && FirstChoices(g, v) && Lasso(g, w) && FirstChoices(g, w)
    requires v[0] == w[0] && i < |v| && i < |w|
    ensures v[i] == w[i]
  {
    if i > 0 {
      ChoicesAgreeAt(g, v, w, i - 1);
      SameNextChoice(g, v, i - 1, w, i - 1);
    }
  }

  lemma SameNextChoice(g: Graph, v: seq<string>, i: nat, w: seq<string>, j: nat)
    requires Lasso(g, v) && FirstChoices(g, v) && Lasso(g, w) && FirstChoices(g, w)
    requires i + 1 < |v| && j + 1 < |w| && v[i] == w[j]
    ensures v[i + 1] == w[j + 1]
  {
    OnLassoLeadsToCycle(g, v, i + 1);
    OnLassoLeadsToCycle(g, w, j + 1);
    FirstChoiceUnique(g, v[i], v[i + 1], w[j + 1]);
  }

  lemma NoLongerReport(g: Graph, v: seq<string>, w: seq<string>)
    requires Reported(g, v) && Reported(g, w) && v[0] == w[0]
    ensures |w| <= |v|
  {
    if |v| < |w| {
      var n := |v| - 1;
      var k :| 0 <= k < n && v[k] == v[n];
      ChoicesAgreeAt(g, v, w, k);
      ChoicesAgreeAt(g, v, w, n);
    }
  }

  lemma FirstCulpritUnique(modules: seq<Module>, i: nat, j: nat)
    requires FirstCulprit(modules, i) && FirstCulprit(modules, j)
    ensures i == j
  {
  }

  /** The report is determined by the modules alone. */
  lemma ReportUnique(modules: seq<Module>, v: seq<string>, w: seq<string>)
    requires ReportOf(modules, v) && ReportOf(modules, w)
    ensures v == w
  {
    var g := ByName(modules);
    var i: nat :| FirstCulprit(modules, i) && v[0] == modules[i].name;
    var j: nat :| FirstCulprit(modules, j) && w[0] == modules[j].name;
    FirstCulpritUnique(modules, i, j);
    NoLongerReport(g, v, w);
    NoLongerReport(g, w, v);
    forall i | 0 <= i < |v| ensures v[i] == w[i] {
      ChoicesAgreeAt(g, v, w, i);
    }
  }

  /** A cycle along first choices never leaves the loop of the report it starts with. */
  lemma {:induction false} StaysInLoop(g: Graph, w: seq<string>, k: nat, c: seq<string>, j: nat) returns (m: nat)
    requires Reported(g, w) && k < |w| - 1 && w[k] == w[|w| - 1]
    requires Cycle(g, c) && FirstChoices(g, c) && c[0] == w[0] && k <= j < |c|
    ensures k <= m < |w| - 1 && c[j] == w[m]
  {
    assert Lasso(g, c) by { assert c[..|c| - 1][0] == c[0]; }
    if j == k {
      ChoicesAgreeAt(g, c, w, k);
      m := k;
    } else {
      m := StaysInLoop(g, w, k, c, j - 1);
      SameNextChoice(g, c, j - 1, w, m);
      m := if m + 1 == |w| - 1 then k else m + 1;
    }
  }

  /** A report from a name on a cycle of first choices is that cycle: it has no lead-in. */
  lemma NoLeadIn(g: Graph, w: seq<string>, c: seq<string>)
    requires Reported(g, w) && Cycle(g, c) && FirstChoices(g, c) && c[0] == w[0]
    ensures Cycle(g, w)
  {
    var k :| 0 <= k < |w| - 1 && w[k] == w[|w| - 1];
    if k > 0 {
      var n := |c| - 1;
      assert Lasso(g, c) by { assert c[..n][0] == c[0]; }
      if n < k {
        ChoicesAgreeAt(g, c, w, n);
      } else {
        var m := StaysInLoop(g, w, k, c, n);
      }
    }
  }

  /** The report is itself a cycle exactly when first choices lead from the first culprit back to it. That
      the culprit lies on some cycle is not enough: its first choice may run into another one. */
  lemma ReportIsCycleExactly(modules: seq<Module>, w: seq<string>, i: nat)
    requires ReportOf(modules, w) && FirstCulprit(modules, i)
    ensures var g := ByName(modules);
      Cycle(g, w) <==> exists c :: Cycle(g, c) && FirstChoices(g, c) && c[0] == modules[i].name
  {
    var g := ByName(modules);
    var j: nat :| FirstCulprit(modules, j) && w[0] == modules[j].name;
    FirstCulpritUnique(modules, i, j);
    if c :| Cycle(g, c) && FirstChoices(g, c) && c[0] == modules[i].name {
      NoLeadIn(g, w, c);
    }
  }

  // ---- Finishing order ----

  /** Every name's dependencies occur strictly before it. */
  ghost predicate Topological(g: Graph, order: seq<string>) {
    forall i, v :: 0 <= i < |order| && Edge(g, order[i], v) ==> v in order[..i]
  }

  /** Along a walk from the `i`-th name every later name is found strictly earlier in the order. */
  lemma {:induction false} WalkDescends(g: Graph, order: seq<string>, w: seq<string>, i: nat)
    requires Topological(g, order) && Walk(g, w) && |w| >= 2
    requires i < |order| && order[i] == w[0]
    ensures w[|w| - 1] in order[..i]
    decreases |w|
  {
    assert Edge(g, w[0], w[1]);
    var j :| 0 <= j < i && order[j] == w[1];
    if |w| > 2 {
      assert Walk(g, w[1..]) by {
        forall k | 0 <= k < |w[1..]| - 1 ensures Edge(g, w[1..][k], w[1..][k + 1]) {
          assert Edge(g, w[k + 1], w[k + 2]);
        }
      }
      WalkDescends(g, order, w[1..], j);
      assert forall x :: x in order[..j] ==> x in order[..i];
    }
  }

  /** The first position of a name in the order. */
  ghost function First(order: seq<string>, n: string): (i: nat)
    requires n in order
    ensures i < |order| && order[i] == n && n !in order[..i]
  {
    if order[0] == n then 0
    else
      var i := 1 + First(order[1..], n);
      assert order[..i] == [order[0]] + order[1..][..i - 1];
      i
  }

  /** A topological order of all names with edges leaves no room for a cycle. */
  lemma OrderedIsAcyclic(g: Graph, order: seq<string>)
    requires Topological(g, order) && forall n :: n in g ==> n in order
    ensures Acyclic(g)
  {
    forall w ensures !Cycle(g, w) {
      if Cycle(g, w) {
        assert Edge(g, w[0], w[1]);
        WalkDescends(g, order, w, First(order, w[0]));
        assert false;
      }
    }
  }

  /** A finished name leads to no cycle. */
  lemma FinishedLeadsNowhere(g: Graph, order: seq<string>, n: string)
    requires Topological(g, order) && n in order
    ensures !LeadsToCycle(g, n)
  {
    if w :| Lasso(g, w) && w[0] == n {
      var k := LassoHoldsCycle(g, w);
      if k > 0 {
        WalkFrom(g, w, k + 1);
        WalkDescends(g, order, w[..k + 1], First(order, n));
      }
      var i := First(order, w[k]);
      WalkDescends(g, order, w[k..], i);
      assert false;
    }
  }

  // ---- The search ----

  /** Everything a walk can ever touch. */
  ghost function Names(modules: seq<Module>): set<string> {
    if modules == [] then {}
    else
      var last := modules[|modules| - 1];
      Names(modules[..|modules| - 1]) + {last.name} + (set d | d in last.dependencies)
  }

  ghost predicate ClosedUnder(g: Graph, names: set<string>) {
    forall u, v :: Edge(g, u, v) ==> v in names
  }

  lemma {:induction false} NamesClosed(modules: seq<Module>)
    ensures ClosedUnder(ByName(modules), Names(modules))
    ensures forall i :: 0 <= i < |modules| ==> modules[i].name in Names(modules)
  {
    if modules != [] {
      var front, last := modules[..|modules| - 1], modules[|modules| - 1];
      NamesClosed(front);
      forall u, v | Edge(ByName(modules), u, v) ensures v in Names(modules) {
        assert u != last.name ==> Edge(ByName(front), u, v);
      }
      forall i | 0 <= i < |modules| ensures modules[i].name in Names(modules) {
        assert i < |front| ==> modules[i] == front[i];
      }
    }
  }

  /** The shared sets of `findCircularDependency`. */
  class Search {
    const byName: Graph
    var visiting: set<string>
    var visited: set<string>
    /** Finished names in the order in which they finished. */
    ghost var order: seq<string>

    constructor (modules: seq<Module>)
      ensures byName == ByName(modules) && visiting == {} && visited == {} && order == []
    {
      byName := ByName(modules);
      visiting := {};
      visited := {};
      order := [];
    }

    /** `path` is the current chain of open calls: distinct first choices through exactly the
        `visiting` names. */
    ghost predicate Consistent(path: seq<string>)
      reads this
    {
      && visiting == (set n | n in path)
      && visited == (set n | n in order)
      && visiting !! visited
      && FirstChoices(byName, path)
      && Distinct(path)
      && Topological(byName, order)
    }

    method Visit(name: string, path: seq<string>, ghost names: set<string>)
      returns (cycle: Option<seq<string>>)
      requires Consistent(path)
      requires path != [] ==> FirstChoice(byName, path[|path| - 1], name)
      requires name in names && ClosedUnder(byName, names) && visiting <= names
      modifies this
      ensures cycle.Some? ==> Reported(byName, cycle.value) && path + [name] <= cycle.value
      ensures cycle.None? ==> Consistent(path) && name in visited && old(visited) <= visited
      decreases names - visiting
    {
      var chain := path + [name];
      assert FirstChoices(byName, chain);
      FirstChoicesWalk(byName, chain);
      if name in visiting {
        assert chain[..|chain| - 1] == path;
        return Some(chain);
      }
      if name in visited { return None; }

      visiting := visiting + {name};
      if name in byName {
        var dependencies := byName[name];
        var i := 0;
        while i < |dependencies|
          invariant 0 <= i <= |dependencies|
          invariant Consistent(chain)
          invariant old(visited) <= visited
          invariant forall j :: 0 <= j < i ==> dependencies[j] in visited
        {
          forall q | 0 <= q < i ensures !LeadsToCycle(byName, dependencies[q]) {
            FinishedLeadsNowhere(byName, order, dependencies[q]);
          }
          assert FirstChoice(byName, name, dependencies[i]) && Edge(byName, name, dependencies[i]);
          cycle := Visit(dependencies[i], chain, names);
          if cycle.Some? {
            assert path + [name] <= cycle.value;
            return;
          }
          i := i + 1;
        }
      }
      FinishKeepsOrder(byName, order, name);
      visiting := visiting - {name};
      visited := visited + {name};
      order := order + [name];
      return None;
    }
  }

  /** A name whose dependencies are all finished may finish. */
  lemma FinishKeepsOrder(g: Graph, order: seq<string>, name: string)
    requires Topological(g, order)
    requires forall v :: Edge(g, name, v) ==> v in order
    ensures Topological(g, order + [name])
  {
    var order' := order + [name];
    forall i, v | 0 <= i < |order'| && Edge(g, order'[i], v) ensures v in order'[..i] {
      if i < |order| {
        assert order'[i] == order[i] && order'[..i] == order[..i];
      } else {
        assert order'[..i] == order;
      }
    }
  }

  /** The search returns nothing exactly when the dependency graph has no cycle. Otherwise it starts at
      the first listed module that leads to a cycle, follows at each name the first dependency that does,
      and stops at the first repetition. */
  method FindCircularDependency(modules: seq<Module>) returns (cycle: Option<seq<string>>)
    ensures cycle.None? <==> Acyclic(ByName(modules))
    ensures cycle.Some? ==> ReportOf(modules, cycle.value)
  {
    var search := new Search(modules);
    ghost var g, names := ByName(modules), Names(modules);
    NamesClosed(modules);
    ByNameKeys(modules);
    var i := 0;
    while i < |modules|
      invariant 0 <= i <= |modules|
      invariant search.byName == g
      invariant search.Consistent([])
      invariant forall j :: 0 <= j < i ==> modules[j].name in search.visited
    {
      forall j | 0 <= j < i ensures !LeadsToCycle(g, modules[j].name) {
        FinishedLeadsNowhere(g, search.order, modules[j].name);
      }
      cycle := search.Visit(modules[i].name, [], names);
      if cycle.Some? {
        ghost var k := LassoHoldsCycle(g, cycle.value);
        assert [modules[i].name] <= cycle.value;
        assert FirstCulprit(modules, i);
        return;
      }
      i := i + 1;
    }
    OrderedIsAcyclic(g, search.order);
    return None;
  }

  /** A report with a lead-in: for these modules the search returns this walk, which is no cycle. */
  lemma LeadInExample()
    ensures var modules := [Module("app", ["db"]), Module("db", ["db"])];
      forall w :: ReportOf(modules, w) <==> w == ["app", "db", "db"]
    ensures !Cycle(ByName([Module("app", ["db"]), Module("db", ["db"])]), ["app", "db", "db"])
  {
    var modules := [Module("app", ["db"]), Module("db", ["db"])];
    var g, w := ByName(modules), ["app", "db", "db"];
    assert modules[..1] == [Module("app", ["db"])];
    assert ByName(modules[..1]) == map["app" := ["db"]];
    assert g["app"] == g["db"] == ["db"];
    assert w[..2][1] == "db" && w[0] != w[2];
    assert g["app"][0] == g["db"][0] == "db";
    assert FirstChoice(g, w[0], w[1]) && FirstChoice(g, w[1], w[2]);
    assert FirstCulprit(modules, 0);
    forall v | ReportOf(modules, v) ensures v == w {
      ReportUnique(modules, v, w);
    }
  }

  /** The first culprit lies on a cycle of its own, and still the report has a lead-in. */
  lemma OnCycleIsNotEnough()
    ensures var modules := [Module("a", ["b", "a"]), Module("b", ["b"])];
      && Cycle(ByName(modules), ["a", "a"])
      && ReportOf(modules, ["a", "b", "b"]) && !Cycle(ByName(modules), ["a", "b", "b"])
  {
    var modules := [Module("a", ["b", "a"]), Module("b", ["b"])];
    var g, w := ByName(modules), ["a", "b", "b"];
    assert modules[..1] == [Module("a", ["b", "a"])];
    assert ByName(modules[..1]) == map["a" := ["b", "a"]];
    assert g["a"] == ["b", "a"] && g["b"] == ["b"];
    assert g["a"][0] == g["b"][0] == "b" && g["a"][1] == "a";
    assert w[..2][1] == "b" && w[0] != w[2];
    assert FirstChoice(g, w[0], w[1]) && FirstChoice(g, w[1], w[2]);
    assert FirstCulprit(modules, 0);
  }
}
