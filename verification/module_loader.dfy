/** The dependency bookkeeping of `ModuleLoader` (core/module-loader.js): the
    dependency table, the load order computed by depth-first topological
    sort, and the class-name and graph helpers. Loading itself (dynamic
    `import`, promises) is not part of this model. */
module ModuleLoader {
  import opened Wrappers
  import opened JsString
  import Helpers

  /** `this.dependencies`: module name to the names it needs first. */
  type Table = map<string, seq<string>>

  /** The table the loader is constructed with. */
  const Dependencies: Table := map[
    "ui" := ["table", "player", "hand"],
    "hand" := ["player"],
    "player" := ["table"],
    "table" := []]

  /** `this.dependencies[module] || []`: a name missing from the table has
      no dependencies. */
  function DepsOf(table: Table, m: string): (deps: seq<string>)
    ensures m !in table ==> deps == []
  {
    if m in table then table[m] else []
  }

  /** Every name the table mentions, as a module or as a dependency. */
  function Names(table: Table): set<string> {
    table.Keys + set k, d | k in table && d in table[k] :: d
  }

  /** `order` with `visited` as the set of its elements. */
  datatype State = State(order: seq<string>, visited: set<string>)

  /** What the search keeps true: `visited` is the set of `order`, each name
      occurs once, and every module comes after all of its dependencies. */
  ghost predicate Sorted(table: Table, st: State) {
    && (forall x :: x in st.visited <==> x in st.order)
    && Helpers.Distinct(st.order)
    && (forall i, d :: 0 <= i < |st.order| && d in DepsOf(table, st.order[i]) ==> d in st.order[..i])
  }

  function Cycle(m: string): string {
    "Circular dependency involving " + m
  }

  /** `visit(module)`; `visiting` is the set of modules whose dependencies
      are being visited. Started from a sorted state that has visited none
      of them, a successful visit leaves a sorted state that holds `m`. */
  function Visit(table: Table, m: string, visiting: set<string>, st: State): (r: Result<State>)
    ensures r.Success? ==> st.order <= r.value.order && st.visited <= r.value.visited && m in r.value.visited
    ensures r.Success? && Sorted(table, st) && st.visited !! visiting ==>
              Sorted(table, r.value) && r.value.visited !! visiting
    decreases |Names(table) - visiting|, 0, 0
  {
    if m in st.visited then Success(st)
    else if m in visiting then Failure(Cycle(m))
    else if m !in table then
      PushKeepsSorted(table, st, m);
      Success(Push(st, m))
    else
      FewerUnvisited(table, visiting, m);
      match VisitAll(table, table[m], visiting + {m}, st)
      case Failure(e) => Failure(e)
      case Success(after) =>
        PushKeepsSorted(table, after, m);
        Success(Push(after, m))
  }

  /** Entering a module of the table leaves fewer names to enter. */
  lemma FewerUnvisited(table: Table, visiting: set<string>, m: string)
    requires m in table && m !in visiting
    ensures |Names(table) - (visiting + {m})| < |Names(table) - visiting|
  {
    var before := Names(table) - visiting;
    var after := Names(table) - (visiting + {m});
    assert m in before && before == after + {m} && m !in after;
  }

  /** `visited.add(module); order.push(module)`. */
  function Push(st: State, m: string): (r: State)
    ensures |r.order| == |st.order| + 1 && r.order[..|st.order|] == st.order && r.order[|st.order|] == m
    ensures r.visited == st.visited + {m}
  {
    State(st.order + [m], st.visited + {m})
  }

  /** Pushing a new module whose dependencies are all in keeps the state
      sorted. */
  lemma PushKeepsSorted(table: Table, st: State, m: string)
    ensures Sorted(table, st) && m !in st.visited && (forall d :: d in DepsOf(table, m) ==> d in st.visited) ==>
              Sorted(table, Push(st, m))
  {
    if Sorted(table, st) && m !in st.visited && (forall d :: d in DepsOf(table, m) ==> d in st.visited) {
      var order := Push(st, m).order;
      Helpers.DistinctCons(m, st.order);
      assert forall i :: 0 <= i < |st.order| ==> order[..i] == st.order[..i];
    }
  }

  /** `for (const dep of deps) visit(dep)`. */
  function VisitAll(table: Table, deps: seq<string>, visiting: set<string>, st: State): (r: Result<State>)
    ensures r.Success? ==> && st.order <= r.value.order && st.visited <= r.value.visited
                           && forall d :: d in deps ==> d in r.value.visited
    ensures r.Success? && Sorted(table, st) && st.visited !! visiting ==>
              Sorted(table, r.value) && r.value.visited !! visiting
    decreases |Names(table) - visiting|, 1, |deps|
  {
    if |deps| == 0 then Success(st)
    else
      match Visit(table, deps[0], visiting, st)
      case Failure(e) => Failure(e)
      case Success(next) =>
        match VisitAll(table, deps[1..], visiting, next)
        case Failure(e) => Failure(e)
        case Success(last) =>
          assert forall d :: d in deps ==> d == deps[0] || d in deps[1..];
          Success(last)
  }

  /** `getLoadOrder(modules)`: each requested module after everything it
      depends on, or the error it throws on a cycle. */
  function GetLoadOrder(table: Table, modules: seq<string>): (r: Result<seq<string>>)
    ensures r.Success? ==> Helpers.Distinct(r.value)
    ensures r.Success? ==> forall m :: m in modules ==> m in r.value
    ensures r.Success? ==> forall i, d :: 0 <= i < |r.value| && d in DepsOf(table, r.value[i]) ==> d in r.value[..i]
  {
    assert Sorted(table, State([], {}));
    match VisitAll(table, modules, {}, State([], {}))
    case Failure(e) => Failure(e)
    case Success(st) => Success(st.order)
  }

  // ---------------------------------------------------------------------------
  // The load order holds nothing beyond what was asked for
  // ---------------------------------------------------------------------------

  /** A set of names that contains the dependencies of each of its members. */
  ghost predicate Closed(table: Table, c: set<string>) {
    forall x, d :: x in c && d in DepsOf(table, x) ==> d in c
  }

  /** What a visit adds lies in every closed set that contains the visited
      module. */
  lemma {:induction false} VisitWithin(table: Table, m: string, visiting: set<string>, st: State, c: set<string>)
    requires Sorted(table, st) && st.visited !! visiting
    requires Closed(table, c) && m in c
    ensures var r := Visit(table, m, visiting, st);
            r.Success? ==> forall x :: x in r.value.visited ==> x in st.visited || x in c
    decreases |Names(table) - visiting|, 0, 0
  {
    if m !in st.visited && m !in visiting && m in table {
      FewerUnvisited(table, visiting, m);
      assert forall d :: d in table[m] ==> d in c;
      VisitAllWithin(table, table[m], visiting + {m}, st, c);
    }
  }

  lemma {:induction false} VisitAllWithin(table: Table, deps: seq<string>, visiting: set<string>, st: State, c: set<string>)
    requires Sorted(table, st) && st.visited !! visiting
    requires Closed(table, c) && forall d :: d in deps ==> d in c
    ensures var r := VisitAll(table, deps, visiting, st);
            r.Success? ==> forall x :: x in r.value.visited ==> x in st.visited || x in c
    decreases |Names(table) - visiting|, 1, |deps|
  {
    if |deps| > 0 {
      VisitWithin(table, deps[0], visiting, st, c);
      var first := Visit(table, deps[0], visiting, st);
      if first.Success? {
        VisitAllWithin(table, deps[1..], visiting, first.value, c);
      }
    }
  }

  /** The load order is the least set that holds the requested modules and
      is closed under dependencies: it is closed, and it lies inside every
      other such set. */
  lemma LoadOrderIsClosure(table: Table, modules: seq<string>, c: set<string>)
    requires GetLoadOrder(table, modules).Success?
    ensures Closed(table, set x | x in GetLoadOrder(table, modules).value)
    ensures Closed(table, c) && (forall m :: m in modules ==> m in c) ==>
              forall x :: x in GetLoadOrder(table, modules).value ==> x in c
  {
    var order := GetLoadOrder(table, modules).value;
    forall x, d | x in (set y | y in order) && d in DepsOf(table, x) ensures d in (set y | y in order) {
      var i :| 0 <= i < |order| && order[i] == x;
      assert d in order[..i];
    }
    if Closed(table, c) && (forall m :: m in modules ==> m in c) {
      VisitAllWithin(table, modules, {}, State([], {}), c);
    }
  }

  // ---------------------------------------------------------------------------
  // The load order fails exactly on reachable cycles
  // ---------------------------------------------------------------------------

  /** `q` is a chain of dependencies: each name needs the next. */
  ghost predicate IsPath(table: Table, q: seq<string>) {
    |q| >= 1 && forall i :: 0 < i < |q| ==> q[i] in DepsOf(table, q[i - 1])
  }

  /** `q` starts at a requested module, follows dependencies and ends at a
      name it has already passed: a cycle reachable from `modules`. */
  ghost predicate CycleFrom(table: Table, modules: seq<string>, q: seq<string>) {
    && IsPath(table, q)
    && q[0] in modules
    && |q| >= 2
    && q[|q| - 1] in q[..|q| - 1]
  }

  /** A path extended by a dependency of its last name is a path. */
  lemma PathStep(table: Table, q: seq<string>, d: string)
    requires IsPath(table, q) && d in DepsOf(table, q[|q| - 1])
    ensures IsPath(table, q + [d]) && (q + [d])[0] == q[0]
  {
    var q' := q + [d];
    forall i | 0 < i < |q'| ensures q'[i] in DepsOf(table, q'[i - 1]) {
      if i < |q| {
        assert q'[i] == q[i] && q'[i - 1] == q[i - 1];
      }
    }
  }

  /** `e` is the message thrown for a module on a cycle reachable from
      `modules`. */
  ghost predicate ReportsCycle(table: Table, modules: seq<string>, e: string) {
    exists q :: CycleFrom(table, modules, q) && e == Cycle(q[|q| - 1])
  }

  /** Reaching a module that is still being visited closes a cycle. */
  lemma RevisitIsCycle(table: Table, modules: seq<string>, path: seq<string>, m: string)
    requires IsPath(table, path + [m]) && (path + [m])[0] in modules
    requires m in path
    ensures ReportsCycle(table, modules, Cycle(m))
  {
    var q := path + [m];
    assert q[..|q| - 1] == path;
    assert CycleFrom(table, modules, q);
  }

  /** Every dependency of the last module of a path extends it. */
  lemma PathSteps(table: Table, modules: seq<string>, q: seq<string>, m: string)
    requires IsPath(table, q) && q[0] in modules && m == q[|q| - 1] && m in table
    ensures forall d :: d in table[m] ==> IsPath(table, q + [d]) && (q + [d])[0] in modules
  {
    forall d | d in table[m] ensures IsPath(table, q + [d]) && (q + [d])[0] in modules {
      PathStep(table, q, d);
    }
  }

  /** `path` is the chain of modules being visited, `m` the one entered
      next. If the visit throws, it names a module on a cycle reachable from
      `modules`. */
  lemma {:induction false} VisitFailsOnCycle(table: Table, modules: seq<string>, m: string, visiting: set<string>, st: State, path: seq<string>)
    requires IsPath(table, path + [m]) && (path + [m])[0] in modules
    requires forall x :: x in visiting ==> x in path
    ensures Visit(table, m, visiting, st).Failure? ==> ReportsCycle(table, modules, Visit(table, m, visiting, st).error)
    decreases |Names(table) - visiting|, 0, 0
  {
    if m in st.visited {
    } else if m in visiting {
      RevisitIsCycle(table, modules, path, m);
    } else if m in table {
      var q := path + [m];
      FewerUnvisited(table, visiting, m);
      PathSteps(table, modules, q, m);
      VisitAllFailsOnCycle(table, modules, table[m], visiting + {m}, st, q);
    }
  }

  lemma {:induction false} VisitAllFailsOnCycle(table: Table, modules: seq<string>, deps: seq<string>, visiting: set<string>, st: State, path: seq<string>)
    requires forall d :: d in deps ==> IsPath(table, path + [d]) && (path + [d])[0] in modules
    requires forall x :: x in visiting ==> x in path
    ensures VisitAll(table, deps, visiting, st).Failure? ==> ReportsCycle(table, modules, VisitAll(table, deps, visiting, st).error)
    decreases |Names(table) - visiting|, 1, |deps|
  {
    if |deps| > 0 {
      VisitFailsOnCycle(table, modules, deps[0], visiting, st, path);
      var first := Visit(table, deps[0], visiting, st);
      if first.Success? {
        assert forall d :: d in deps[1..] ==> d in deps;
        VisitAllFailsOnCycle(table, modules, deps[1..], visiting, first.value, path);
      }
    }
  }

  /** `getLoadOrder` throws only on a cycle reachable from the requested
      modules, and its message names a module on that cycle. */
  lemma LoadOrderFailsOnlyOnCycle(table: Table, modules: seq<string>)
    ensures GetLoadOrder(table, modules).Failure? ==>
              exists q :: CycleFrom(table, modules, q) && GetLoadOrder(table, modules).error == Cycle(q[|q| - 1])
  {
    forall d | d in modules ensures IsPath(table, [] + [d]) && ([] + [d])[0] in modules {
      assert [] + [d] == [d];
    }
    VisitAllFailsOnCycle(table, modules, modules, {}, State([], {}), []);
  }

  /** Without a cycle reachable from the requested modules, `getLoadOrder`
      returns an order. */
  lemma AcyclicLoadOrderSucceeds(table: Table, modules: seq<string>)
    requires forall q :: !CycleFrom(table, modules, q)
    ensures GetLoadOrder(table, modules).Success?
  {
    LoadOrderFailsOnlyOnCycle(table, modules);
  }

  /** In an order where every module comes after its dependencies, a path
      that starts at a listed module runs through listed modules only, each
      earlier in the order than the one before it. */
  lemma {:induction false} PathDescends(table: Table, order: seq<string>, q: seq<string>)
    requires forall i, d :: 0 <= i < |order| && d in DepsOf(table, order[i]) ==> d in order[..i]
    requires IsPath(table, q) && q[0] in order
    ensures forall i :: 0 <= i < |q| ==> q[i] in order
    ensures forall i, j :: 0 <= i < j < |q| ==> Helpers.FirstAt(order, q[j]) < Helpers.FirstAt(order, q[i])
    decreases |q|
  {
    if |q| > 1 {
      var n := |q| - 1;
      var p := q[..n];
      assert forall i :: 0 <= i < n ==> p[i] == q[i];
      assert IsPath(table, p);
      PathDescends(table, order, p);
      var k := Helpers.FirstAt(order, q[n - 1]);
      assert q[n] in DepsOf(table, order[k]);
      assert q[n] in order[..k];
      var m :| 0 <= m < k && order[m] == q[n];
      assert Helpers.FirstAt(order, q[n]) <= m;
      forall i, j | 0 <= i < j < |q| ensures Helpers.FirstAt(order, q[j]) < Helpers.FirstAt(order, q[i]) {
        if j == n && i < n - 1 {
          assert Helpers.FirstAt(order, p[n - 1]) < Helpers.FirstAt(order, p[i]);
        }
      }
    }
  }

  /** When `getLoadOrder` returns an order, no dependency cycle is reachable
      from the requested modules. */
  lemma LoadOrderSucceedsOnlyWithoutCycle(table: Table, modules: seq<string>)
    ensures GetLoadOrder(table, modules).Success? ==> forall q :: !CycleFrom(table, modules, q)
  {
    var r := GetLoadOrder(table, modules);
    if r.Success? {
      forall q | IsPath(table, q) && q[0] in modules && |q| >= 2 ensures q[|q| - 1] !in q[..|q| - 1] {
        PathDescends(table, r.value, q);
        var n := |q| - 1;
        forall j | 0 <= j < n ensures q[..n][j] != q[n] {
          assert Helpers.FirstAt(r.value, q[n]) < Helpers.FirstAt(r.value, q[j]);
        }
      }
    }
  }

  /** `getLoadOrder` throws exactly when a dependency cycle is reachable from
      the requested modules. */
  lemma LoadOrderFailsIffCycle(table: Table, modules: seq<string>)
    ensures GetLoadOrder(table, modules).Failure? <==> exists q :: CycleFrom(table, modules, q)
  {
    LoadOrderFailsOnlyOnCycle(table, modules);
    LoadOrderSucceedsOnlyWithoutCycle(table, modules);
  }

  /** With the built-in table, loading the UI loads the table, player and
      hand modules first, in that order. */
  lemma UiLoadOrder()
    ensures GetLoadOrder(Dependencies, ["ui"]) == Success(["table", "player", "hand", "ui"])
  {
    var s4 := State(["table", "player", "hand", "ui"], {"table", "player", "hand", "ui"});
    UiStep();
    assert VisitAll(Dependencies, ["ui"], {}, State([], {})) == Success(s4);
  }

  /** The last step of loading the UI: its dependencies, then itself. */
  lemma UiStep()
    ensures Visit(Dependencies, "ui", {}, State([], {}))
         == Success(State(["table", "player", "hand", "ui"], {"table", "player", "hand", "ui"}))
  {
    var d := Dependencies;
    var s3 := State(["table", "player", "hand"], {"table", "player", "hand"});
    assert d["ui"] == ["table", "player", "hand"];
    assert {} + {"ui"} == {"ui"};
    UiDependencies();
    assert VisitAll(d, d["ui"], {} + {"ui"}, State([], {})) == Success(s3);
    UiPush();
  }

  lemma UiPush()
    ensures Push(State(["table", "player", "hand"], {"table", "player", "hand"}), "ui")
         == State(["table", "player", "hand", "ui"], {"table", "player", "hand", "ui"})
  {
    var s3 := State(["table", "player", "hand"], {"table", "player", "hand"});
    assert Push(s3, "ui").order == ["table", "player", "hand", "ui"];
    assert Push(s3, "ui").visited == {"table", "player", "hand", "ui"};
  }

  /** The first three steps of loading the UI. */
  lemma UiDependencies()
    ensures VisitAll(Dependencies, ["table", "player", "hand"], {"ui"}, State([], {}))
         == Success(State(["table", "player", "hand"], {"table", "player", "hand"}))
  {
    var d := Dependencies;
    var e := State([], {});
    var s1 := State(["table"], {"table"});
    var s2 := State(["table", "player"], {"table", "player"});
    var s3 := State(["table", "player", "hand"], {"table", "player", "hand"});
    UiTableStep();
    UiPlayerStep();
    UiHandStep();
    assert ["player", "hand"][1..] == ["hand"];
    assert VisitAll(d, ["hand"], {"ui"}, s2) == Success(s3);
    assert VisitAll(d, ["player", "hand"], {"ui"}, s1) == Success(s3);
    assert ["table", "player", "hand"][1..] == ["player", "hand"];
  }

  lemma UiTableStep()
    ensures Visit(Dependencies, "table", {"ui"}, State([], {})) == Success(State(["table"], {"table"}))
  {
    var d := Dependencies;
    var e := State([], {});
    var s1 := State(["table"], {"table"});
    assert d["table"] == [];
    assert Push(e, "table").order == ["table"];
    assert Push(e, "table").visited == s1.visited;
    assert Push(e, "table") == s1;
  }

  lemma UiPlayerStep()
    ensures Visit(Dependencies, "player", {"ui"}, State(["table"], {"table"}))
         == Success(State(["table", "player"], {"table", "player"}))
  {
    var d := Dependencies;
    var s1 := State(["table"], {"table"});
    var s2 := State(["table", "player"], {"table", "player"});
    assert d["player"] == ["table"];
    assert Visit(d, "table", {"ui", "player"}, s1) == Success(s1);
    assert VisitAll(d, ["table"], {"ui", "player"}, s1) == Success(s1);
    assert Push(s1, "player").order == ["table", "player"];
    assert Push(s1, "player").visited == s2.visited;
    assert Push(s1, "player") == s2;
  }

  lemma UiHandStep()
    ensures Visit(Dependencies, "hand", {"ui"}, State(["table", "player"], {"table", "player"}))
         == Success(State(["table", "player", "hand"], {"table", "player", "hand"}))
  {
    var d := Dependencies;
    var s2 := State(["table", "player"], {"table", "player"});
    var s3 := State(["table", "player", "hand"], {"table", "player", "hand"});
    assert d["hand"] == ["player"];
    assert Visit(d, "player", {"ui", "hand"}, s2) == Success(s2);
    assert VisitAll(d, ["player"], {"ui", "hand"}, s2) == Success(s2);
    assert Push(s2, "hand").order == ["table", "player", "hand"];
    assert Push(s2, "hand").visited == s3.visited;
    assert Push(s2, "hand") == s3;
  }

  /** Two modules that need each other are reported at the first one
      reached again. */
  lemma CycleReported()
    ensures GetLoadOrder(map["a" := ["b"], "b" := ["a"]], ["a"]) == Failure("Circular dependency involving a")
  {
    var t := map["a" := ["b"], "b" := ["a"]];
    var e := State([], {});
    assert t["a"] == ["b"] && t["b"] == ["a"];
    assert {} + {"a"} == {"a"} && {"a"} + {"b"} == {"a", "b"};
    assert Visit(t, "a", {"a", "b"}, e) == Failure(Cycle("a"));
    assert VisitAll(t, ["a"], {"a", "b"}, e) == Failure(Cycle("a"));
    assert Visit(t, "b", {"a"}, e) == Failure(Cycle("a"));
    assert VisitAll(t, ["b"], {"a"}, e) == Failure(Cycle("a"));
    assert Visit(t, "a", {}, e) == Failure(Cycle("a"));
  }

  /** A name missing from the table loads on its own. */
  lemma UnknownModuleIsLeaf(table: Table, m: string)
    requires m !in table
    ensures GetLoadOrder(table, [m]) == Success([m])
  {
    var e := State([], {});
    assert {} + {m} == {m};
    var s := State([m], {m});
    assert Push(e, m).order == [m];
    assert Push(e, m) == s;
    assert Visit(table, m, {}, e) == Success(s);
    assert VisitAll(table, [m][1..], {}, s) == Success(s);
  }

  // ---------------------------------------------------------------------------
  // Class names and the graph
  // ---------------------------------------------------------------------------

  /** `_getModuleClassName(name)`: the first character upper-cased, then the
      rest, then `Module`. */
  function ModuleClassName(name: string): (r: string)
    ensures |r| == |name| + 6
    ensures r[|name|..] == "Module"
    ensures |name| > 0 ==> r[0] == UpperChar(name[0]) && r[1..|name|] == name[1..]
  {
    (if |name| == 0 then "" else [UpperChar(name[0])] + name[1..]) + "Module"
  }

  lemma TableClassName()
    ensures ModuleClassName("table") == "TableModule"
  {
  }

  /** `getDependencyGraph()`: a copy of the table entry for entry. */
  function DependencyGraph(table: Table): (g: Table)
    ensures g.Keys == table.Keys && forall k :: k in g ==> g[k] == table[k]
  {
    map k | k in table :: table[k]
  }
}
