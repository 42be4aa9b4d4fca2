/** The module graph of a build: depth-first reachability and the Safe/Node policy decided from it. */
module BuildGraph {

  import opened Order
  import opened Values

  datatype BuildError = Internal | SourcePolicy

  /** `dependencies` maps import specifiers to module ids; an import outside the graph has an empty target. */
  datatype SourceModule = SourceModule(id: Text, nodeRuntime: bool, functions: seq<Text>, dependencies: map<Text, Text>)

  type Modules = map<Text, SourceModule>

  /** "@runku/server" */
  const SERVER: Text := [64, 114, 117, 110, 107, 117, 47, 115, 101, 114, 118, 101, 114]

  // ---------------------------------------------------------------- paths

  ghost predicate Edge(modules: Modules, a: Text, b: Text) {
    a in modules && b != [] && exists s :: s in modules[a].dependencies && modules[a].dependencies[s] == b
  }

  ghost predicate IsPath(modules: Modules, p: seq<Text>) {
    p != [] && forall i :: 0 <= i < |p| - 1 ==> Edge(modules, p[i], p[i + 1])
  }

  ghost predicate Joins(modules: Modules, p: seq<Text>, a: Text, b: Text) {
    IsPath(modules, p) && p[0] == a && p[|p| - 1] == b
  }

  ghost predicate Reaches(modules: Modules, a: Text, b: Text) {
    exists p :: Joins(modules, p, a, b)
  }

  lemma ReachesItself(modules: Modules, a: Text)
    ensures Reaches(modules, a, a)
  {
    assert Joins(modules, [a], a, a);
  }

  lemma ReachesThrough(modules: Modules, a: Text, b: Text, c: Text)
    requires Edge(modules, a, b) && Reaches(modules, b, c)
    ensures Reaches(modules, a, c)
  {
    var p :| Joins(modules, p, b, c);
    assert Joins(modules, [a] + p, a, c);
  }

  /** A set that contains every successor of its members contains every path from them. */
  lemma {:induction false} ClosedContainsPaths(modules: Modules, s: set<Text>, p: seq<Text>)
    requires IsPath(modules, p) && p[0] in s && forall a, b :: a in s && Edge(modules, a, b) ==> b in s
    ensures p[|p| - 1] in s
  {
    if |p| > 1 {
      assert Edge(modules, p[0], p[0 + 1]);
      assert forall i :: 0 <= i < |p[1..]| - 1 ==> Edge(modules, p[1..][i], p[1..][i + 1]) by {
        forall i | 0 <= i < |p[1..]| - 1 ensures Edge(modules, p[1..][i], p[1..][i + 1]) {
          assert Edge(modules, p[i + 1], p[i + 1 + 1]);
        }
      }
      ClosedContainsPaths(modules, s, p[1..]);
    }
  }

  // ---------------------------------------------------------------- depth-first collection

  /** Every member that is not in `before` is reachable, and its successors are members. */
  ghost predicate Explored(modules: Modules, id: Text, before: set<Text>, after: set<Text>) {
    && (forall a :: a in after && a !in before ==> Reaches(modules, id, a) && a in modules)
    && (forall a, b :: a in after && a !in before && Edge(modules, a, b) ==> b in after)
  }

  /** Adds what is reachable from `id` and not visited yet; fails when it comes to a missing module. */
  method Collect(id: Text, modules: Modules, before: set<Text>) returns (ok: bool, after: set<Text>)
    ensures ok ==> before <= after && id in after && Explored(modules, id, before, after)
    ensures !ok ==> exists a :: a !in modules && Reaches(modules, id, a)
    decreases modules.Keys - before
  {
    if id in before {
      return true, before;
    }
    after := before + {id};
    ReachesItself(modules, id);
    if id !in modules {
      return false, after;
    }
    var dependencies := modules[id].dependencies;
    var todo := dependencies.Keys;
    while todo != {}
      invariant todo <= dependencies.Keys && before + {id} <= after
      invariant forall a :: a in after && a !in before ==> Reaches(modules, id, a) && a in modules
      invariant forall a, b :: a in after && a !in before && a != id && Edge(modules, a, b) ==> b in after
      invariant forall s :: s in dependencies && s !in todo && dependencies[s] != [] ==> dependencies[s] in after
      decreases todo
    {
      var s: Text := Least(todo);
      var target := dependencies[s];
      if target != [] {
        assert Edge(modules, id, target);
        var visited := after;
        ok, after := Collect(target, modules, visited);
        if !ok {
          ghost var a :| a !in modules && Reaches(modules, target, a);
          ReachesThrough(modules, id, target, a);
          return false, after;
        }
        forall a | a in after && a !in visited ensures Reaches(modules, id, a) {
          ReachesThrough(modules, id, target, a);
        }
      }
      todo := todo - {s};
    }
    ok := true;
  }

  /**
   From nothing visited, exactly the reachable modules are collected; it fails exactly when one of
   them is missing.
   */
  method CollectReachable(id: Text, modules: Modules) returns (r: Result<set<Text>, BuildError>)
    ensures r.Ok? <==> forall a :: Reaches(modules, id, a) ==> a in modules
    ensures r.Ok? ==> forall a :: a in r.value <==> Reaches(modules, id, a)
    ensures r.Err? ==> r.error == Internal
  {
    var ok, reachable := Collect(id, modules, {});
    if !ok {
      return Err(Internal);
    }
    forall a | Reaches(modules, id, a) ensures a in reachable {
      var p :| Joins(modules, p, id, a);
      ClosedContainsPaths(modules, reachable, p);
    }
    r := Ok(reachable);
  }

  // ---------------------------------------------------------------- policy

  /** An import that only the Node runtime can resolve. */
  predicate External(specifier: Text, target: Text) {
    specifier != SERVER && (specifier == [] || specifier[0] != 46) && target == []
  }

  ghost predicate ImportsExternal(m: SourceModule) {
    exists s :: s in m.dependencies && External(s, m.dependencies[s])
  }

  /** A Safe entry reaches Node code; a Node entry reaches the Functions of another Safe module. */
  ghost predicate Offends(entry: SourceModule, m: SourceModule) {
    if entry.nodeRuntime then !m.nodeRuntime && m.functions != [] && m.id != entry.id
    else m.nodeRuntime || ImportsExternal(m)
  }

  ghost predicate Passes(entry: SourceModule, modules: Modules) {
    forall a :: Reaches(modules, entry.id, a) ==> a in modules && !Offends(entry, modules[a])
  }

  method HasExternal(m: SourceModule) returns (found: bool)
    ensures found <==> ImportsExternal(m)
  {
    var todo := m.dependencies.Keys;
    while todo != {}
      invariant todo <= m.dependencies.Keys
      invariant forall s :: s in m.dependencies && s !in todo ==> !External(s, m.dependencies[s])
      decreases todo
    {
      var s: Text := Least(todo);
      if External(s, m.dependencies[s]) {
        return true;
      }
      todo := todo - {s};
    }
    found := false;
  }

  /** The policy check of an entry: it passes exactly when no path leads to a missing or an offending module. */
  method CheckPolicy(entry: SourceModule, modules: Modules) returns (failure: Option<BuildError>)
    ensures failure == Some(Internal) <==> exists a :: a !in modules && Reaches(modules, entry.id, a)
    ensures failure == None <==> Passes(entry, modules)
  {
    var reachable := CollectReachable(entry.id, modules);
    if reachable.Err? {
      return Some(Internal);
    }
    var todo := reachable.value;
    while todo != {}
      invariant todo <= reachable.value
      invariant forall a :: a in reachable.value && a !in todo ==> !Offends(entry, modules[a])
      decreases todo
    {
      var id: Text := Least(todo);
      var m := modules[id];
      var external := HasExternal(m);
      if (!entry.nodeRuntime && (m.nodeRuntime || external))
         || (entry.nodeRuntime && !m.nodeRuntime && m.functions != [] && m.id != entry.id) {
        return Some(SourcePolicy);
      }
      todo := todo - {id};
    }
    failure := None;
  }

  lemma ReachesTransitive(modules: Modules, a: Text, b: Text, c: Text)
    requires Reaches(modules, a, b) && Reaches(modules, b, c)
    ensures Reaches(modules, a, c)
  {
    var p :| Joins(modules, p, a, b);
    var q :| Joins(modules, q, b, c);
    var r := p + q[1..];
    forall i | 0 <= i < |r| - 1 ensures Edge(modules, r[i], r[i + 1]) {
      if i < |p| - 1 {
        assert Edge(modules, p[i], p[i + 1]);
      } else {
        var j := i - (|p| - 1);
        assert Edge(modules, q[j], q[j + 1]);
        assert r[i] == q[j] && r[i + 1] == q[j + 1];
      }
    }
    assert Joins(modules, r, a, c);
  }

  /** The policy is hereditary: whatever a passing Safe entry reaches is Safe and passes as an entry itself. */
  lemma SafeIsHereditary(entry: SourceModule, modules: Modules, id: Text)
    requires !entry.nodeRuntime && Passes(entry, modules) && Reaches(modules, entry.id, id)
    requires forall a :: a in modules ==> modules[a].id == a
    ensures id in modules && !modules[id].nodeRuntime && Passes(modules[id], modules)
  {
    var m := modules[id];
    forall a | Reaches(modules, m.id, a) ensures a in modules && !Offends(m, modules[a]) {
      ReachesTransitive(modules, entry.id, id, a);
    }
  }
}
