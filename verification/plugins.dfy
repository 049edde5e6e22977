/** `Plugins.orderPlugins` and `Plugin.getAllPluginDependencies` on a given graph of plugins. Plugins are equal when their names are. */
module PluginOrder {

  type Name = string

  /** For every plugin the ones it depends on, in the order in which its set yields them. */
  type Graph = map<Name, seq<Name>>

  ghost predicate Closed(g: Graph) {
    forall p, d :: p in g && d in g[p] ==> d in g
  }

  /** A path of at least one edge. */
  ghost predicate Path(g: Graph, path: seq<Name>) {
    && |path| >= 2
    && forall i :: 0 <= i < |path| - 1 ==> path[i] in g && path[i + 1] in g[path[i]]
  }

  ghost predicate PathFromTo(g: Graph, path: seq<Name>, a: Name, b: Name) {
    Path(g, path) && path[0] == a && path[|path| - 1] == b
  }

  /** `a` depends on `b`, directly or not. */
  ghost predicate DependsOn(g: Graph, a: Name, b: Name) {
    exists path :: PathFromTo(g, path, a, b)
  }

  ghost predicate Acyclic(g: Graph) {
    forall p :: p in g ==> !DependsOn(g, p, p)
  }

  /** All that a plugin depends on. */
  ghost function AllBelow(g: Graph, p: Name): set<Name> {
    set q | q in g && DependsOn(g, p, q)
  }

  lemma Directly(g: Graph, a: Name, b: Name)
    requires a in g && b in g[a]
    ensures DependsOn(g, a, b)
  {
    assert PathFromTo(g, [a, b], a, b);
  }

  lemma Transitively(g: Graph, a: Name, b: Name, c: Name)
    requires DependsOn(g, a, b) && DependsOn(g, b, c)
    ensures DependsOn(g, a, c)
  {
    var x :| PathFromTo(g, x, a, b);
    var y :| PathFromTo(g, y, b, c);
    var z := x + y[1..];
    forall i | 0 <= i < |z| - 1
      ensures z[i] in g && z[i + 1] in g[z[i]]
    {
      if i < |x| - 1 {
        assert z[i] == x[i] && z[i + 1] == x[i + 1];
      } else {
        assert z[i] == y[i - (|x| - 1)] && z[i + 1] == y[i - (|x| - 1) + 1];
      }
    }
    assert PathFromTo(g, z, a, c);
  }

  /** What a plugin depends on, it depends on directly or through a direct dependency. */
  lemma FirstEdge(g: Graph, a: Name, c: Name) returns (b: Name)
    requires DependsOn(g, a, c)
    ensures a in g && b in g[a] && (b == c || DependsOn(g, b, c))
  {
    var path :| PathFromTo(g, path, a, c);
    assert path[0 + 1] in g[path[0]];
    b := path[1];
    if |path| > 2 {
      var rest := path[1..];
      forall i | 0 <= i < |rest| - 1
        ensures rest[i] in g && rest[i + 1] in g[rest[i]]
      {
        assert rest[i] == path[i + 1] && rest[i + 1] == path[i + 1 + 1];
      }
      assert PathFromTo(g, rest, b, c);
    }
  }

  // ----- the order

  class LinkedHashSet {
    var s: seq<Name>

    constructor ()
      ensures s == []
    {
      s := [];
    }

    method Add(x: Name)
      modifies this
      ensures s == if x in old(s) then old(s) else old(s) + [x]
    {
      if x !in s {
        s := s + [x];
      }
    }
  }

  ghost predicate Distinct(s: seq<Name>) {
    forall i, j :: 0 <= i < j < |s| ==> s[i] != s[j]
  }

  /** Every plugin stands behind all it depends on directly. */
  ghost predicate DependenciesFirst(g: Graph, s: seq<Name>) {
    forall i, d :: 0 <= i < |s| && s[i] in g && d in g[s[i]] ==> d in s[..i]
  }

  lemma {:induction false} AllDependenciesFirst(g: Graph, s: seq<Name>, i: nat, d: Name)
    requires DependenciesFirst(g, s) && i < |s| && DependsOn(g, s[i], d)
    ensures d in s[..i]
    decreases i
  {
    var b := FirstEdge(g, s[i], d);
    assert b in s[..i];
    var k :| 0 <= k < i && s[k] == b;
    if b != d {
      AllDependenciesFirst(g, s, k, d);
      assert s[..k] <= s[..i];
    }
  }

  /** Plugins on the way down to `p`: they all depend on `p`, so that `p` is none of them. */
  ghost predicate Above(g: Graph, above: set<Name>, p: Name) {
    above <= g.Keys && p in g && forall a :: a in above ==> DependsOn(g, a, p)
  }

  lemma AboveNext(g: Graph, above: set<Name>, p: Name, d: Name)
    requires Acyclic(g) && Closed(g) && Above(g, above, p) && d in g[p]
    ensures Above(g, above + {p}, d) && |g.Keys - (above + {p})| < |g.Keys - above|
  {
    hide DependsOn;
    Directly(g, p, d);
    forall a | a in above
      ensures DependsOn(g, a, d)
    {
      Transitively(g, a, p, d);
    }
    assert p !in above;
    assert g.Keys - (above + {p}) == (g.Keys - above) - {p};
  }

  /** The new entries are the plugin and plugins that it depends on. */
  ghost predicate Brings(g: Graph, s: seq<Name>, t: seq<Name>, wanted: set<Name>) {
    s <= t && forall x :: x in t && x !in s ==> x in wanted
  }

  method AddOrderedPlugin(g: Graph, plugin: Name, tempSet: LinkedHashSet, ghost above: set<Name>)
    requires Closed(g) && Acyclic(g) && Above(g, above, plugin)
    requires Distinct(tempSet.s) && DependenciesFirst(g, tempSet.s)
    modifies tempSet
    ensures Distinct(tempSet.s) && DependenciesFirst(g, tempSet.s) && plugin in tempSet.s
    ensures Brings(g, old(tempSet.s), tempSet.s, {plugin} + AllBelow(g, plugin))
    decreases |g.Keys - above|
  {
    hide DependsOn, Acyclic;
    if plugin in tempSet.s {
      return;
    }
    var i := 0;
    while i < |g[plugin]|
      invariant 0 <= i <= |g[plugin]| && Distinct(tempSet.s) && DependenciesFirst(g, tempSet.s)
      invariant forall k :: 0 <= k < i ==> g[plugin][k] in tempSet.s
      invariant Brings(g, old(tempSet.s), tempSet.s, AllBelow(g, plugin))
    {
      var pluginDep := g[plugin][i];
      ghost var was := tempSet.s;
      AboveNext(g, above, plugin, pluginDep);
      AddOrderedPlugin(g, pluginDep, tempSet, above + {plugin});
      BelowNext(g, plugin, pluginDep);
      BringsMore(g, old(tempSet.s), was, tempSet.s, AllBelow(g, plugin));
      i := i + 1;
    }
    ghost var was := tempSet.s;
    tempSet.Add(plugin);
    AddedLast(g, was, plugin);
  }

  lemma BelowNext(g: Graph, p: Name, d: Name)
    requires p in g && d in g[p] && Closed(g)
    ensures {d} + AllBelow(g, d) <= AllBelow(g, p)
  {
    hide DependsOn;
    Directly(g, p, d);
    forall q | q in AllBelow(g, d)
      ensures q in AllBelow(g, p)
    {
      Transitively(g, p, d, q);
    }
  }

  lemma BringsMore(g: Graph, s: seq<Name>, t: seq<Name>, u: seq<Name>, wanted: set<Name>)
    requires Brings(g, s, t, wanted)
    requires t <= u && forall x :: x in u && x !in t ==> x in wanted
    ensures Brings(g, s, u, wanted)
  {
  }

  lemma AddedLast(g: Graph, s: seq<Name>, p: Name)
    requires DependenciesFirst(g, s) && Distinct(s) && p in g && forall k :: 0 <= k < |g[p]| ==> g[p][k] in s
    ensures var t := if p in s then s else s + [p]; DependenciesFirst(g, t) && Distinct(t)
  {
    var t := if p in s then s else s + [p];
    forall i, d | 0 <= i < |t| && t[i] in g && d in g[t[i]]
      ensures d in t[..i]
    {
      if i < |s| {
        assert t[i] == s[i] && t[..i] == s[..i];
      } else {
        assert t[..i] == s;
      }
    }
  }

  /** `orderPlugins`: the plugins and all they depend on, each once, behind everything it depends on. */
  method OrderPlugins(g: Graph, plugins: seq<Name>) returns (order: seq<Name>)
    requires Closed(g) && Acyclic(g) && forall p :: p in plugins ==> p in g
    ensures Distinct(order)
    ensures forall i, d :: 0 <= i < |order| && DependsOn(g, order[i], d) ==> d in order[..i]
    ensures forall x :: x in order <==> x in plugins || exists p :: p in plugins && DependsOn(g, p, x)
  {
    hide DependsOn, Acyclic;
    var tempSet := new LinkedHashSet();
    var i := 0;
    while i < |plugins|
      invariant 0 <= i <= |plugins| && Distinct(tempSet.s) && DependenciesFirst(g, tempSet.s) && fresh(tempSet)
      invariant forall k :: 0 <= k < i ==> plugins[k] in tempSet.s
      invariant forall x :: x in tempSet.s ==> x in plugins || exists p :: p in plugins && DependsOn(g, p, x)
    {
      ghost var was := tempSet.s;
      AddOrderedPlugin(g, plugins[i], tempSet, {});
      forall x | x in tempSet.s
        ensures x in plugins || exists p :: p in plugins && DependsOn(g, p, x)
      {
        if x !in was && x != plugins[i] {
          assert DependsOn(g, plugins[i], x);
        }
      }
      i := i + 1;
    }
    order := tempSet.s;
    forall j, d | 0 <= j < |order| && DependsOn(g, order[j], d)
      ensures d in order[..j]
    {
      AllDependenciesFirst(g, order, j, d);
    }
    forall p, x | p in plugins && DependsOn(g, p, x)
      ensures x in order
    {
      var j :| 0 <= j < |order| && order[j] == p;
      AllDependenciesFirst(g, order, j, x);
    }
  }

  /** `getAllPluginDependencies`. */
  method GetAllPluginDependencies(g: Graph, plugin: Name, ghost above: set<Name>) returns (result: set<Name>)
    requires Closed(g) && Acyclic(g) && Above(g, above, plugin)
    ensures result == AllBelow(g, plugin)
    decreases |g.Keys - above|
  {
    hide DependsOn, Acyclic;
    result := {};
    var i := 0;
    while i < |g[plugin]|
      invariant 0 <= i <= |g[plugin]| && result <= AllBelow(g, plugin)
      invariant forall k :: 0 <= k < i ==> {g[plugin][k]} + AllBelow(g, g[plugin][k]) <= result
    {
      var dep := g[plugin][i];
      result := result + {dep};
      AboveNext(g, above, plugin, dep);
      var more := GetAllPluginDependencies(g, dep, above + {plugin});
      result := result + more;
      BelowNext(g, plugin, dep);
      i := i + 1;
    }
    forall q | q in AllBelow(g, plugin)
      ensures q in result
    {
      var b := FirstEdge(g, plugin, q);
      var k :| 0 <= k < |g[plugin]| && g[plugin][k] == b;
      assert {b} + AllBelow(g, b) <= result;
    }
  }

  /** Ordering one plugin gives the plugin and `getAllPluginDependencies` of it. */
  method OrderOne(g: Graph, plugin: Name) returns (order: seq<Name>, all: set<Name>)
    requires Closed(g) && Acyclic(g) && plugin in g
    ensures forall x :: x in order <==> x in {plugin} + all
    ensures order != [] && order[|order| - 1] == plugin && plugin !in all
  {
    hide DependsOn;
    order := OrderPlugins(g, [plugin]);
    all := GetAllPluginDependencies(g, plugin, {});
    forall x
      ensures x in order <==> x in {plugin} + all
    {
      if x in order && x != plugin {
        assert DependsOn(g, plugin, x);
        InGraph(g, plugin, x);
      }
    }
    var i :| 0 <= i < |order| && order[i] == plugin;
    var x := order[|order| - 1];
    assert x in {plugin} + all;
  }

  lemma InGraph(g: Graph, a: Name, b: Name)
    requires Closed(g) && DependsOn(g, a, b)
    ensures b in g
  {
    var path :| PathFromTo(g, path, a, b);
    assert path[|path| - 2 + 1] in g[path[|path| - 2]];
  }
}
