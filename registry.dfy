/**
 * The imperative core of main.go: Mod nodes whose two maps are updated in
 * place, the registry `modMap` with its getMod closure, the loop over the edge
 * lines, the loop over the registry that prints every match, and main itself.
 * Each method is tied to the value-level specification in DepGraph and Render
 * through the ghost field `view`, the graph as a value.
 */
module Registry {
  import opened Wrappers
  import opened ModKey
  import opened StringOrder
  import opened DepGraph
  import opened Render

  /** type Mod struct: a parsed identity and the two adjacency maps, keyed by raw token. */
  class Mod {
    const name: string
    const version: string
    var requireModMap: map<string, Mod>
    var requiredModMap: map<string, Mod>

    constructor (name: string, version: string)
      ensures this.name == name && this.version == version
      ensures requireModMap == map[] && requiredModMap == map[]
    {
      this.name := name;
      this.version := version;
      requireModMap := map[];
      requiredModMap := map[];
    }

    function Id(): ModId
    {
      ModId(name, version)
    }

    /** The node as a value: its identity and the keys of its two maps. */
    function Abstract(): Node
      reads this
    {
      Node(Id(), requireModMap.Keys, requiredModMap.Keys)
    }
  }

  /** Distinct raw tokens have distinct nodes. */
  ghost predicate DistinctIn(m: map<string, Mod>)
  {
    forall a, b :: a in m && b in m && a != b ==> m[a] != m[b]
  }

  /** Every pointer held in a node's maps is the registry's node for that key. */
  ghost predicate LinkedIn(m: map<string, Mod>)
    reads m.Values
  {
    && (forall a, b :: a in m && b in m[a].requireModMap ==> b in m && m[a].requireModMap[b] == m[b])
    && (forall a, b :: a in m && b in m[a].requiredModMap ==> b in m && m[a].requiredModMap[b] == m[b])
  }

  /** G records, key by key, each node's identity and the keys of its two maps. */
  ghost predicate AbstractsIn(m: map<string, Mod>, g: GraphView)
    reads m.Values
  {
    && m.Keys == g.Keys
    && forall k :: k in m ==> g[k] == m[k].Abstract()
  }

  lemma AddDistinct(m: map<string, Mod>, k: string, mod: Mod)
    requires DistinctIn(m) && mod !in m.Values
    ensures DistinctIn(m[k := mod])
  {
    var m' := m[k := mod];
    forall a, b | a in m' && b in m' && a != b
      ensures m'[a] != m'[b]
    {
      if a != k && b != k {
        assert m'[a] == m[a] && m'[b] == m[b];
      } else if a == k {
        assert m[b] in m.Values;
      } else {
        assert m[a] in m.Values;
      }
    }
  }

  lemma AddLinked(m: map<string, Mod>, k: string, mod: Mod)
    requires LinkedIn(m) && k !in m
    requires mod.requireModMap == map[] && mod.requiredModMap == map[]
    ensures LinkedIn(m[k := mod])
  {
    var m' := m[k := mod];
    forall a, b | a in m' && b in m'[a].requireModMap ensures b in m' && m'[a].requireModMap[b] == m'[b] {
      assert a != k && m'[a] == m[a];
    }
    forall a, b | a in m' && b in m'[a].requiredModMap ensures b in m' && m'[a].requiredModMap[b] == m'[b] {
      assert a != k && m'[a] == m[a];
    }
  }

  lemma AddValues(m: map<string, Mod>, k: string, mod: Mod)
    ensures m[k := mod].Values <= m.Values + {mod}
  {
    forall v | v in m[k := mod].Values ensures v in m.Values + {mod} {
      var j :| j in m[k := mod] && m[k := mod][j] == v;
      if j != k { assert m[j] == v; }
    }
  }

  lemma AddAbstracts(m: map<string, Mod>, g: GraphView, k: string, mod: Mod)
    requires AbstractsIn(m, g) && k !in m
    ensures AbstractsIn(m[k := mod], g[k := mod.Abstract()])
  {
  }

  /** The registry invariant: nodes within the footprint R, one node per token, pointers resolved, G its value. */
  ghost predicate Inv(m: map<string, Mod>, g: GraphView, R: set<Mod>)
    reads R
  {
    m.Values <= R && DistinctIn(m) && LinkedIn(m) && AbstractsIn(m, g)
  }

  /** Registering a fresh node with empty maps keeps the invariant. */
  lemma AddInv(m: map<string, Mod>, g: GraphView, R: set<Mod>, k: string, mod: Mod)
    requires Inv(m, g, R) && k !in m && mod !in R
    requires mod.requireModMap == map[] && mod.requiredModMap == map[]
    ensures Inv(m[k := mod], g[k := mod.Abstract()], R + {mod})
  {
    AddDistinct(m, k, mod);
    AddLinked(m, k, mod);
    AddAbstracts(m, g, k, mod);
    AddValues(m, k, mod);
  }

  /** A registry whose pointers all resolve has no dangling required-by key. */
  lemma LinkedClosed(m: map<string, Mod>, g: GraphView)
    requires LinkedIn(m) && AbstractsIn(m, g)
    ensures Closed(g)
  {
    forall a, b | a in g && b in g[a].requiredMods ensures b in g {
      assert g[a] == m[a].Abstract();
    }
  }

  /** The registry `modMap`, from raw token to its node. */
  class Graph {
    var modMap: map<string, Mod>
    ghost var view: GraphView
    ghost var Repr: set<Mod>

    ghost predicate Valid()
      reads this, Repr
    {
      Inv(modMap, view, Repr)
    }

    /** The graph as a value, read off the nodes. */
    function Snapshot(): (g: GraphView)
      reads this, modMap.Values
      ensures AbstractsIn(modMap, view) ==> g == view
    {
      map k | k in modMap :: modMap[k].Abstract()
    }

    constructor ()
      ensures Valid() && modMap == map[] && view == map[] && Repr == {}
    {
      modMap := map[];
      view := map[];
      Repr := {};
    }

    /** getMod: the registered node, or a new node with empty maps for a token that parses. */
    method GetMod(modRaw: string) returns (r: Result<Mod, Fatal>)
      requires Valid()
      modifies this
      ensures Valid()
      ensures Register(old(view), modRaw) == (if r.Success? then Success(view) else Failure(r.error))
      ensures r.Success? ==> modMap == old(modMap)[modRaw := r.value]
      ensures r.Success? && modRaw in old(modMap) ==> r.value == old(modMap[modRaw])
      ensures r.Success? && modRaw !in old(modMap) ==> fresh(r.value)
      ensures r.Failure? ==> modMap == old(modMap)
      ensures old(Repr) <= Repr && fresh(Repr - old(Repr))
    {
      if modRaw in modMap {
        assert modMap == modMap[modRaw := modMap[modRaw]];
        return Success(modMap[modRaw]);
      }
      var parsed := ParseModRaw(modRaw);
      if parsed.Failure? {
        return Failure(parsed.error);
      }
      var mod := Add(modRaw, parsed.value);
      r := Success(mod);
    }

    /** The tail of getMod: a fresh node with empty maps stored under a new token. */
    method Add(modRaw: string, id: ModId) returns (mod: Mod)
      requires Valid() && modRaw !in modMap
      modifies this
      ensures Valid() && fresh(mod)
      ensures modMap == old(modMap)[modRaw := mod]
      ensures view == old(view)[modRaw := Node(id, {}, {})]
      ensures Repr == old(Repr) + {mod}
    {
      mod := new Mod(id.name, id.version);
      assert mod.Abstract() == Node(id, {}, {}) by {
        assert mod.requireModMap.Keys == {} && mod.requiredModMap.Keys == {};
      }
      ghost var m, g, R := modMap, view, Repr;
      assert Inv(m, g, R);
      modMap, view, Repr := modMap[modRaw := mod], view[modRaw := mod.Abstract()], Repr + {mod};
      AddInv(m, g, R, modRaw, mod);
    }

    /** mod.RequireModMap[requireModRaw] = requireMod */
    method SetRequire(mod: Mod, modRaw: string, requireMod: Mod, requireModRaw: string)
      requires LinkedIn(modMap) && DistinctIn(modMap)
      requires modRaw in modMap && modMap[modRaw] == mod
      requires requireModRaw in modMap && modMap[requireModRaw] == requireMod
      modifies mod
      ensures LinkedIn(modMap)
      ensures mod.requireModMap == old(mod.requireModMap)[requireModRaw := requireMod]
      ensures forall k :: k in modMap ==>
                modMap[k].Abstract() == if k == modRaw then AddRequire(old(modMap[k].Abstract()), requireModRaw)
                                        else old(modMap[k].Abstract())
    {
      mod.requireModMap := mod.requireModMap[requireModRaw := requireMod];
      forall k | k in modMap && k != modRaw ensures modMap[k] != mod {
      }
    }

    /** requireMod.RequiredModMap[modRaw] = mod */
    method SetRequired(requireMod: Mod, requireModRaw: string, mod: Mod, modRaw: string)
      requires LinkedIn(modMap) && DistinctIn(modMap)
      requires requireModRaw in modMap && modMap[requireModRaw] == requireMod
      requires modRaw in modMap && modMap[modRaw] == mod
      modifies requireMod
      ensures LinkedIn(modMap)
      ensures requireMod.requiredModMap == old(requireMod.requiredModMap)[modRaw := mod]
      ensures forall k :: k in modMap ==>
                modMap[k].Abstract() == if k == requireModRaw then AddRequired(old(modMap[k].Abstract()), modRaw)
                                        else old(modMap[k].Abstract())
    {
      requireMod.requiredModMap := requireMod.requiredModMap[modRaw := mod];
      forall k | k in modMap && k != requireModRaw ensures modMap[k] != requireMod {
      }
    }

    /** The two map insertions of an edge line, seen on the graph value as Link. */
    method Connect(mod: Mod, modRaw: string, requireMod: Mod, requireModRaw: string)
      requires Valid()
      requires modRaw in modMap && modMap[modRaw] == mod
      requires requireModRaw in modMap && modMap[requireModRaw] == requireMod
      modifies this, mod, requireMod
      ensures Valid() && modMap == old(modMap) && Repr == old(Repr)
      ensures view == Link(old(view), modRaw, requireModRaw)
    {
      ghost var before := view;
      SetRequire(mod, modRaw, requireMod, requireModRaw);
      SetRequired(requireMod, requireModRaw, mod, modRaw);
      view := Link(view, modRaw, requireModRaw);
      forall k | k in modMap
        ensures view[k] == modMap[k].Abstract()
      {
        LinkAt(before, modRaw, requireModRaw, k);
      }
    }

    /** One pass of the line loop: split the line, then insert its edge. */
    method ProcessLine(line: string) returns (err: Option<Fatal>)
      requires Valid()
      modifies this, Repr
      ensures Valid()
      ensures AddLine(old(view), line) == if err.None? then Success(view) else Failure(err.value)
      ensures old(Repr) <= Repr && fresh(Repr - old(Repr))
    {
      var lineSplit := Split(line, ' ');
      if |lineSplit| != 2 {
        return Some(SplitLineError(line));
      }
      assert SplitLine(line) == Success((lineSplit[0], lineSplit[1]));
      err := InsertLine(lineSplit[0], lineSplit[1]);
    }

    /** The rest of the loop body: getMod for both tokens, then the two map insertions. */
    method InsertLine(modRaw: string, requireModRaw: string) returns (err: Option<Fatal>)
      requires Valid()
      modifies this, Repr
      ensures Valid()
      ensures AddEdge(old(view), modRaw, requireModRaw) == if err.None? then Success(view) else Failure(err.value)
      ensures old(Repr) <= Repr && fresh(Repr - old(Repr))
    {
      var r := GetMods(modRaw, requireModRaw);
      if r.Failure? {
        return Some(r.error);
      }
      var (mod, requireMod) := r.value;
      Connect(mod, modRaw, requireMod, requireModRaw);
      err := None;
    }

    /** mod := getMod(modRaw); requireMod := getMod(requireModRaw) */
    method GetMods(modRaw: string, requireModRaw: string) returns (r: Result<(Mod, Mod), Fatal>)
      requires Valid()
      modifies this
      ensures Valid()
      ensures RegisterBoth(old(view), modRaw, requireModRaw) == (if r.Success? then Success(view) else Failure(r.error))
      ensures r.Success? ==> modRaw in modMap && modMap[modRaw] == r.value.0
      ensures r.Success? ==> requireModRaw in modMap && modMap[requireModRaw] == r.value.1
      ensures old(Repr) <= Repr && fresh(Repr - old(Repr))
    {
      var r1 := GetMod(modRaw);
      if r1.Failure? {
        return Failure(r1.error);
      }
      ghost var R1 := Repr;
      var r2 := GetMod(requireModRaw);
      assert fresh(Repr - R1);
      assert Repr - old(Repr) <= (R1 - old(Repr)) + (Repr - R1);
      if r2.Failure? {
        return Failure(r2.error);
      }
      r := Success((r1.value, r2.value));
    }

    /** The line loop of main, from the current registry; the first fatal line stops it. */
    method ProcessLines(lines: seq<string>) returns (err: Option<Fatal>)
      requires Valid() && Wellformed(view)
      modifies this, Repr
      ensures Valid()
      ensures BuildFrom(old(view), lines) == if err.None? then Success(view) else Failure(err.value)
      ensures err.None? ==> Wellformed(view)
    {
      var i := 0;
      while i < |lines|
        invariant 0 <= i <= |lines|
        invariant Valid()
        invariant BuildFrom(old(view), lines) == BuildFrom(view, lines[i..])
        invariant old(Repr) <= Repr && fresh(Repr - old(Repr))
      {
        assert lines[i..][0] == lines[i] && lines[i..][1..] == lines[i + 1..];
        var e := ProcessLine(lines[i]);
        if e.Some? {
          return e;
        }
        i := i + 1;
      }
      err := None;
      BuildFromWellformed(old(view), lines);
    }

    /**
     * The match block of main: parse the search token, then walk the
     * registry and print the tree of every node the filter selects.
     */
    method PrintMatches(searchMod: string) returns (out: Result<seq<string>, Fatal>)
      requires Valid()
      ensures Closed(view)
      ensures out == Report(view, searchMod)
    {
      LinkedClosed(modMap, view);
      var parsed := ParseModRaw(searchMod);
      if parsed.Failure? {
        return Failure(parsed.error);
      }
      var g := Snapshot();
      var keys := SortedKeys(modMap.Keys);
      out := PrintSelected(g, keys, parsed.value);
      SelectMatches(g, parsed.value);
    }

    /** The `for _, mod := range modMap` loop of the match block, over the keys in sorted order. */
    method PrintSelected(g: GraphView, keys: seq<string>, search: ModId) returns (out: Result<seq<string>, Fatal>)
      requires Closed(g) && AbstractsIn(modMap, g) && forall k :: k in keys ==> k in modMap
      ensures out == RenderAll(g, SelectIn(g, keys, search))
    {
      var printed: seq<string> := [];
      var i := 0;
      while i < |keys|
        invariant 0 <= i <= |keys|
        invariant RenderAll(g, SelectIn(g, keys[..i], search)) == Success(printed)
      {
        var k := keys[i];
        var mod := modMap[k];
        assert k in g && g[k].id == mod.Id();
        PrintStep(g, keys, i, search, printed);
        if mod.name != search.name {
          i := i + 1;
          continue;
        }
        if search.version != "" && mod.version != search.version {
          i := i + 1;
          continue;
        }
        var tree := RenderMod(g, k, 0, {});
        if tree.None? {
          return Failure(StackOverflow(k));
        }
        printed := printed + tree.value;
        i := i + 1;
      }
      assert keys[..i] == keys;
      out := Success(printed);
    }
  }

  /** One turn of the match loop: a skipped key prints nothing, a selected one its tree or ends the run. */
  lemma PrintStep(g: GraphView, keys: seq<string>, i: nat, search: ModId, printed: seq<string>)
    requires Closed(g) && (forall x :: x in keys ==> x in g) && i < |keys|
    requires RenderAll(g, SelectIn(g, keys[..i], search)) == Success(printed)
    ensures !Selected(g[keys[i]].id, search) ==> RenderAll(g, SelectIn(g, keys[..i + 1], search)) == Success(printed)
    ensures Selected(g[keys[i]].id, search) && RenderMod(g, keys[i], 0, {}).Some? ==>
              RenderAll(g, SelectIn(g, keys[..i + 1], search)) == Success(printed + RenderMod(g, keys[i], 0, {}).value)
    ensures Selected(g[keys[i]].id, search) && RenderMod(g, keys[i], 0, {}).None? ==>
              RenderAll(g, SelectIn(g, keys, search)) == Failure(StackOverflow(keys[i]))
  {
    var k := keys[i];
    TakeOneMore(keys, i);
    SelectInSnoc(g, keys[..i], k, search);
    if Selected(g[k].id, search) {
      PrintSelectedStep(g, keys, i, search, printed);
    }
  }

  lemma TakeOneMore(keys: seq<string>, i: nat)
    requires i < |keys|
    ensures keys[..i + 1] == keys[..i] + [keys[i]]
  {
  }

  lemma PrintSelectedStep(g: GraphView, keys: seq<string>, i: nat, search: ModId, printed: seq<string>)
    requires Closed(g) && (forall x :: x in keys ==> x in g) && i < |keys|
    requires RenderAll(g, SelectIn(g, keys[..i], search)) == Success(printed)
    requires SelectIn(g, keys[..i + 1], search) == SelectIn(g, keys[..i], search) + [keys[i]]
    ensures RenderMod(g, keys[i], 0, {}).Some? ==>
              RenderAll(g, SelectIn(g, keys[..i + 1], search)) == Success(printed + RenderMod(g, keys[i], 0, {}).value)
    ensures RenderMod(g, keys[i], 0, {}).None? ==>
              RenderAll(g, SelectIn(g, keys, search)) == Failure(StackOverflow(keys[i]))
  {
    RenderAllSnoc(g, SelectIn(g, keys[..i], search), keys[i]);
    if RenderMod(g, keys[i], 0, {}).None? {
      SelectInPrefix(g, keys, i + 1, search);
      RenderAllStops(g, SelectIn(g, keys, search), |SelectIn(g, keys[..i + 1], search)|);
    }
  }

  /**
   * main, after reading the graph file: build the registry from its lines,
   * then print the trees of the matches of the search token.
   */
  method RunQuery(lines: seq<string>, searchMod: string) returns (out: Result<seq<string>, Fatal>)
    ensures out == Query(lines, searchMod)
  {
    var graph := new Graph();
    var err := graph.ProcessLines(lines);
    if err.Some? {
      return Failure(err.value);
    }
    out := graph.PrintMatches(searchMod);
  }
}
