/**
 * A worked run of main: the graph file
 *
 *   a b
 *   b c
 *
 * (a requires b, b requires c) searched for `c` prints c, then what requires
 * c two spaces in, then what requires that four spaces in.
 */
module Scenario {
  import opened Wrappers
  import opened ModKey
  import opened StringOrder
  import opened DepGraph
  import opened Render

  const Lines: seq<string> := ["a b", "b c"]

  function Bare(raw: string): ModId { ModId(raw, "") }

  /** The registry after the first line. */
  function AfterFirst(): GraphView
  {
    map["a" := Node(Bare("a"), {"b"}, {}),
        "b" := Node(Bare("b"), {}, {"a"})]
  }

  /** The registry after both lines: c is required by b, which is required by a. */
  function Expected(): GraphView
  {
    map["a" := Node(Bare("a"), {"b"}, {}),
        "b" := Node(Bare("b"), {"c"}, {"a"}),
        "c" := Node(Bare("c"), {}, {"b"})]
  }

  lemma SplitLines()
    ensures SplitLine("a b") == Success(("a", "b"))
    ensures SplitLine("b c") == Success(("b", "c"))
    ensures SplitLine("b a") == Success(("b", "a"))
  {
    SplitNoSeparator("a", ' ');
    SplitNoSeparator("b", ' ');
    SplitNoSeparator("c", ' ');
    assert "a b" == "a" + [' '] + "b";
    SplitAtSeparator("a", ' ', "b");
    assert "b c" == "b" + [' '] + "c";
    SplitAtSeparator("b", ' ', "c");
    assert "b a" == "b" + [' '] + "a";
    SplitAtSeparator("b", ' ', "a");
  }

  /** The first line registers a and b and links them. */
  lemma FirstLine()
    ensures AddLine(map[], "a b") == Success(AfterFirst())
  {
    SplitLines();
    ParseBareName("a");
    ParseBareName("b");
    var g0 := map["a" := Node(Bare("a"), {}, {})];
    assert Register(map[], "a") == Success(g0);
    var g2 := g0["b" := Node(Bare("b"), {}, {})];
    assert Register(g0, "b") == Success(g2);
    assert RegisterBoth(map[], "a", "b") == Success(g2);
    var g3 := g2["a" := Node(Bare("a"), {"b"}, {})];
    assert g2["a"].requireMods + {"b"} == {"b"} && g3["b"].requiredMods + {"a"} == {"a"};
    assert Link(g2, "a", "b") == g3["b" := Node(Bare("b"), {}, {"a"})];
    assert g3["b" := Node(Bare("b"), {}, {"a"})] == AfterFirst();
    assert AddEdge(map[], "a", "b") == Success(AfterFirst());
  }

  /** The second line finds b registered, registers c and links them. */
  lemma SecondLine()
    ensures AddLine(AfterFirst(), "b c") == Success(Expected())
  {
    var g1 := AfterFirst();
    SplitLines();
    ParseBareName("c");
    assert Register(g1, "b") == Success(g1);
    var g2 := g1["c" := Node(Bare("c"), {}, {})];
    assert Register(g1, "c") == Success(g2);
    assert RegisterBoth(g1, "b", "c") == Success(g2);
    var g3 := g2["b" := Node(Bare("b"), {"c"}, {"a"})];
    assert g2["b"].requireMods + {"c"} == {"c"} && g3["c"].requiredMods + {"b"} == {"b"};
    assert Link(g2, "b", "c") == g3["c" := Node(Bare("c"), {}, {"b"})];
    assert g3["c" := Node(Bare("c"), {}, {"b"})] == Expected();
  }

  lemma BuildExample()
    ensures Build(Lines) == Success(Expected())
  {
    FirstLine();
    SecondLine();
    assert Lines[1..] == ["b c"] && ["b c"][1..] == [];
    assert BuildFrom(Expected(), []) == Success(Expected());
    assert BuildFrom(AfterFirst(), ["b c"]) == Success(Expected());
  }

  /** printMod's line followed by its children's trees, once the children are known to print. */
  lemma RenderModOf(g: GraphView, raw: string, depth: nat, path: set<string>, below: seq<string>)
    requires Closed(g) && raw in g && path <= g.Keys && raw !in path
    requires RenderChildren(g, SortedKeys(g[raw].requiredMods), depth + 2, path + {raw}) == Some(below)
    ensures RenderMod(g, raw, depth, path) == Some([LineFor(depth, g[raw].id)] + below)
  {
  }

  /** A node with exactly one child prints its line and then that child's tree. */
  lemma RenderOneChild(g: GraphView, raw: string, kid: string, depth: nat, path: set<string>, tree: seq<string>)
    requires Closed(g) && raw in g && path <= g.Keys && raw !in path
    requires g[raw].requiredMods == {kid} && kid !in path + {raw}
    requires RenderMod(g, kid, depth + 2, path + {raw}) == Some(tree)
    ensures RenderMod(g, raw, depth, path) == Some([LineFor(depth, g[raw].id)] + tree)
  {
    var kids := SortedKeys(g[raw].requiredMods);
    assert kids == [kid];
    assert kids[1..] == [];
    assert RenderChildren(g, kids[1..], depth + 2, path + {raw}) == Some([]);
    assert tree + [] == tree;
    RenderModOf(g, raw, depth, path, tree);
  }

  /** The match loop over a single match prints that match's tree, or overflows on it. */
  lemma RenderAllSingle(g: GraphView, k: string)
    requires Closed(g) && k in g
    ensures RenderAll(g, [k]) == match RenderMod(g, k, 0, {})
                                 case None => Failure(StackOverflow(k))
                                 case Some(tree) => Success(tree)
  {
    assert [k][..0] == [];
    assert RenderAll(g, []) == Success([]);
    if RenderMod(g, k, 0, {}).Some? {
      var tree := RenderMod(g, k, 0, {}).value;
      assert [] + tree == tree;
    }
  }

  /** When the search token selects only its own node, the run prints that node's tree or overflows on it. */
  lemma ReportSingle(g: GraphView, searchMod: string)
    requires Closed(g) && searchMod in g && ParseModRaw(searchMod).Success?
    requires Matches(g, ParseModRaw(searchMod).value) == {searchMod}
    ensures Report(g, searchMod) == RenderAll(g, [searchMod])
  {
    SortedUnique(SortedKeys({searchMod}), [searchMod]);
  }

  /** The three lines of the expected output. */
  lemma LinesExample()
    ensures LineFor(0, Bare("c")) == "c"
    ensures LineFor(2, Bare("b")) == "  b"
    ensures LineFor(4, Bare("a")) == "    a"
  {
    assert Indent(0) == "" && Indent(2) == "  " && Indent(4) == "    ";
  }

  /** Printed from c, b's tree: b two spaces in, then a four spaces in. */
  lemma RenderMiddle(g: GraphView)
    requires Closed(g) && "a" in g && "b" in g && "c" in g
    requires g["a"] == Node(Bare("a"), {"b"}, {}) && g["b"] == Node(Bare("b"), {"c"}, {"a"})
    ensures RenderMod(g, "b", 2, {"c"}) == Some(["  b", "    a"])
  {
    LinesExample();
    assert {"c"} + {"b"} == {"c", "b"};
    RenderLeaf(g, "a", 4, {"c", "b"});
    RenderOneChild(g, "b", "a", 2, {"c"}, ["    a"]);
    assert ["  b"] + ["    a"] == ["  b", "    a"];
  }

  /** c's tree: c, then b two spaces in, then a four spaces in. */
  lemma RenderTop(g: GraphView)
    requires Closed(g) && "b" in g && "c" in g && g["c"] == Node(Bare("c"), {}, {"b"})
    requires RenderMod(g, "b", 2, {"c"}) == Some(["  b", "    a"])
    ensures RenderMod(g, "c", 0, {}) == Some(["c", "  b", "    a"])
  {
    LinesExample();
    assert {} + {"c"} == {"c"};
    RenderOneChild(g, "c", "b", 0, {}, ["  b", "    a"]);
    assert ["c"] + ["  b", "    a"] == ["c", "  b", "    a"];
  }

  lemma RenderExample()
    ensures Closed(Expected())
    ensures RenderMod(Expected(), "c", 0, {}) == Some(["c", "  b", "    a"])
  {
    RenderMiddle(Expected());
    RenderTop(Expected());
  }

  /** Only c's node has the name c. */
  lemma MatchesExample()
    ensures Matches(Expected(), Bare("c")) == {"c"}
  {
    var g := Expected();
    forall k | k in Matches(g, Bare("c")) ensures k == "c" {
      assert k in g && g[k].id.name == "c";
    }
    assert "c" in Matches(g, Bare("c"));
  }

  /** The match block on that registry: only c matches, and its tree is printed. */
  lemma ReportExample()
    ensures Closed(Expected())
    ensures Report(Expected(), "c") == Success(["c", "  b", "    a"])
  {
    RenderExample();
    ParseBareName("c");
    MatchesExample();
    ReportSingle(Expected(), "c");
    RenderAllSingle(Expected(), "c");
  }

  /** Searching for c prints c, then b two spaces in, then a four spaces in. */
  lemma QueryExample()
    ensures Query(Lines, "c") == Success(["c", "  b", "    a"])
  {
    BuildExample();
    ReportExample();
  }

  /** The graph file `a b`, `b a`: a and b require each other. */
  const CycleLines: seq<string> := ["a b", "b a"]

  /** The registry after both lines of the cycle. */
  function CycleGraph(): GraphView
  {
    map["a" := Node(Bare("a"), {"b"}, {"b"}),
        "b" := Node(Bare("b"), {"a"}, {"a"})]
  }

  /** The second line of the cycle finds both tokens registered and links b to a. */
  lemma CycleSecondLine()
    ensures AddLine(AfterFirst(), "b a") == Success(CycleGraph())
  {
    var g1 := AfterFirst();
    SplitLines();
    assert Register(g1, "b") == Success(g1);
    assert Register(g1, "a") == Success(g1);
    assert RegisterBoth(g1, "b", "a") == Success(g1);
    var g2 := g1["b" := Node(Bare("b"), {"a"}, {"a"})];
    assert g1["b"].requireMods + {"a"} == {"a"} && g2["a"].requiredMods + {"b"} == {"b"};
    assert Link(g1, "b", "a") == g2["a" := Node(Bare("a"), {"b"}, {"b"})];
    assert g2["a" := Node(Bare("a"), {"b"}, {"b"})] == CycleGraph();
  }

  lemma BuildCycle()
    ensures Build(CycleLines) == Success(CycleGraph())
  {
    FirstLine();
    CycleSecondLine();
    assert CycleLines[1..] == ["b a"] && ["b a"][1..] == [];
    assert BuildFrom(CycleGraph(), []) == Success(CycleGraph());
    assert BuildFrom(AfterFirst(), ["b a"]) == Success(CycleGraph());
  }

  /** printMod on a never returns: a is required by b, which is required by a. */
  lemma RenderCycle(g: GraphView)
    requires g == CycleGraph()
    ensures Closed(g)
    ensures RenderMod(g, "a", 0, {}).None?
  {
    var w := ["a", "b", "a"];
    assert w[..2] == ["a", "b"];
    assert IsWalk(g, w);
    CycleDiverges(g, w);
  }

  /** Only a's node has the name a. */
  lemma MatchesCycle()
    ensures Matches(CycleGraph(), Bare("a")) == {"a"}
  {
    var g := CycleGraph();
    forall k | k in Matches(g, Bare("a")) ensures k == "a" {
      assert k in g && g[k].id.name == "a";
    }
    assert "a" in Matches(g, Bare("a"));
  }

  /** Searching for a aborts the run: printMod on a recurses until the stack is exhausted. */
  lemma QueryCycle()
    ensures Query(CycleLines, "a") == Failure(StackOverflow("a"))
  {
    BuildCycle();
    RenderCycle(CycleGraph());
    ParseBareName("a");
    MatchesCycle();
    ReportSingle(CycleGraph(), "a");
    RenderAllSingle(CycleGraph(), "a");
  }
}
