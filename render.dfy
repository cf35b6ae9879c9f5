/**
 * The query half of main.go: selecting the nodes that match the search token
 * and printMod's indented required-by tree, as the sequence of lines written
 * to standard output.
 *
 * printMod iterates a Go map, so the order of children (and of matches) is
 * unspecified; this model renders them in increasing raw-token order.
 * printMod keeps no visited set: it returns only if no required-by walk from
 * its node comes back to a node already on the walk. The renderer tracks the
 * nodes on the current walk (`path`) and answers None exactly where printMod
 * would recurse forever.
 */
module Render {
  import opened Wrappers
  import opened ModKey
  import opened StringOrder
  import opened DepGraph

  /** strings.Repeat(" ", n). */
  function Indent(n: nat): (r: string)
    ensures |r| == n && forall i :: 0 <= i < n ==> r[i] == ' '
  {
    seq(n, _ => ' ')
  }

  /** The line printMod writes for a node at the given depth. */
  function LineFor(depth: nat, id: ModId): string
  {
    Indent(depth) + Format(id)
  }

  /** The line starts with at least `n` spaces. */
  predicate IndentedBy(line: string, n: nat)
  {
    |line| >= n && forall i :: 0 <= i < n ==> line[i] == ' '
  }

  /** Every required-by key names a registered node. */
  ghost predicate Closed(g: GraphView)
  {
    forall a, b :: a in g && b in g[a].requiredMods ==> b in g
  }

  lemma WellformedClosed(g: GraphView)
    requires Wellformed(g)
    ensures Closed(g)
  {
  }

  lemma BuildClosed(lines: seq<string>)
    requires Build(lines).Success?
    ensures Closed(Build(lines).value)
  {
    assert Wellformed(map[]);
    BuildFromWellformed(map[], lines);
    WellformedClosed(Build(lines).value);
  }

  lemma StepCardinality(keys: set<string>, path: set<string>, raw: string)
    requires raw in keys && raw !in path
    ensures |keys - (path + {raw})| + 1 == |keys - path|
  {
    assert keys - path == (keys - (path + {raw})) + {raw};
  }

  /**
   * printMod(mod, depth): the node's line, then every required-by child at
   * depth + 2. `path` holds the nodes whose printMod calls are still running.
   */
  function RenderMod(g: GraphView, raw: string, depth: nat, path: set<string>): (r: Option<seq<string>>)
    requires Closed(g) && raw in g && path <= g.Keys && raw !in path
    ensures r.Some? ==> |r.value| >= 1 && r.value[0] == LineFor(depth, g[raw].id)
    ensures r.Some? ==> forall i :: 1 <= i < |r.value| ==> IndentedBy(r.value[i], depth + 2)
    ensures r.Some? ==> forall c :: c in g[raw].requiredMods ==> LineFor(depth + 2, g[c].id) in r.value
    decreases |g.Keys - path|, 1, 0
  {
    StepCardinality(g.Keys, path, raw);
    match RenderChildren(g, SortedKeys(g[raw].requiredMods), depth + 2, path + {raw})
    case None => None
    case Some(below) => Some([LineFor(depth, g[raw].id)] + below)
  }

  /** The loop over RequiredModMap: each child's tree in turn, all at the same depth. */
  function RenderChildren(g: GraphView, kids: seq<string>, depth: nat, path: set<string>): (r: Option<seq<string>>)
    requires Closed(g) && path <= g.Keys && forall c :: c in kids ==> c in g
    ensures r.Some? ==> forall i :: 0 <= i < |r.value| ==> IndentedBy(r.value[i], depth)
    ensures r.Some? ==> forall c :: c in kids ==> LineFor(depth, g[c].id) in r.value
    decreases |g.Keys - path| + 1, 0, |kids|
  {
    if |kids| == 0 then Some([])
    else if kids[0] in path then None  // the child is still being printed: endless recursion
    else
      match RenderMod(g, kids[0], depth, path)
      case None => None
      case Some(first) =>
        match RenderChildren(g, kids[1..], depth, path)
        case None => None
        case Some(rest) =>
          JoinChildren(g, kids, depth, first, rest);
          Some(first + rest)
  }

  /** The first child's tree followed by its siblings' trees covers every child, all indented. */
  lemma JoinChildren(g: GraphView, kids: seq<string>, depth: nat, first: seq<string>, rest: seq<string>)
    requires |kids| > 0 && forall c :: c in kids ==> c in g
    requires |first| >= 1 && first[0] == LineFor(depth, g[kids[0]].id)
    requires forall i :: 1 <= i < |first| ==> IndentedBy(first[i], depth + 2)
    requires forall i :: 0 <= i < |rest| ==> IndentedBy(rest[i], depth)
    requires forall c :: c in kids[1..] ==> LineFor(depth, g[c].id) in rest
    ensures forall i :: 0 <= i < |first + rest| ==> IndentedBy((first + rest)[i], depth)
    ensures forall c :: c in kids ==> LineFor(depth, g[c].id) in first + rest
  {
    forall i | 0 <= i < |first + rest| ensures IndentedBy((first + rest)[i], depth) {
      if i >= |first| {
        assert (first + rest)[i] == rest[i - |first|];
      } else if i > 0 {
        assert IndentedBy(first[i], depth + 2);
      }
    }
    forall c | c in kids ensures LineFor(depth, g[c].id) in first + rest {
      if c != kids[0] {
        assert c in kids[1..];
      }
    }
  }

  /** The filter of the match loop: same name, and the same version unless the search has none. */
  predicate Selected(id: ModId, search: ModId)
  {
    id.name == search.name && (search.version == "" || id.version == search.version)
  }

  /** The raw tokens of the nodes the match loop prints. */
  function Matches(g: GraphView, search: ModId): (r: set<string>)
    ensures r <= g.Keys
  {
    set k | k in g && Selected(g[k].id, search)
  }

  /** The index of the first false entry, or |oks| if there is none. */
  function FirstFalse(oks: seq<bool>): (i: nat)
    ensures i <= |oks|
    ensures forall j :: 0 <= j < i ==> oks[j]
    ensures i < |oks| ==> !oks[i]
  {
    if |oks| == 0 then 0
    else if !oks[0] then 0
    else 1 + FirstFalse(oks[1..])
  }

  /** One more entry: the first false entry of the prefix, else the new entry if it is false. */
  lemma FirstFalseSnoc(oks: seq<bool>, b: bool)
    ensures FirstFalse(oks + [b])
            == if FirstFalse(oks) < |oks| then FirstFalse(oks) else if !b then |oks| else |oks| + 1
  {
    var all := oks + [b];
    var f := FirstFalse(all);
    var p := FirstFalse(oks);
    assert all[|oks|] == b;
    if p < |oks| {
      assert all[p] == oks[p];
    }
  }

  /** For each root, whether printMod(root, 0) returns. */
  ghost function Returns(g: GraphView, roots: seq<string>): (oks: seq<bool>)
    requires Closed(g) && forall k :: k in roots ==> k in g
    ensures |oks| == |roots|
  {
    if |roots| == 0 then []
    else Returns(g, roots[..|roots| - 1]) + [RenderMod(g, roots[|roots| - 1], 0, {}).Some?]
  }

  lemma {:induction false} ReturnsAt(g: GraphView, roots: seq<string>, j: nat)
    requires Closed(g) && (forall k :: k in roots ==> k in g) && j < |roots|
    ensures Returns(g, roots)[j] <==> RenderMod(g, roots[j], 0, {}).Some?
    decreases |roots|
  {
    if j < |roots| - 1 {
      ReturnsAt(g, roots[..|roots| - 1], j);
    }
  }

  /** printMod(mod, 0) for each match in turn; the first endless recursion ends the run. */
  function RenderAll(g: GraphView, roots: seq<string>): (r: Result<seq<string>, Fatal>)
    requires Closed(g) && forall k :: k in roots ==> k in g
    ensures r.Failure? <==> FirstFalse(Returns(g, roots)) < |roots|
    ensures r.Failure? ==> r.error == StackOverflow(roots[FirstFalse(Returns(g, roots))])
  {
    if |roots| == 0 then Success([])
    else
      var last := roots[|roots| - 1];
      FirstFalseSnoc(Returns(g, roots[..|roots| - 1]), RenderMod(g, last, 0, {}).Some?);
      match RenderAll(g, roots[..|roots| - 1])
      case Failure(e) => Failure(e)
      case Success(before) =>
        match RenderMod(g, last, 0, {})
        case None => Failure(StackOverflow(last))
        case Some(tree) => Success(before + tree)
  }

  /** The match loop fails exactly when printMod diverges on one of the roots, and then on the first such root. */
  lemma RenderAllFails(g: GraphView, roots: seq<string>)
    requires Closed(g) && forall k :: k in roots ==> k in g
    ensures RenderAll(g, roots).Failure? <==> exists i :: 0 <= i < |roots| && RenderMod(g, roots[i], 0, {}).None?
    ensures RenderAll(g, roots).Failure? ==>
              exists i ::
                && 0 <= i < |roots| && RenderMod(g, roots[i], 0, {}).None?
                && (forall j :: 0 <= j < i ==> RenderMod(g, roots[j], 0, {}).Some?)
                && RenderAll(g, roots).error == StackOverflow(roots[i])
  {
    var oks := Returns(g, roots);
    var f := FirstFalse(oks);
    if f < |roots| {
      ReturnsAt(g, roots, f);
      forall j | 0 <= j < f ensures RenderMod(g, roots[j], 0, {}).Some? {
        ReturnsAt(g, roots, j);
      }
      assert RenderAll(g, roots).error == StackOverflow(roots[f]);
    } else {
      forall i | 0 <= i < |roots| ensures RenderMod(g, roots[i], 0, {}).Some? {
        ReturnsAt(g, roots, i);
      }
    }
  }

  /** The tokens of KS that the match loop selects, in the order of KS. */
  function SelectIn(g: GraphView, ks: seq<string>, search: ModId): (r: seq<string>)
    ensures forall x :: x in r <==> x in ks && x in g && Selected(g[x].id, search)
  {
    if |ks| == 0 then []
    else
      var last := ks[|ks| - 1];
      assert forall x :: x in ks <==> x in ks[..|ks| - 1] || x == last;
      SelectIn(g, ks[..|ks| - 1], search) + (if last in g && Selected(g[last].id, search) then [last] else [])
  }

  /** Selecting from a sorted sequence keeps it sorted. */
  lemma {:induction false} SelectInSorted(g: GraphView, ks: seq<string>, search: ModId)
    requires StrictlySorted(ks)
    ensures StrictlySorted(SelectIn(g, ks, search))
  {
    if |ks| > 0 {
      var init := ks[..|ks| - 1];
      var last := ks[|ks| - 1];
      SelectInSorted(g, init, search);
      var r := SelectIn(g, init, search);
      forall x | x in r ensures Less(x, last) {
        var j :| 0 <= j < |init| && init[j] == x;
        assert ks[j] == x;
      }
    }
  }

  /** One more token examined by the match loop. */
  lemma SelectInSnoc(g: GraphView, ks: seq<string>, k: string, search: ModId)
    ensures k in g && Selected(g[k].id, search) ==> SelectIn(g, ks + [k], search) == SelectIn(g, ks, search) + [k]
    ensures !(k in g && Selected(g[k].id, search)) ==> SelectIn(g, ks + [k], search) == SelectIn(g, ks, search)
  {
    assert (ks + [k])[..|ks|] == ks;
    assert SelectIn(g, ks, search) + [] == SelectIn(g, ks, search);
  }

  /** One more printMod(mod, 0) call of the match loop. */
  lemma RenderAllSnoc(g: GraphView, roots: seq<string>, k: string)
    requires Closed(g) && (forall r :: r in roots ==> r in g) && k in g
    ensures RenderAll(g, roots + [k])
            == match RenderAll(g, roots)
               case Failure(e) => Failure(e)
               case Success(before) =>
                 match RenderMod(g, k, 0, {})
                 case None => Failure(StackOverflow(k))
                 case Some(tree) => Success(before + tree)
  {
    assert (roots + [k])[..|roots|] == roots;
  }

  /** What the match loop has selected from a prefix of KS is a prefix of what it selects from KS. */
  lemma {:induction false} SelectInPrefix(g: GraphView, ks: seq<string>, n: nat, search: ModId)
    requires n <= |ks|
    ensures |SelectIn(g, ks[..n], search)| <= |SelectIn(g, ks, search)|
    ensures SelectIn(g, ks, search)[..|SelectIn(g, ks[..n], search)|] == SelectIn(g, ks[..n], search)
    decreases |ks|
  {
    if n < |ks| {
      var init := ks[..|ks| - 1];
      assert init[..n] == ks[..n];
      SelectInPrefix(g, init, n, search);
    } else {
      assert ks[..n] == ks;
    }
  }

  /** Once a prefix of the matches ends in an endless recursion, so does the whole run. */
  lemma {:induction false} RenderAllStops(g: GraphView, roots: seq<string>, n: nat)
    requires Closed(g) && (forall r :: r in roots ==> r in g) && n <= |roots|
    requires RenderAll(g, roots[..n]).Failure?
    ensures RenderAll(g, roots) == RenderAll(g, roots[..n])
    decreases |roots|
  {
    if n < |roots| {
      var init := roots[..|roots| - 1];
      assert init[..n] == roots[..n];
      RenderAllStops(g, init, n);
    } else {
      assert roots[..n] == roots;
    }
  }

  /** Walking the registry in key order and filtering gives the matches in key order. */
  lemma SelectMatches(g: GraphView, search: ModId)
    ensures SelectIn(g, SortedKeys(g.Keys), search) == SortedKeys(Matches(g, search))
  {
    SelectInSorted(g, SortedKeys(g.Keys), search);
    SortedUnique(SelectIn(g, SortedKeys(g.Keys), search), SortedKeys(Matches(g, search)));
  }

  /** The match block of main: parse the search token, then print the tree of every match. */
  function Report(g: GraphView, searchMod: string): (r: Result<seq<string>, Fatal>)
    requires Closed(g)
    ensures r.Success? ==> ParseModRaw(searchMod).Success?
    ensures r.Failure? ==> r.error == ModRawError(searchMod) || r.error.StackOverflow?
  {
    match ParseModRaw(searchMod)
    case Failure(e) => Failure(e)
    case Success(search) => RenderAll(g, SortedKeys(Matches(g, search)))
  }

  /**
   * main: build the graph from the lines, then report the matches of the
   * search token. Any fatal error ends the run.
   */
  function Query(lines: seq<string>, searchMod: string): (r: Result<seq<string>, Fatal>)
    ensures r.Success? ==> Build(lines).Success? && ParseModRaw(searchMod).Success?
  {
    match Build(lines)
    case Failure(e) => Failure(e)
    case Success(g) =>
      BuildClosed(lines);
      Report(g, searchMod)
  }

  /** A search without a version selects every version of the name. */
  lemma MatchesAllVersions(g: GraphView, name: string)
    ensures Matches(g, ModId(name, "")) == set k | k in g && g[k].id.name == name
  {
  }

  /** A versioned search selects a subset of what the bare name selects. */
  lemma PinnedWithinUnpinned(g: GraphView, search: ModId)
    ensures Matches(g, search) <= Matches(g, ModId(search.name, ""))
  {
  }

  /**
   * A search token with a non-empty version selects exactly the node of that
   * very raw token, if it is registered.
   */
  lemma MatchesPinned(g: GraphView, searchMod: string)
    requires IdsParsed(g)
    requires ParseModRaw(searchMod).Success? && ParseModRaw(searchMod).value.version != ""
    ensures Matches(g, ParseModRaw(searchMod).value) == if searchMod in g then {searchMod} else {}
  {
    var search := ParseModRaw(searchMod).value;
    forall k | k in Matches(g, search) ensures k == searchMod {
      assert ParseModRaw(k) == Success(g[k].id);
      assert g[k].id == search;
      ParseInjectiveOnVersioned(k, searchMod);
    }
    if searchMod in g {
      assert ParseModRaw(searchMod) == Success(g[searchMod].id);
      assert searchMod in Matches(g, search);
    }
  }

  /** A node nothing requires prints as its one line. */
  lemma RenderLeaf(g: GraphView, raw: string, depth: nat, path: set<string>)
    requires Closed(g) && raw in g && path <= g.Keys && raw !in path
    requires g[raw].requiredMods == {}
    ensures RenderMod(g, raw, depth, path) == Some([LineFor(depth, g[raw].id)])
  {
    assert SortedKeys(g[raw].requiredMods) == [];
    assert RenderChildren(g, [], depth + 2, path + {raw}) == Some([]);
    assert [LineFor(depth, g[raw].id)] + [] == [LineFor(depth, g[raw].id)];
  }

  /** A rank that strictly decreases along every required-by edge: the graph has no cycle. */
  ghost predicate Ranked(g: GraphView, rank: map<string, nat>)
  {
    && (forall k :: k in g ==> k in rank)
    && (forall a, b :: a in g && b in g[a].requiredMods && a in rank && b in rank ==> rank[b] < rank[a])
  }

  /** Without a required-by cycle printMod returns: every node on the path outranks the current one. */
  lemma {:induction false} RankedRenders(g: GraphView, rank: map<string, nat>, raw: string, depth: nat, path: set<string>)
    requires Closed(g) && raw in g && path <= g.Keys && raw !in path
    requires Ranked(g, rank) && forall p :: p in path ==> rank[p] > rank[raw]
    ensures RenderMod(g, raw, depth, path).Some?
    decreases |g.Keys - path|, 1, 0
  {
    StepCardinality(g.Keys, path, raw);
    RankedChildren(g, rank, SortedKeys(g[raw].requiredMods), depth + 2, path + {raw}, rank[raw]);
  }

  lemma {:induction false} RankedChildren(g: GraphView, rank: map<string, nat>, kids: seq<string>, depth: nat,
                                          path: set<string>, bound: nat)
    requires Closed(g) && path <= g.Keys && forall c :: c in kids ==> c in g
    requires Ranked(g, rank)
    requires forall c :: c in kids ==> rank[c] < bound
    requires forall p :: p in path ==> rank[p] >= bound
    ensures RenderChildren(g, kids, depth, path).Some?
    decreases |g.Keys - path| + 1, 0, |kids|
  {
    if |kids| > 0 {
      RankedRenders(g, rank, kids[0], depth, path);
      RankedChildren(g, rank, kids[1..], depth, path, bound);
    }
  }

  /** A required-by walk: each node is in the RequiredModMap of the one before. */
  ghost predicate IsWalk(g: GraphView, w: seq<string>)
  {
    && |w| >= 1
    && (forall i :: 0 <= i < |w| ==> w[i] in g)
    && (forall i :: 0 <= i < |w| - 1 ==> w[i + 1] in g[w[i]].requiredMods)
  }

  /** One child that never returns makes the whole loop over the children never return. */
  lemma {:induction false} ChildrenDiverge(g: GraphView, kids: seq<string>, depth: nat, path: set<string>, j: nat)
    requires Closed(g) && path <= g.Keys && forall c :: c in kids ==> c in g
    requires j < |kids| && (kids[j] in path || RenderMod(g, kids[j], depth, path).None?)
    ensures RenderChildren(g, kids, depth, path).None?
    decreases j
  {
    if j > 0 && kids[0] !in path && RenderMod(g, kids[0], depth, path).Some? {
      assert kids[1..][j - 1] == kids[j];
      ChildrenDiverge(g, kids[1..], depth, path, j - 1);
    }
    ChildrenStop(g, kids, depth, path);
  }

  /** The loop over the children stops as soon as one child's tree diverges. */
  lemma ChildrenStop(g: GraphView, kids: seq<string>, depth: nat, path: set<string>)
    requires Closed(g) && path <= g.Keys && forall c :: c in kids ==> c in g
    requires |kids| > 0
    requires kids[0] in path || RenderMod(g, kids[0], depth, path).None? || RenderChildren(g, kids[1..], depth, path).None?
    ensures RenderChildren(g, kids, depth, path).None?
  {
  }

  /**
   * If a required-by walk from the node comes back to a node that is still
   * being printed (on the path or earlier on the walk), printMod never returns.
   */
  lemma {:induction false} WalkBackDiverges(g: GraphView, w: seq<string>, depth: nat, path: set<string>)
    requires Closed(g) && path <= g.Keys && IsWalk(g, w) && |w| >= 2 && w[0] !in path
    requires w[|w| - 1] in path || w[|w| - 1] in w[..|w| - 1]
    ensures RenderMod(g, w[0], depth, path).None?
    decreases |w|
  {
    var path' := path + {w[0]};
    var kids := SortedKeys(g[w[0]].requiredMods);
    assert w[1] in g[w[0]].requiredMods;
    var j :| 0 <= j < |kids| && kids[j] == w[1];
    assert |w| == 2 ==> w[..|w| - 1] == [w[0]];
    if w[1] !in path' {
      var w' := w[1..];
      assert w'[|w'| - 1] in path' || w'[|w'| - 1] in w'[..|w'| - 1] by {
        var last := w[|w| - 1];
        if last !in path && last != w[0] {
          var i :| 0 <= i < |w| - 1 && w[i] == last;
          assert i > 0;
          assert w'[i - 1] == last;
        }
      }
      WalkBackDiverges(g, w', depth + 2, path');
    }
    ChildrenDiverge(g, kids, depth + 2, path', j);
  }

  /** A required-by cycle reachable from a match: printMod on it never returns. */
  lemma CycleDiverges(g: GraphView, w: seq<string>)
    requires Closed(g) && IsWalk(g, w) && |w| >= 2 && w[|w| - 1] in w[..|w| - 1]
    ensures RenderMod(g, w[0], 0, {}).None?
  {
    WalkBackDiverges(g, w, 0, {});
  }

  /** A bad graph file aborts the run before any output, with the error of its first bad line. */
  lemma QueryBadGraph(lines: seq<string>, searchMod: string)
    requires exists i :: 0 <= i < |lines| && !LineValid(lines[i])
    ensures Query(lines, searchMod).Failure?
    ensures exists i ::
              && 0 <= i < |lines| && !LineValid(lines[i])
              && (forall j :: 0 <= j < i ==> LineValid(lines[j]))
              && Query(lines, searchMod).error == LineError(lines[i])
  {
    BuildFromOutcome(map[], lines);
  }

  /** A search token with two or more '@' aborts the run (once the graph file is valid). */
  lemma QueryBadSearch(lines: seq<string>, searchMod: string)
    requires Build(lines).Success? && Count(searchMod, '@') >= 2
    ensures Query(lines, searchMod) == Failure(ModRawError(searchMod))
  {
  }

  /** No match is not an error: the run succeeds and prints nothing. */
  lemma QueryNoMatch(lines: seq<string>, searchMod: string)
    requires Build(lines).Success? && ParseModRaw(searchMod).Success?
    requires forall k :: k in Build(lines).value ==> !Selected(Build(lines).value[k].id, ParseModRaw(searchMod).value)
    ensures Query(lines, searchMod) == Success([])
  {
    var g := Build(lines).value;
    assert Matches(g, ParseModRaw(searchMod).value) == {};
    assert SortedKeys(Matches(g, ParseModRaw(searchMod).value)) == [];
  }
}
