/**
 * The dependency graph as a value: what the registry `modMap` holds once the
 * edge lines of main.go have been processed. Each raw token maps to a node
 * holding its parsed identity and the raw tokens of its two adjacency maps
 * (RequireModMap and RequiredModMap); the Mod pointers those maps hold are
 * always the registry's own entry for the key (see Registry.Graph.Valid), so
 * the keys say everything.
 */
module DepGraph {
  import opened Wrappers
  import opened ModKey

  datatype Node = Node(id: ModId, requireMods: set<string>, requiredMods: set<string>)

  type GraphView = map<string, Node>

  /**
   * Every key is a token that parses to its node's identity, every adjacency
   * key is registered, and the forward and backward maps mirror each other.
   */
  ghost predicate Wellformed(g: GraphView)
  {
    IdsParsed(g) && Mirrored(g)
  }

  /** Every node's identity is the parse of its raw token. */
  ghost predicate IdsParsed(g: GraphView)
  {
    forall k :: k in g ==> ParseModRaw(k) == Success(g[k].id)
  }

  /** Adjacency keys are registered and the forward and backward maps mirror each other. */
  ghost predicate Mirrored(g: GraphView)
  {
    && (forall a, b :: a in g && b in g[a].requireMods ==> b in g && a in g[b].requiredMods)
    && (forall a, b :: a in g && b in g[a].requiredMods ==> b in g && a in g[b].requireMods)
  }

  /** The set of requires edges (A, B): A requires B. */
  ghost function Edges(g: GraphView): set<(string, string)>
  {
    set a, b | a in g && b in g[a].requireMods :: (a, b)
  }

  /** A well-formed graph is symmetric: B is in A's forward map exactly when A is in B's backward map. */
  lemma Symmetric(g: GraphView, a: string, b: string)
    requires Wellformed(g) && a in g && b in g
    ensures b in g[a].requireMods <==> a in g[b].requiredMods
  {
  }

  /** getMod: the registered node, or a fresh node with empty maps built from the parsed token. */
  function Register(g: GraphView, raw: string): (r: Result<GraphView, Fatal>)
    ensures r.Success? <==> raw in g || ParseModRaw(raw).Success?
    ensures r.Failure? ==> r.error == ModRawError(raw)
    ensures r.Success? ==> r.value.Keys == g.Keys + {raw}
    ensures r.Success? ==> forall k :: k in g ==> k in r.value && r.value[k] == g[k]
    ensures r.Success? && raw !in g ==> r.value[raw] == Node(ParseModRaw(raw).value, {}, {})
  {
    if raw in g then Success(g)
    else
      match ParseModRaw(raw)
      case Success(id) => Success(g[raw := Node(id, {}, {})])
      case Failure(e) => Failure(e)
  }

  /** strings.Split(line, " ") must give exactly two fields: the module and what it requires. */
  function SplitLine(line: string): (r: Result<(string, string), Fatal>)
    ensures r.Success? <==> Count(line, ' ') == 1
    ensures r.Failure? ==> r.error == SplitLineError(line)
    ensures r.Success? ==> line == r.value.0 + " " + r.value.1
    ensures r.Success? ==> ' ' !in r.value.0 && ' ' !in r.value.1
  {
    var fields := Split(line, ' ');
    if |fields| != 2 then Failure(SplitLineError(line))
    else
      JoinSplit(line, ' ');
      assert Join(fields, ' ') == fields[0] + " " + fields[1];
      Success((fields[0], fields[1]))
  }

  /** The two map insertions of one edge line: B into A's forward map, A into B's backward map. */
  function Link(g: GraphView, a: string, b: string): (r: GraphView)
    requires a in g && b in g
    ensures r.Keys == g.Keys
    ensures b in r[a].requireMods && a in r[b].requiredMods
  {
    var g1 := g[a := g[a].(requireMods := g[a].requireMods + {b})];
    g1[b := g1[b].(requiredMods := g1[b].requiredMods + {a})]
  }

  /** Linking keeps every identity and adds exactly B to A's forward keys and A to B's backward keys. */
  lemma LinkSpec(g: GraphView, a: string, b: string)
    requires a in g && b in g
    ensures forall k :: k in g ==> Link(g, a, b)[k].id == g[k].id
    ensures forall k, x :: k in g ==> (x in Link(g, a, b)[k].requireMods <==> x in g[k].requireMods || (k, x) == (a, b))
    ensures forall k, x :: k in g ==> (x in Link(g, a, b)[k].requiredMods <==> x in g[k].requiredMods || (k, x) == (b, a))
  {
  }

  /** B added to a node's forward keys. */
  function AddRequire(n: Node, b: string): Node
  {
    n.(requireMods := n.requireMods + {b})
  }

  /** A added to a node's backward keys. */
  function AddRequired(n: Node, a: string): Node
  {
    n.(requiredMods := n.requiredMods + {a})
  }

  /** The node at key K after linking A to B: A's forward keys gain B, then B's backward keys gain A. */
  lemma LinkAt(g: GraphView, a: string, b: string, k: string)
    requires a in g && b in g && k in g
    ensures Link(g, a, b)[k] == (var n := if k == a then AddRequire(g[k], b) else g[k];
                                 if k == b then AddRequired(n, a) else n)
  {
  }

  /** A new node with parsed identity and no edges keeps the graph well formed. */
  lemma InsertWellformed(g: GraphView, raw: string, id: ModId)
    requires Wellformed(g) && raw !in g && ParseModRaw(raw) == Success(id)
    ensures Wellformed(g[raw := Node(id, {}, {})])
  {
    InsertIdsParsed(g, raw, id);
    InsertMirrored(g, raw, id);
  }

  lemma InsertIdsParsed(g: GraphView, raw: string, id: ModId)
    requires IdsParsed(g) && ParseModRaw(raw) == Success(id)
    ensures IdsParsed(g[raw := Node(id, {}, {})])
  {
    var r := g[raw := Node(id, {}, {})];
    forall k | k in r ensures ParseModRaw(k) == Success(r[k].id) {
      if k != raw { assert r[k] == g[k]; }
    }
  }

  lemma InsertMirrored(g: GraphView, raw: string, id: ModId)
    requires Mirrored(g) && raw !in g
    ensures Mirrored(g[raw := Node(id, {}, {})])
  {
    var r := g[raw := Node(id, {}, {})];
    forall a, b | a in r && b in r[a].requireMods ensures b in r && a in r[b].requiredMods {
      assert a in g && r[a] == g[a];
      assert b in g && r[b] == g[b];
    }
    forall a, b | a in r && b in r[a].requiredMods ensures b in r && a in r[b].requireMods {
      assert a in g && r[a] == g[a];
      assert b in g && r[b] == g[b];
    }
  }

  lemma RegisterWellformed(g: GraphView, raw: string)
    requires Wellformed(g) && Register(g, raw).Success?
    ensures Wellformed(Register(g, raw).value)
  {
    if raw !in g {
      InsertWellformed(g, raw, ParseModRaw(raw).value);
    }
  }

  /** Linking keeps the forward and backward maps mirrored. */
  lemma LinkWellformed(g: GraphView, a: string, b: string)
    requires Wellformed(g) && a in g && b in g
    ensures Wellformed(Link(g, a, b))
  {
    var r := Link(g, a, b);
    LinkSpec(g, a, b);
    forall k | k in r ensures ParseModRaw(k) == Success(r[k].id) {
      assert r[k].id == g[k].id;
    }
    forall x, y | x in r && y in r[x].requireMods ensures y in r && x in r[y].requiredMods {
      if (x, y) != (a, b) {
        assert y in g[x].requireMods;
        assert x in g[y].requiredMods;
      }
    }
    forall x, y | x in r && y in r[x].requiredMods ensures y in r && x in r[y].requireMods {
      if (x, y) != (b, a) {
        assert y in g[x].requiredMods;
        assert x in g[y].requireMods;
      }
    }
  }

  /** Linking adds exactly the one edge. */
  lemma LinkEdges(g: GraphView, a: string, b: string)
    requires a in g && b in g
    ensures Edges(Link(g, a, b)) == Edges(g) + {(a, b)}
  {
    var r := Link(g, a, b);
    LinkSpec(g, a, b);
    forall e | e in Edges(r) ensures e in Edges(g) + {(a, b)} {
      var (x, y) := e;
      assert x in r && y in r[x].requireMods;
    }
    forall e | e in Edges(g) + {(a, b)} ensures e in Edges(r) {
      var (x, y) := e;
      if e != (a, b) {
        assert x in g && y in g[x].requireMods;
        assert y in r[x].requireMods;
      }
    }
  }

  /** One iteration of the line loop: split, getMod for both tokens (left first), then link. */
  function AddLine(g: GraphView, line: string): (r: Result<GraphView, Fatal>)
    ensures r.Success? ==> g.Keys <= r.value.Keys
    ensures r.Failure? ==> r.error == SplitLineError(line) || r.error.ModRawError?
  {
    match SplitLine(line)
    case Failure(e) => Failure(e)
    case Success((a, b)) => AddEdge(g, a, b)
  }

  /** The body of the line loop once the line is split: getMod(A), getMod(B), then the edge. */
  function AddEdge(g: GraphView, a: string, b: string): (r: Result<GraphView, Fatal>)
    ensures r.Success? ==> r.value.Keys == g.Keys + {a, b}
    ensures r.Success? ==> b in r.value[a].requireMods && a in r.value[b].requiredMods
    ensures r.Failure? ==> r.error == ModRawError(a) || r.error == ModRawError(b)
  {
    match RegisterBoth(g, a, b)
    case Failure(e) => Failure(e)
    case Success(g2) => Success(Link(g2, a, b))
  }

  /** getMod(A), then getMod(B). */
  function RegisterBoth(g: GraphView, a: string, b: string): (r: Result<GraphView, Fatal>)
    ensures r.Success? ==> a in r.value && b in r.value
  {
    match Register(g, a)
    case Failure(e) => Failure(e)
    case Success(g1) => Register(g1, b)
  }

  /** The whole line loop from a given registry; the first fatal line stops it. */
  function BuildFrom(g: GraphView, lines: seq<string>): (r: Result<GraphView, Fatal>)
    ensures r.Success? ==> g.Keys <= r.value.Keys
    ensures r.Failure? ==> r.error.SplitLineError? || r.error.ModRawError?
    decreases |lines|
  {
    if |lines| == 0 then Success(g)
    else
      match AddLine(g, lines[0])
      case Failure(e) => Failure(e)
      case Success(g1) => BuildFrom(g1, lines[1..])
  }

  /** The graph main.go builds from the lines of the graph file, starting from an empty registry. */
  function Build(lines: seq<string>): Result<GraphView, Fatal>
  {
    BuildFrom(map[], lines)
  }

  /** A line the loop accepts: two fields, each a token with at most one '@'. */
  predicate LineValid(line: string)
  {
    SplitLine(line).Success?
    && ParseModRaw(SplitLine(line).value.0).Success?
    && ParseModRaw(SplitLine(line).value.1).Success?
  }

  /** The edge a line denotes once split into its two fields. */
  function LineEdge(line: string): (string, string)
    requires SplitLine(line).Success?
  {
    SplitLine(line).value
  }

  ghost function LineEdges(lines: seq<string>): set<(string, string)>
  {
    set i | 0 <= i < |lines| && SplitLine(lines[i]).Success? :: LineEdge(lines[i])
  }

  ghost function LineTokens(lines: seq<string>): set<string>
  {
    (set i | 0 <= i < |lines| && SplitLine(lines[i]).Success? :: LineEdge(lines[i]).0)
    + (set i | 0 <= i < |lines| && SplitLine(lines[i]).Success? :: LineEdge(lines[i]).1)
  }

  /** The fatal error an invalid line stops the loop with. */
  function LineError(line: string): Fatal
    requires !LineValid(line)
  {
    if SplitLine(line).Failure? then SplitLineError(line)
    else if ParseModRaw(SplitLine(line).value.0).Failure? then ModRawError(SplitLine(line).value.0)
    else ModRawError(SplitLine(line).value.1)
  }

  /** One line succeeds exactly when it is valid; otherwise the first bad part is reported. */
  lemma AddLineOutcome(g: GraphView, line: string)
    requires IdsParsed(g)
    ensures AddLine(g, line).Success? <==> LineValid(line)
    ensures AddLine(g, line).Failure? ==> AddLine(g, line).error == LineError(line)
  {
    if SplitLine(line).Success? {
      var (a, b) := SplitLine(line).value;
      var r1 := Register(g, a);
      if r1.Success? {
        if a in g { assert ParseModRaw(a).Success?; }
        var r2 := Register(r1.value, b);
        if b in r1.value {
          if b in g { assert ParseModRaw(b).Success?; }
        }
      }
    }
  }

  /** A successful line registers only tokens that parse to their nodes' identities. */
  lemma AddLineIdsParsed(g: GraphView, line: string)
    requires IdsParsed(g) && AddLine(g, line).Success?
    ensures IdsParsed(AddLine(g, line).value)
  {
    var (a, b) := SplitLine(line).value;
    var g1 := Register(g, a).value;
    var g2 := Register(g1, b).value;
    assert AddLine(g, line) == Success(Link(g2, a, b));
    RegisterIdsParsed(g, a);
    RegisterIdsParsed(g1, b);
    LinkIdsParsed(g2, a, b);
  }

  lemma RegisterIdsParsed(g: GraphView, raw: string)
    requires IdsParsed(g) && Register(g, raw).Success?
    ensures IdsParsed(Register(g, raw).value)
  {
    if raw !in g {
      InsertIdsParsed(g, raw, ParseModRaw(raw).value);
    }
  }

  lemma LinkIdsParsed(g: GraphView, a: string, b: string)
    requires IdsParsed(g) && a in g && b in g
    ensures IdsParsed(Link(g, a, b))
  {
    var r := Link(g, a, b);
    LinkSpec(g, a, b);
    forall k | k in r ensures ParseModRaw(k) == Success(r[k].id) {
      assert r[k].id == g[k].id;
    }
  }

  /** A successful line keeps the graph well formed. */
  lemma AddLineWellformed(g: GraphView, line: string)
    requires Wellformed(g) && AddLine(g, line).Success?
    ensures Wellformed(AddLine(g, line).value)
  {
    var (a, b) := SplitLine(line).value;
    var g1 := Register(g, a).value;
    var g2 := Register(g1, b).value;
    assert AddLine(g, line) == Success(Link(g2, a, b));
    RegisterWellformed(g, a);
    RegisterWellformed(g1, b);
    LinkWellformed(g2, a, b);
  }

  /** A successful line adds its two tokens and its one edge, and keeps every identity. */
  lemma AddLineEffect(g: GraphView, line: string)
    requires AddLine(g, line).Success?
    ensures SplitLine(line).Success?
    ensures AddLine(g, line).value.Keys == g.Keys + {LineEdge(line).0, LineEdge(line).1}
    ensures Edges(AddLine(g, line).value) == Edges(g) + {LineEdge(line)}
    ensures forall k :: k in g ==> AddLine(g, line).value[k].id == g[k].id
  {
    var (a, b) := SplitLine(line).value;
    var g1 := Register(g, a).value;
    var g2 := Register(g1, b).value;
    assert AddLine(g, line) == Success(Link(g2, a, b));
    LinkEdges(g2, a, b);
    RegisterEdges(g, a);
    RegisterEdges(g1, b);
  }

  /** Processing a line a second time changes nothing. */
  lemma AddLineIdempotent(g: GraphView, line: string)
    requires AddLine(g, line).Success?
    ensures AddLine(AddLine(g, line).value, line) == AddLine(g, line)
  {
    var g' := AddLine(g, line).value;
    var (a, b) := SplitLine(line).value;
    assert Register(g', a) == Success(g');
    assert Register(g', b) == Success(g');
    LinkPresent(g', a, b);
  }

  /** Linking an edge that is already mirrored in both maps changes nothing. */
  lemma LinkPresent(g: GraphView, a: string, b: string)
    requires a in g && b in g && b in g[a].requireMods && a in g[b].requiredMods
    ensures Link(g, a, b) == g
  {
    var g1 := g[a := g[a].(requireMods := g[a].requireMods + {b})];
    assert g[a].requireMods + {b} == g[a].requireMods;
    assert g1 == g;
    assert g[b].requiredMods + {a} == g[b].requiredMods;
  }

  /** getMod adds no edge. */
  lemma RegisterEdges(g: GraphView, raw: string)
    requires Register(g, raw).Success?
    ensures Edges(Register(g, raw).value) == Edges(g)
  {
    var r := Register(g, raw).value;
    forall e | e in Edges(r) ensures e in Edges(g) {
      var (x, y) := e;
      assert x in r && y in r[x].requireMods;
      assert x in g;
    }
    forall e | e in Edges(g) ensures e in Edges(r) {
      var (x, y) := e;
      assert x in g && y in g[x].requireMods;
      assert r[x] == g[x];
    }
  }



  /** The index of the first invalid line, or the number of lines when all are valid. */
  function FirstInvalid(lines: seq<string>): (i: nat)
    ensures i <= |lines|
    ensures forall j :: 0 <= j < i ==> LineValid(lines[j])
    ensures i < |lines| ==> !LineValid(lines[i])
  {
    if |lines| == 0 || !LineValid(lines[0]) then 0
    else
      var i := 1 + FirstInvalid(lines[1..]);
      assert forall j :: 1 <= j < i ==> lines[j] == lines[1..][j - 1];
      i
  }

  /**
   * The loop succeeds exactly when every line is valid; otherwise it stops
   * with the error of the first invalid line.
   */
  lemma {:induction false} BuildFromFirstInvalid(g: GraphView, lines: seq<string>)
    requires IdsParsed(g)
    ensures BuildFrom(g, lines).Success? <==> FirstInvalid(lines) == |lines|
    ensures BuildFrom(g, lines).Failure? ==> BuildFrom(g, lines).error == LineError(lines[FirstInvalid(lines)])
    decreases |lines|
  {
    if |lines| > 0 {
      AddLineOutcome(g, lines[0]);
      if AddLine(g, lines[0]).Success? {
        AddLineIdsParsed(g, lines[0]);
        BuildFromFirstInvalid(AddLine(g, lines[0]).value, lines[1..]);
        assert FirstInvalid(lines) == 1 + FirstInvalid(lines[1..]);
        assert BuildFrom(g, lines) == BuildFrom(AddLine(g, lines[0]).value, lines[1..]);
        if FirstInvalid(lines) < |lines| {
          assert lines[FirstInvalid(lines)] == lines[1..][FirstInvalid(lines[1..])];
        }
      }
    }
  }

  /** The same outcome stated over all lines. */
  lemma BuildFromOutcome(g: GraphView, lines: seq<string>)
    requires IdsParsed(g)
    ensures BuildFrom(g, lines).Success? <==> forall i :: 0 <= i < |lines| ==> LineValid(lines[i])
    ensures BuildFrom(g, lines).Failure? ==>
      exists i :: 0 <= i < |lines| && !LineValid(lines[i]) && (forall j :: 0 <= j < i ==> LineValid(lines[j]))
        && BuildFrom(g, lines).error == LineError(lines[i])
  {
    BuildFromFirstInvalid(g, lines);
  }

  /** A successful loop keeps the graph well formed. */
  lemma {:induction false} BuildFromWellformed(g: GraphView, lines: seq<string>)
    requires Wellformed(g) && BuildFrom(g, lines).Success?
    ensures Wellformed(BuildFrom(g, lines).value)
    decreases |lines|
  {
    if |lines| > 0 {
      AddLineWellformed(g, lines[0]);
      BuildFromWellformed(AddLine(g, lines[0]).value, lines[1..]);
    }
  }

  /** A successful loop adds exactly the tokens of its lines. */
  lemma {:induction false} BuildFromKeys(g: GraphView, lines: seq<string>)
    requires BuildFrom(g, lines).Success?
    ensures BuildFrom(g, lines).value.Keys == g.Keys + LineTokens(lines)
    decreases |lines|
  {
    if |lines| > 0 {
      AddLineEffect(g, lines[0]);
      var g1 := AddLine(g, lines[0]).value;
      assert BuildFrom(g, lines) == BuildFrom(g1, lines[1..]);
      BuildFromKeys(g1, lines[1..]);
      TokensCons(lines);
    } else {
      assert LineTokens(lines) == {};
    }
  }

  /** A successful loop adds exactly the edges of its lines. */
  lemma {:induction false} BuildFromEdges(g: GraphView, lines: seq<string>)
    requires BuildFrom(g, lines).Success?
    ensures Edges(BuildFrom(g, lines).value) == Edges(g) + LineEdges(lines)
    decreases |lines|
  {
    if |lines| > 0 {
      AddLineEffect(g, lines[0]);
      var g1 := AddLine(g, lines[0]).value;
      assert BuildFrom(g, lines) == BuildFrom(g1, lines[1..]);
      BuildFromEdges(g1, lines[1..]);
      EdgesCons(lines);
    } else {
      assert LineEdges(lines) == {};
    }
  }

  lemma TokensCons(lines: seq<string>)
    requires |lines| > 0 && SplitLine(lines[0]).Success?
    ensures LineTokens(lines) == {LineEdge(lines[0]).0, LineEdge(lines[0]).1} + LineTokens(lines[1..])
  {
    forall t | t in LineTokens(lines)
      ensures t in {LineEdge(lines[0]).0, LineEdge(lines[0]).1} + LineTokens(lines[1..])
    {
      var i :| 0 <= i < |lines| && SplitLine(lines[i]).Success? && (t == LineEdge(lines[i]).0 || t == LineEdge(lines[i]).1);
      if i > 0 { assert lines[i] == lines[1..][i - 1]; }
    }
    forall t | t in LineTokens(lines[1..]) ensures t in LineTokens(lines) {
      var i :| 0 <= i < |lines[1..]| && SplitLine(lines[1..][i]).Success?
        && (t == LineEdge(lines[1..][i]).0 || t == LineEdge(lines[1..][i]).1);
      assert lines[1..][i] == lines[i + 1];
    }
  }

  lemma EdgesCons(lines: seq<string>)
    requires |lines| > 0 && SplitLine(lines[0]).Success?
    ensures LineEdges(lines) == {LineEdge(lines[0])} + LineEdges(lines[1..])
  {
    forall e | e in LineEdges(lines) ensures e in {LineEdge(lines[0])} + LineEdges(lines[1..]) {
      var i :| 0 <= i < |lines| && SplitLine(lines[i]).Success? && e == LineEdge(lines[i]);
      if i > 0 { assert lines[i] == lines[1..][i - 1]; }
    }
    forall e | e in LineEdges(lines[1..]) ensures e in LineEdges(lines) {
      var i :| 0 <= i < |lines[1..]| && SplitLine(lines[1..][i]).Success? && e == LineEdge(lines[1..][i]);
      assert lines[1..][i] == lines[i + 1];
    }
  }

  /**
   * The graph of a graph file: its nodes are exactly the tokens of its lines,
   * its edges exactly the pairs of its lines, and it is well formed, so the
   * forward and backward maps mirror each other.
   */
  lemma BuildSpec(lines: seq<string>)
    requires Build(lines).Success?
    ensures Wellformed(Build(lines).value)
    ensures Build(lines).value.Keys == LineTokens(lines)
    ensures Edges(Build(lines).value) == LineEdges(lines)
  {
    assert Edges(map[]) == {};
    BuildFromWellformed(map[], lines);
    BuildFromKeys(map[], lines);
    BuildFromEdges(map[], lines);
  }

  /** Running the loop over two line lists one after the other. */
  lemma {:induction false} BuildFromAppend(g: GraphView, xs: seq<string>, ys: seq<string>)
    ensures BuildFrom(g, xs + ys) ==
      match BuildFrom(g, xs)
      case Failure(e) => Failure(e)
      case Success(g1) => BuildFrom(g1, ys)
    decreases |xs|
  {
    if |xs| > 0 {
      assert (xs + ys)[0] == xs[0] && (xs + ys)[1..] == xs[1..] + ys;
      if AddLine(g, xs[0]).Success? {
        BuildFromAppend(AddLine(g, xs[0]).value, xs[1..], ys);
      }
    } else {
      assert xs + ys == ys;
    }
  }

  /** A line whose edge is already present changes nothing. */
  lemma AddLinePresent(g: GraphView, line: string)
    requires Mirrored(g) && SplitLine(line).Success? && LineEdge(line) in Edges(g)
    ensures AddLine(g, line) == Success(g)
  {
    var (a, b) := LineEdge(line);
    assert a in g && b in g[a].requireMods;
    assert Register(g, a) == Success(g) && Register(g, b) == Success(g);
    LinkPresent(g, a, b);
  }

  /** Replaying lines whose edges are all present changes nothing. */
  lemma {:induction false} ReplayPresent(g: GraphView, lines: seq<string>)
    requires Mirrored(g)
    requires forall i :: 0 <= i < |lines| ==> SplitLine(lines[i]).Success? && LineEdge(lines[i]) in Edges(g)
    ensures BuildFrom(g, lines) == Success(g)
    decreases |lines|
  {
    if |lines| > 0 {
      AddLinePresent(g, lines[0]);
      ReplayPresent(g, lines[1..]);
    }
  }

  /**
   * Duplicate edges are idempotent: appending lines that already occur in the
   * file yields the same graph, or the same fatal error.
   */
  lemma BuildIgnoresRepeats(lines: seq<string>, more: seq<string>)
    requires forall i :: 0 <= i < |more| ==> more[i] in lines
    ensures Build(lines + more) == Build(lines)
  {
    BuildFromAppend(map[], lines, more);
    if Build(lines).Success? {
      var g := Build(lines).value;
      BuildSpec(lines);
      BuildFromOutcome(map[], lines);
      forall i | 0 <= i < |more| ensures SplitLine(more[i]).Success? && LineEdge(more[i]) in Edges(g) {
        var j :| 0 <= j < |lines| && lines[j] == more[i];
        assert LineValid(lines[j]);
      }
      ReplayPresent(g, more);
    }
  }

  /** In particular a file listed twice gives the graph of the file listed once. */
  lemma BuildTwice(lines: seq<string>)
    ensures Build(lines + lines) == Build(lines)
  {
    BuildIgnoresRepeats(lines, lines);
  }
}
