/**
 * What printMod prints, stated over required-by walks: printMod(mod, depth)
 * writes one line for every required-by walk from mod that repeats no node,
 * each walk exactly once, the last node of a walk of n nodes indented by
 * depth + 2(n - 1); and it returns at all exactly when no required-by walk
 * from mod comes back to a node it has already passed.
 *
 * WalksFrom lists those walks in the order printMod visits them (children in
 * increasing raw-token order); the lemmas below show that the list holds every
 * such walk once and nothing else, and that printMod's output is the list's
 * lines.
 */
module Walks {
  import opened Wrappers
  import opened ModKey
  import opened StringOrder
  import opened DepGraph
  import opened Render

  /** A required-by walk from RAW that repeats no node and avoids every node of PATH. */
  ghost predicate SimpleWalk(g: GraphView, w: seq<string>, raw: string, path: set<string>)
  {
    && IsWalk(g, w)
    && w[0] == raw
    && (forall i :: 0 <= i < |w| ==> w[i] !in path)
    && (forall i, j :: 0 <= i < j < |w| ==> w[i] != w[j])
  }

  /** LINE is the line printed for some simple walk from RAW that avoids PATH. */
  ghost predicate LineOfSimpleWalk(g: GraphView, depth: nat, raw: string, path: set<string>, line: string)
  {
    exists w :: SimpleWalk(g, w, raw, path) && line == WalkLine(g, depth, w)
  }

  /** A required-by walk of two or more nodes whose last node is on PATH or earlier on the walk. */
  ghost predicate WalksBack(g: GraphView, w: seq<string>, path: set<string>)
  {
    IsWalk(g, w) && |w| >= 2 && (w[|w| - 1] in path || w[|w| - 1] in w[..|w| - 1])
  }

  /** The line printMod writes for the last node of a walk whose first node it prints at DEPTH. */
  function WalkLine(g: GraphView, depth: nat, w: seq<string>): string
    requires |w| >= 1 && w[|w| - 1] in g
  {
    LineFor(depth + 2 * (|w| - 1), g[w[|w| - 1]].id)
  }

  /** The lines T are the lines of the walks WS, one for one and in order. */
  ghost predicate PrintsWalks(g: GraphView, depth: nat, ws: seq<seq<string>>, t: seq<string>)
  {
    && |t| == |ws|
    && forall i :: 0 <= i < |ws| ==> |ws[i]| >= 1 && ws[i][|ws[i]| - 1] in g && t[i] == WalkLine(g, depth, ws[i])
  }

  /** No walk is listed twice. */
  ghost predicate NoRepeats(ws: seq<seq<string>>)
  {
    forall i, j :: 0 <= i < j < |ws| ==> ws[i] != ws[j]
  }

  /** No token is listed twice. */
  predicate Distinct(ks: seq<string>)
  {
    forall i, j :: 0 <= i < j < |ks| ==> ks[i] != ks[j]
  }

  /** [x] + w for every walk w of WS, in order. */
  function Prepend(x: string, ws: seq<seq<string>>): (r: seq<seq<string>>)
    ensures |r| == |ws| && forall i :: 0 <= i < |ws| ==> r[i] == [x] + ws[i]
  {
    seq(|ws|, i requires 0 <= i < |ws| => [x] + ws[i])
  }

  /** The walks from RAW that repeat no node and avoid PATH, in the order printMod visits them. */
  ghost function WalksFrom(g: GraphView, raw: string, path: set<string>): seq<seq<string>>
    requires Closed(g) && raw in g && path <= g.Keys && raw !in path
    decreases |g.Keys - path|, 1, 0
  {
    StepCardinality(g.Keys, path, raw);
    [[raw]] + Prepend(raw, ChildWalks(g, SortedKeys(g[raw].requiredMods), path + {raw}))
  }

  /** The walks from each of KIDS in turn, skipping the children on PATH. */
  ghost function ChildWalks(g: GraphView, kids: seq<string>, path: set<string>): seq<seq<string>>
    requires Closed(g) && path <= g.Keys && forall c :: c in kids ==> c in g
    decreases |g.Keys - path| + 1, 0, |kids|
  {
    if |kids| == 0 then []
    else if kids[0] in path then ChildWalks(g, kids[1..], path)
    else WalksFrom(g, kids[0], path) + ChildWalks(g, kids[1..], path)
  }

  // ---------------------------------------------------------------------------
  // printMod's output is the lines of WalksFrom
  // ---------------------------------------------------------------------------

  /** A walk one node longer ends on the same node, one level deeper. */
  lemma WalkLineCons(g: GraphView, depth: nat, raw: string, w: seq<string>)
    requires |w| >= 1 && w[|w| - 1] in g
    ensures ([raw] + w)[|w|] == w[|w| - 1]
    ensures WalkLine(g, depth, [raw] + w) == WalkLine(g, depth + 2, w)
  {
    assert ([raw] + w)[|w|] == w[|w| - 1];
  }

  /** The node's own line, then its children's walks one level deeper. */
  lemma PrependPrints(g: GraphView, depth: nat, raw: string, ws: seq<seq<string>>, t: seq<string>)
    requires raw in g && PrintsWalks(g, depth + 2, ws, t)
    ensures PrintsWalks(g, depth, [[raw]] + Prepend(raw, ws), [LineFor(depth, g[raw].id)] + t)
  {
    var ps := Prepend(raw, ws);
    var ws' := [[raw]] + ps;
    var t' := [LineFor(depth, g[raw].id)] + t;
    forall i | 0 <= i < |ws'|
      ensures |ws'[i]| >= 1 && ws'[i][|ws'[i]| - 1] in g && t'[i] == WalkLine(g, depth, ws'[i])
    {
      if i > 0 {
        var w := ws[i - 1];
        assert ws'[i] == ps[i - 1] == [raw] + w;
        assert t'[i] == t[i - 1];
        WalkLineCons(g, depth, raw, w);
      } else {
        assert ws'[0] == [raw] && t'[0] == LineFor(depth, g[raw].id);
      }
    }
  }

  /** Two runs of lines side by side print the two lists of walks side by side. */
  lemma ConcatPrints(g: GraphView, depth: nat, ws1: seq<seq<string>>, ws2: seq<seq<string>>,
                     t1: seq<string>, t2: seq<string>)
    requires PrintsWalks(g, depth, ws1, t1) && PrintsWalks(g, depth, ws2, t2)
    ensures PrintsWalks(g, depth, ws1 + ws2, t1 + t2)
  {
    forall i | 0 <= i < |ws1 + ws2|
      ensures |(ws1 + ws2)[i]| >= 1 && (ws1 + ws2)[i][|(ws1 + ws2)[i]| - 1] in g
      ensures (t1 + t2)[i] == WalkLine(g, depth, (ws1 + ws2)[i])
    {
      if i >= |ws1| {
        assert (ws1 + ws2)[i] == ws2[i - |ws1|] && (t1 + t2)[i] == t2[i - |t1|];
      } else {
        assert (ws1 + ws2)[i] == ws1[i] && (t1 + t2)[i] == t1[i];
      }
    }
  }

  /** printMod's lines are the lines of the walks from its node, in order. */
  lemma {:induction false} RenderPrintsWalks(g: GraphView, raw: string, depth: nat, path: set<string>)
    requires Closed(g) && raw in g && path <= g.Keys && raw !in path
    requires RenderMod(g, raw, depth, path).Some?
    ensures PrintsWalks(g, depth, WalksFrom(g, raw, path), RenderMod(g, raw, depth, path).value)
    decreases |g.Keys - path|, 1, 0
  {
    StepCardinality(g.Keys, path, raw);
    var kids := SortedKeys(g[raw].requiredMods);
    var path' := path + {raw};
    ChildrenPrintWalks(g, kids, depth + 2, path');
    PrependPrints(g, depth, raw, ChildWalks(g, kids, path'), RenderChildren(g, kids, depth + 2, path').value);
  }

  /** The loop over the children prints the lines of their walks, child after child. */
  lemma {:induction false} ChildrenPrintWalks(g: GraphView, kids: seq<string>, depth: nat, path: set<string>)
    requires Closed(g) && path <= g.Keys && forall c :: c in kids ==> c in g
    requires RenderChildren(g, kids, depth, path).Some?
    ensures PrintsWalks(g, depth, ChildWalks(g, kids, path), RenderChildren(g, kids, depth, path).value)
    decreases |g.Keys - path| + 1, 0, |kids|
  {
    if |kids| > 0 {
      RenderPrintsWalks(g, kids[0], depth, path);
      ChildrenPrintWalks(g, kids[1..], depth, path);
      ConcatPrints(g, depth, WalksFrom(g, kids[0], path), ChildWalks(g, kids[1..], path),
                   RenderMod(g, kids[0], depth, path).value, RenderChildren(g, kids[1..], depth, path).value);
    }
  }

  // ---------------------------------------------------------------------------
  // WalksFrom lists simple walks only
  // ---------------------------------------------------------------------------

  /** A node followed by a simple walk from one of its children that avoids it is a simple walk. */
  lemma ConsSimple(g: GraphView, raw: string, v: seq<string>, path: set<string>)
    requires raw in g && raw !in path
    requires |v| >= 1 && v[0] in g[raw].requiredMods && SimpleWalk(g, v, v[0], path + {raw})
    ensures SimpleWalk(g, [raw] + v, raw, path)
  {
    var w := [raw] + v;
    forall i | 0 <= i < |w| - 1 ensures w[i + 1] in g[w[i]].requiredMods {
      if i > 0 {
        assert w[i] == v[i - 1] && w[i + 1] == v[i];
      }
    }
    forall i, j | 0 <= i < j < |w| ensures w[i] != w[j] {
      assert w[j] == v[j - 1];
      if i > 0 {
        assert w[i] == v[i - 1];
      }
    }
    forall i | 0 <= i < |w| ensures w[i] !in path {
      if i > 0 {
        assert w[i] == v[i - 1];
      }
    }
  }

  /** Every listed walk from RAW is a simple walk from RAW that avoids PATH. */
  lemma {:induction false} WalksFromSimple(g: GraphView, raw: string, path: set<string>)
    requires Closed(g) && raw in g && path <= g.Keys && raw !in path
    ensures forall w :: w in WalksFrom(g, raw, path) ==> SimpleWalk(g, w, raw, path)
    decreases |g.Keys - path|, 1, 0
  {
    StepCardinality(g.Keys, path, raw);
    var kids := SortedKeys(g[raw].requiredMods);
    var path' := path + {raw};
    var cw := ChildWalks(g, kids, path');
    ChildWalksSimple(g, kids, path');
    var ws := WalksFrom(g, raw, path);
    assert ws == [[raw]] + Prepend(raw, cw);
    forall i | 0 <= i < |ws| ensures SimpleWalk(g, ws[i], raw, path) {
      if i > 0 {
        assert ws[i] == [raw] + cw[i - 1] && cw[i - 1] in cw;
        ConsSimple(g, raw, cw[i - 1], path);
      } else {
        assert ws[i] == [raw];
      }
    }
  }

  /** Every listed walk of the children starts at one of them, is simple and avoids PATH. */
  lemma {:induction false} ChildWalksSimple(g: GraphView, kids: seq<string>, path: set<string>)
    requires Closed(g) && path <= g.Keys && forall c :: c in kids ==> c in g
    ensures forall w :: w in ChildWalks(g, kids, path) ==> |w| >= 1 && w[0] in kids && SimpleWalk(g, w, w[0], path)
    decreases |g.Keys - path| + 1, 0, |kids|
  {
    if |kids| > 0 {
      ChildWalksSimple(g, kids[1..], path);
      if kids[0] !in path {
        WalksFromSimple(g, kids[0], path);
      }
      forall w | w in ChildWalks(g, kids, path) ensures |w| >= 1 && w[0] in kids && SimpleWalk(g, w, w[0], path) {
        if w in ChildWalks(g, kids[1..], path) {
          assert w[0] in kids[1..];
        }
      }
    }
  }

  // ---------------------------------------------------------------------------
  // WalksFrom lists each walk once
  // ---------------------------------------------------------------------------

  /** Prefixing one node keeps walks apart. */
  lemma PrependNoRepeats(x: string, ws: seq<seq<string>>)
    requires NoRepeats(ws)
    ensures NoRepeats(Prepend(x, ws))
  {
    forall i, j | 0 <= i < j < |ws| ensures Prepend(x, ws)[i] != Prepend(x, ws)[j] {
      assert ([x] + ws[i])[1..] == ws[i] && ([x] + ws[j])[1..] == ws[j];
    }
  }

  /** Two lists without repeats and with nothing in common make a list without repeats. */
  lemma ConcatNoRepeats(ws1: seq<seq<string>>, ws2: seq<seq<string>>)
    requires NoRepeats(ws1) && NoRepeats(ws2)
    requires forall v, w :: v in ws1 && w in ws2 ==> v != w
    ensures NoRepeats(ws1 + ws2)
  {
    forall i, j | 0 <= i < j < |ws1 + ws2| ensures (ws1 + ws2)[i] != (ws1 + ws2)[j] {
      if j < |ws1| {
        assert (ws1 + ws2)[i] == ws1[i] && (ws1 + ws2)[j] == ws1[j];
      } else if i >= |ws1| {
        assert (ws1 + ws2)[i] == ws2[i - |ws1|] && (ws1 + ws2)[j] == ws2[j - |ws1|];
      } else {
        assert (ws1 + ws2)[i] in ws1 && (ws1 + ws2)[j] in ws2;
      }
    }
  }

  /** A strictly sorted sequence has no repeats. */
  lemma SortedDistinct(ks: seq<string>)
    requires StrictlySorted(ks)
    ensures Distinct(ks)
  {
    forall i, j | 0 <= i < j < |ks| ensures ks[i] != ks[j] {
      LessIrreflexive(ks[i]);
    }
  }

  /** No walk is listed twice from RAW. */
  lemma {:induction false} WalksFromNoRepeats(g: GraphView, raw: string, path: set<string>)
    requires Closed(g) && raw in g && path <= g.Keys && raw !in path
    ensures NoRepeats(WalksFrom(g, raw, path))
    decreases |g.Keys - path|, 1, 0
  {
    StepCardinality(g.Keys, path, raw);
    var kids := SortedKeys(g[raw].requiredMods);
    var path' := path + {raw};
    var cw := ChildWalks(g, kids, path');
    SortedDistinct(kids);
    ChildWalksNoRepeats(g, kids, path');
    ChildWalksSimple(g, kids, path');
    PrependNoRepeats(raw, cw);
    forall w | w in Prepend(raw, cw) ensures w != [raw] {
      var i :| 0 <= i < |cw| && Prepend(raw, cw)[i] == w;
      assert cw[i] in cw;
    }
    ConcatNoRepeats([[raw]], Prepend(raw, cw));
  }

  /** No walk is listed twice from distinct children. */
  lemma {:induction false} ChildWalksNoRepeats(g: GraphView, kids: seq<string>, path: set<string>)
    requires Closed(g) && path <= g.Keys && forall c :: c in kids ==> c in g
    requires Distinct(kids)
    ensures NoRepeats(ChildWalks(g, kids, path))
    decreases |g.Keys - path| + 1, 0, |kids|
  {
    if |kids| > 0 {
      var rest := kids[1..];
      assert Distinct(rest) by {
        forall i, j | 0 <= i < j < |rest| ensures rest[i] != rest[j] {
          assert rest[i] == kids[i + 1] && rest[j] == kids[j + 1];
        }
      }
      ChildWalksNoRepeats(g, rest, path);
      if kids[0] !in path {
        WalksFromNoRepeats(g, kids[0], path);
        WalksFromSimple(g, kids[0], path);
        ChildWalksSimple(g, rest, path);
        forall v, w | v in WalksFrom(g, kids[0], path) && w in ChildWalks(g, rest, path) ensures v != w {
          var j :| 0 <= j < |rest| && rest[j] == w[0];
          assert kids[j + 1] == w[0];
        }
        ConcatNoRepeats(WalksFrom(g, kids[0], path), ChildWalks(g, rest, path));
      }
    }
  }

  // ---------------------------------------------------------------------------
  // WalksFrom lists every simple walk
  // ---------------------------------------------------------------------------

  /** The walks of a child that is not on PATH are among its parent's children's walks. */
  lemma {:induction false} InChildWalks(g: GraphView, kids: seq<string>, path: set<string>, k: string, v: seq<string>)
    requires Closed(g) && path <= g.Keys && forall c :: c in kids ==> c in g
    requires k in kids && k !in path && v in WalksFrom(g, k, path)
    ensures v in ChildWalks(g, kids, path)
    decreases |kids|
  {
    if kids[0] != k {
      assert k in kids[1..];
      InChildWalks(g, kids[1..], path, k, v);
    }
  }

  /** Every simple walk from RAW that avoids PATH is listed. */
  lemma {:induction false} SimpleInWalksFrom(g: GraphView, w: seq<string>, raw: string, path: set<string>)
    requires Closed(g) && raw in g && path <= g.Keys && raw !in path
    requires SimpleWalk(g, w, raw, path)
    ensures w in WalksFrom(g, raw, path)
    decreases |g.Keys - path|
  {
    var ws := WalksFrom(g, raw, path);
    if |w| == 1 {
      assert w == [raw] && ws[0] == [raw];
    } else {
      StepCardinality(g.Keys, path, raw);
      var kids := SortedKeys(g[raw].requiredMods);
      var path' := path + {raw};
      var v := w[1..];
      assert SimpleWalk(g, v, w[1], path') by {
        forall i | 0 <= i < |v| - 1 ensures v[i + 1] in g[v[i]].requiredMods {
          assert v[i] == w[i + 1] && v[i + 1] == w[i + 2];
        }
        forall i | 0 <= i < |v| ensures v[i] !in path' {
          assert v[i] == w[i + 1];
        }
        forall i, j | 0 <= i < j < |v| ensures v[i] != v[j] {
          assert v[i] == w[i + 1] && v[j] == w[j + 1];
        }
      }
      SimpleInWalksFrom(g, v, w[1], path');
      assert w[1] in g[raw].requiredMods;
      InChildWalks(g, kids, path', w[1], v);
      var cw := ChildWalks(g, kids, path');
      var i :| 0 <= i < |cw| && cw[i] == v;
      assert ws[i + 1] == [raw] + v == w;
    }
  }

  /** Every simple walk from one of KIDS that avoids PATH is listed. */
  lemma SimpleInChildWalks(g: GraphView, kids: seq<string>, path: set<string>, w: seq<string>)
    requires Closed(g) && path <= g.Keys && forall c :: c in kids ==> c in g
    requires |w| >= 1 && w[0] in kids && SimpleWalk(g, w, w[0], path)
    ensures w in ChildWalks(g, kids, path)
  {
    SimpleInWalksFrom(g, w, w[0], path);
    InChildWalks(g, kids, path, w[0], w);
  }

  // ---------------------------------------------------------------------------
  // What printMod prints, and when it returns
  // ---------------------------------------------------------------------------

  /**
   * printMod(mod, depth) prints one line per required-by walk from mod that
   * repeats no node (and avoids the nodes still being printed), each walk
   * once and nothing else: the last node of a walk of n nodes, indented by
   * depth + 2(n - 1).
   */
  lemma RenderWalks(g: GraphView, raw: string, depth: nat, path: set<string>)
    requires Closed(g) && raw in g && path <= g.Keys && raw !in path
    requires RenderMod(g, raw, depth, path).Some?
    ensures PrintsWalks(g, depth, WalksFrom(g, raw, path), RenderMod(g, raw, depth, path).value)
    ensures forall w :: w in WalksFrom(g, raw, path) <==> SimpleWalk(g, w, raw, path)
    ensures NoRepeats(WalksFrom(g, raw, path))
  {
    RenderPrintsWalks(g, raw, depth, path);
    WalksFromSimple(g, raw, path);
    WalksFromNoRepeats(g, raw, path);
    forall w | SimpleWalk(g, w, raw, path) ensures w in WalksFrom(g, raw, path) {
      SimpleInWalksFrom(g, w, raw, path);
    }
  }

  /** The same for the loop over the children: each child's walks, each once, and nothing else. */
  lemma ChildrenWalks(g: GraphView, kids: seq<string>, depth: nat, path: set<string>)
    requires Closed(g) && path <= g.Keys && forall c :: c in kids ==> c in g
    requires Distinct(kids) && RenderChildren(g, kids, depth, path).Some?
    ensures PrintsWalks(g, depth, ChildWalks(g, kids, path), RenderChildren(g, kids, depth, path).value)
    ensures forall w :: w in ChildWalks(g, kids, path) <==> |w| >= 1 && w[0] in kids && SimpleWalk(g, w, w[0], path)
    ensures NoRepeats(ChildWalks(g, kids, path))
  {
    ChildrenPrintWalks(g, kids, depth, path);
    ChildWalksSimple(g, kids, path);
    ChildWalksNoRepeats(g, kids, path);
    forall w | |w| >= 1 && w[0] in kids && SimpleWalk(g, w, w[0], path) ensures w in ChildWalks(g, kids, path) {
      SimpleInChildWalks(g, kids, path, w);
    }
  }

  /** Each line of printMod's output is the line of a simple walk, and each simple walk's line is printed. */
  lemma RenderLines(g: GraphView, raw: string, depth: nat, path: set<string>)
    requires Closed(g) && raw in g && path <= g.Keys && raw !in path
    requires RenderMod(g, raw, depth, path).Some?
    ensures forall i :: 0 <= i < |RenderMod(g, raw, depth, path).value| ==>
              LineOfSimpleWalk(g, depth, raw, path, RenderMod(g, raw, depth, path).value[i])
    ensures forall w :: SimpleWalk(g, w, raw, path) ==> WalkLine(g, depth, w) in RenderMod(g, raw, depth, path).value
  {
    RenderWalks(g, raw, depth, path);
    ListedLines(g, raw, depth, path, RenderMod(g, raw, depth, path).value, WalksFrom(g, raw, path));
  }

  /** Lines printed one for one from exactly the simple walks: each line is a walk's, each walk's line is there. */
  lemma ListedLines(g: GraphView, raw: string, depth: nat, path: set<string>, t: seq<string>, ws: seq<seq<string>>)
    requires PrintsWalks(g, depth, ws, t)
    requires forall w :: w in ws <==> SimpleWalk(g, w, raw, path)
    ensures forall i :: 0 <= i < |t| ==> LineOfSimpleWalk(g, depth, raw, path, t[i])
    ensures forall w :: SimpleWalk(g, w, raw, path) ==> WalkLine(g, depth, w) in t
  {
    forall i | 0 <= i < |t| ensures LineOfSimpleWalk(g, depth, raw, path, t[i]) {
      var w := LineOfListed(g, raw, depth, path, t, ws, i);
    }
    forall w | SimpleWalk(g, w, raw, path) ensures WalkLine(g, depth, w) in t {
      var i :| 0 <= i < |ws| && ws[i] == w;
      assert t[i] == WalkLine(g, depth, w);
    }
  }

  lemma LineOfListed(g: GraphView, raw: string, depth: nat, path: set<string>, t: seq<string>, ws: seq<seq<string>>, i: nat)
    returns (w: seq<string>)
    requires PrintsWalks(g, depth, ws, t) && i < |t|
    requires forall w :: w in ws ==> SimpleWalk(g, w, raw, path)
    ensures SimpleWalk(g, w, raw, path) && t[i] == WalkLine(g, depth, w)
  {
    w := ws[i];
    assert w in ws;
  }

  /** When printMod never returns, some walk from its node comes back to a node still being printed. */
  lemma {:induction false} DivergingWalk(g: GraphView, raw: string, depth: nat, path: set<string>) returns (w: seq<string>)
    requires Closed(g) && raw in g && path <= g.Keys && raw !in path
    requires RenderMod(g, raw, depth, path).None?
    ensures WalksBack(g, w, path) && w[0] == raw
    decreases |g.Keys - path|, 1, 0
  {
    StepCardinality(g.Keys, path, raw);
    var path' := path + {raw};
    var v := DivergingChildWalk(g, SortedKeys(g[raw].requiredMods), depth + 2, path');
    w := [raw] + v;
    assert w[1..] == v;
    forall i | 0 <= i < |w| - 1 ensures w[i + 1] in g[w[i]].requiredMods {
      if i > 0 {
        assert w[i] == v[i - 1] && w[i + 1] == v[i];
      }
    }
    var last := v[|v| - 1];
    assert w[|w| - 1] == last;
    if last !in path {
      if last == raw {
        assert w[..|w| - 1][0] == raw;
      } else {
        var i :| 0 <= i < |v| - 1 && v[i] == last;
        assert w[..|w| - 1][i + 1] == last;
      }
    }
  }

  /** When the loop over the children never returns, some walk from a child comes back to PATH or to itself. */
  lemma {:induction false} DivergingChildWalk(g: GraphView, kids: seq<string>, depth: nat, path: set<string>)
    returns (v: seq<string>)
    requires Closed(g) && path <= g.Keys && forall c :: c in kids ==> c in g
    requires RenderChildren(g, kids, depth, path).None?
    ensures IsWalk(g, v) && v[0] in kids && (v[|v| - 1] in path || v[|v| - 1] in v[..|v| - 1])
    decreases |g.Keys - path| + 1, 0, |kids|
  {
    if kids[0] in path {
      v := [kids[0]];
    } else if RenderMod(g, kids[0], depth, path).None? {
      v := DivergingWalk(g, kids[0], depth, path);
    } else {
      v := DivergingChildWalk(g, kids[1..], depth, path);
      assert v[0] in kids;
    }
  }

  /**
   * printMod returns exactly when no required-by walk from its node comes
   * back to a node still being printed or to a node earlier on the walk.
   */
  lemma RenderReturns(g: GraphView, raw: string, depth: nat, path: set<string>)
    requires Closed(g) && raw in g && path <= g.Keys && raw !in path
    ensures RenderMod(g, raw, depth, path).None? <==> exists w :: WalksBack(g, w, path) && w[0] == raw
  {
    if RenderMod(g, raw, depth, path).None? {
      var w := DivergingWalk(g, raw, depth, path);
    } else if exists w :: WalksBack(g, w, path) && w[0] == raw {
      var w :| WalksBack(g, w, path) && w[0] == raw;
      WalkBackDiverges(g, w, depth, path);
    }
  }

  // ---------------------------------------------------------------------------
  // The match loop and main
  // ---------------------------------------------------------------------------

  /** One more root: its walks come after the walks of the roots before it. */
  lemma {:induction false} ChildWalksSnoc(g: GraphView, kids: seq<string>, path: set<string>, k: string)
    requires Closed(g) && path <= g.Keys && (forall c :: c in kids ==> c in g) && k in g && k !in path
    ensures ChildWalks(g, kids + [k], path) == ChildWalks(g, kids, path) + WalksFrom(g, k, path)
    decreases |kids|
  {
    var all := kids + [k];
    if |kids| == 0 {
      assert all[1..] == [];
      assert WalksFrom(g, k, path) + [] == WalksFrom(g, k, path);
    } else {
      assert all[0] == kids[0] && all[1..] == kids[1..] + [k];
      ChildWalksSnoc(g, kids[1..], path, k);
      if kids[0] !in path {
        assert ChildWalks(g, all, path)
               == WalksFrom(g, kids[0], path) + (ChildWalks(g, kids[1..], path) + WalksFrom(g, k, path));
      }
    }
  }

  lemma ButLast<T>(s: seq<T>)
    requires |s| >= 1
    ensures s == s[..|s| - 1] + [s[|s| - 1]]
  {
  }

  /** The match loop prints the walks of every root in turn, when every printMod returns. */
  lemma {:induction false} RenderAllWalks(g: GraphView, roots: seq<string>)
    requires Closed(g) && forall k :: k in roots ==> k in g
    requires RenderAll(g, roots).Success?
    ensures PrintsWalks(g, 0, ChildWalks(g, roots, {}), RenderAll(g, roots).value)
    decreases |roots|
  {
    if |roots| == 0 {
      assert ChildWalks(g, roots, {}) == [];
    } else {
      var init := roots[..|roots| - 1];
      var last := roots[|roots| - 1];
      RenderAllWalks(g, init);
      RenderPrintsWalks(g, last, 0, {});
      ConcatPrints(g, 0, ChildWalks(g, init, {}), WalksFrom(g, last, {}),
                   RenderAll(g, init).value, RenderMod(g, last, 0, {}).value);
      ButLast(roots);
      ChildWalksSnoc(g, init, {}, last);
    }
  }

  /**
   * The match block of main, when it returns: one line for every simple
   * required-by walk from every match, each walk once, matches in raw-token order.
   */
  lemma ReportWalks(g: GraphView, searchMod: string)
    requires Closed(g) && ParseModRaw(searchMod).Success?
    requires Report(g, searchMod).Success?
    ensures PrintsWalks(g, 0, ChildWalks(g, SortedKeys(Matches(g, ParseModRaw(searchMod).value)), {}), Report(g, searchMod).value)
    ensures forall w :: w in ChildWalks(g, SortedKeys(Matches(g, ParseModRaw(searchMod).value)), {})
                    <==> |w| >= 1 && w[0] in Matches(g, ParseModRaw(searchMod).value) && SimpleWalk(g, w, w[0], {})
    ensures NoRepeats(ChildWalks(g, SortedKeys(Matches(g, ParseModRaw(searchMod).value)), {}))
  {
    var ms := SortedKeys(Matches(g, ParseModRaw(searchMod).value));
    RenderAllWalks(g, ms);
    SortedDistinct(ms);
    ChildWalksSimple(g, ms, {});
    ChildWalksNoRepeats(g, ms, {});
    forall w | |w| >= 1 && w[0] in ms && SimpleWalk(g, w, w[0], {}) ensures w in ChildWalks(g, ms, {}) {
      SimpleInChildWalks(g, ms, {}, w);
    }
  }

  /** The match loop over the roots RS fails exactly when a walk from one of them comes back on itself. */
  lemma RootsReturn(g: GraphView, rs: seq<string>)
    requires Closed(g) && forall k :: k in rs ==> k in g
    ensures RenderAll(g, rs).Success? <==> !exists w :: WalksBack(g, w, {}) && w[0] in rs
  {
    RenderAllFails(g, rs);
    if RenderAll(g, rs).Failure? {
      var i :| 0 <= i < |rs| && RenderMod(g, rs[i], 0, {}).None?;
      RenderReturns(g, rs[i], 0, {});
    } else if exists w :: WalksBack(g, w, {}) && w[0] in rs {
      var w :| WalksBack(g, w, {}) && w[0] in rs;
      var i :| 0 <= i < |rs| && rs[i] == w[0];
      RenderReturns(g, rs[i], 0, {});
    }
  }

  /**
   * main on a valid graph file and a valid search token returns exactly when
   * no required-by walk from a match comes back to a node it has passed.
   */
  lemma QueryReturns(lines: seq<string>, searchMod: string)
    requires Build(lines).Success? && ParseModRaw(searchMod).Success?
    ensures Query(lines, searchMod).Success?
            <==> !exists w :: WalksBack(Build(lines).value, w, {}) && w[0] in Matches(Build(lines).value, ParseModRaw(searchMod).value)
  {
    var g := Build(lines).value;
    BuildClosed(lines);
    var ms := Matches(g, ParseModRaw(searchMod).value);
    RootsReturn(g, SortedKeys(ms));
  }

  /**
   * What main prints when it returns: each line is the line of a simple
   * required-by walk from a match, and every such walk's line is printed.
   */
  lemma QueryLines(lines: seq<string>, searchMod: string)
    requires Build(lines).Success? && ParseModRaw(searchMod).Success?
    requires Query(lines, searchMod).Success?
    ensures forall i :: 0 <= i < |Query(lines, searchMod).value| ==>
              exists w :: && |w| >= 1 && w[0] in Matches(Build(lines).value, ParseModRaw(searchMod).value)
                          && SimpleWalk(Build(lines).value, w, w[0], {})
                          && Query(lines, searchMod).value[i] == WalkLine(Build(lines).value, 0, w)
    ensures forall w :: |w| >= 1 && w[0] in Matches(Build(lines).value, ParseModRaw(searchMod).value)
                        && SimpleWalk(Build(lines).value, w, w[0], {}) ==>
              WalkLine(Build(lines).value, 0, w) in Query(lines, searchMod).value
  {
    var g := Build(lines).value;
    BuildClosed(lines);
    var ms := Matches(g, ParseModRaw(searchMod).value);
    ReportWalks(g, searchMod);
    RootLines(g, ms, ChildWalks(g, SortedKeys(ms), {}), Query(lines, searchMod).value);
  }

  /** Lines printed one for one from exactly the simple walks from the matches. */
  lemma RootLines(g: GraphView, ms: set<string>, ws: seq<seq<string>>, t: seq<string>)
    requires PrintsWalks(g, 0, ws, t)
    requires forall w :: w in ws <==> |w| >= 1 && w[0] in ms && SimpleWalk(g, w, w[0], {})
    ensures forall i :: 0 <= i < |t| ==>
              exists w :: |w| >= 1 && w[0] in ms && SimpleWalk(g, w, w[0], {}) && t[i] == WalkLine(g, 0, w)
    ensures forall w :: |w| >= 1 && w[0] in ms && SimpleWalk(g, w, w[0], {}) ==> WalkLine(g, 0, w) in t
  {
    forall i | 0 <= i < |t| ensures exists w :: |w| >= 1 && w[0] in ms && SimpleWalk(g, w, w[0], {}) && t[i] == WalkLine(g, 0, w) {
      var w := RootLineAt(g, ms, ws, t, i);
      assert |w| >= 1 && w[0] in ms && SimpleWalk(g, w, w[0], {}) && t[i] == WalkLine(g, 0, w);
    }
    forall w | |w| >= 1 && w[0] in ms && SimpleWalk(g, w, w[0], {}) ensures WalkLine(g, 0, w) in t {
      var i :| 0 <= i < |ws| && ws[i] == w;
      assert t[i] == WalkLine(g, 0, w);
    }
  }

  lemma RootLineAt(g: GraphView, ms: set<string>, ws: seq<seq<string>>, t: seq<string>, i: nat) returns (w: seq<string>)
    requires PrintsWalks(g, 0, ws, t) && i < |t|
    requires forall w :: w in ws ==> |w| >= 1 && w[0] in ms && SimpleWalk(g, w, w[0], {})
    ensures |w| >= 1 && w[0] in ms && SimpleWalk(g, w, w[0], {}) && t[i] == WalkLine(g, 0, w)
  {
    w := ws[i];
    assert w in ws;
  }

  /** A node alone is a simple walk, printed as the node's own line. */
  lemma SingleWalk(g: GraphView, k: string)
    requires k in g
    ensures SimpleWalk(g, [k], k, {}) && WalkLine(g, 0, [k]) == LineFor(0, g[k].id)
  {
  }

  /** With no required-by cycle, the match loop returns. */
  lemma RankedRoots(g: GraphView, rs: seq<string>, rank: map<string, nat>)
    requires Closed(g) && (forall k :: k in rs ==> k in g) && Ranked(g, rank)
    ensures RenderAll(g, rs).Success?
  {
    RenderAllFails(g, rs);
    forall i | 0 <= i < |rs| ensures RenderMod(g, rs[i], 0, {}).Some? {
      RankedRenders(g, rank, rs[i], 0, {});
    }
  }

  /** With no required-by cycle in the graph, main returns and prints every match at depth 0. */
  lemma QueryRanked(lines: seq<string>, searchMod: string, rank: map<string, nat>)
    requires Build(lines).Success? && ParseModRaw(searchMod).Success?
    requires Ranked(Build(lines).value, rank)
    ensures Query(lines, searchMod).Success?
    ensures forall k :: k in Matches(Build(lines).value, ParseModRaw(searchMod).value) ==>
              LineFor(0, Build(lines).value[k].id) in Query(lines, searchMod).value
  {
    var g := Build(lines).value;
    BuildClosed(lines);
    RankedRoots(g, SortedKeys(Matches(g, ParseModRaw(searchMod).value)), rank);
    QueryLines(lines, searchMod);
    forall k | k in Matches(g, ParseModRaw(searchMod).value) ensures LineFor(0, g[k].id) in Query(lines, searchMod).value {
      SingleWalk(g, k);
    }
  }
}
