# gomod: reverse-dependency trees of a Go module graph

`gomod` reads a Go module graph file, one edge `A B` ("A requires B") per line, as
printed by `go mod graph`, together with a search token `name` or `name@version`.
It builds a registry `modMap` from raw token to node. Each node holds its parsed name
and version, and two pointer maps:
- `RequireModMap`: what the node requires;
- `RequiredModMap`: what requires the node.

For every node whose name matches, and whose version matches if the search has one,
`printMod` prints the tree of everything that requires it. Each level is indented two
more spaces than the one above.

This project models that core in Dafny, in the form the Go code has:

- `ModKey` (pure): `getModNameAndVersion` as `ParseModRaw`, built on a model of
  `strings.Split`. It also covers `printMod`'s name formatting (`Format`) and the fatal
  errors the program stops with (`Fatal`, with the message part of what each one writes).
- `DepGraph` (pure specification): the registry as a value. A `GraphView` maps each raw
  token to a `Node` holding its identity and the keys of its two maps. It states:
  - `getMod` (`Register`);
  - one pass of the line loop (`AddLine`);
  - the whole loop (`BuildFrom`/`Build`);
  - what the loop builds, when it fails, and that repeated lines change nothing.
- `Registry` (imperative): the Go data and code themselves.
  - `class Mod` has the two maps, which are updated in place.
  - `class Graph` holds `modMap`, with `GetMod` (the `getMod` closure), the loop over
    the lines and the match loop.
  - `RunQuery` is `main` after the file is read.
  - Every method is proved against the `DepGraph`/`Render` functions through the ghost
    field `view`, the registry read as a value. `Valid()` says that each pointer in a
    node's maps is the registry's node for that key, that distinct tokens have distinct
    nodes, and that `view` is exactly what the nodes hold.
- `Render` (pure): the match filter (`Selected`, `Matches`) and `printMod` as
  `RenderMod`/`RenderChildren`, returning the printed lines. Also the match loop
  (`RenderAll`), the match block (`Report`) and the whole run (`Query`).
  - `printMod` has no visited set: on a required-by cycle it recurses until the goroutine
    stack is exhausted. `RenderMod` tracks the nodes whose `printMod` call is still
    running (`path`). It returns `None` exactly where the Go recursion would come back
    to one of them.
  - The run then ends with `Fatal.StackOverflow`.
- `Walks` (pure): the whole printed tree, stated over required-by walks (a walk follows
  `RequiredModMap` from node to node).
  - `printMod(mod, depth)` prints one line for every walk from `mod` that repeats no node.
    Each such walk is printed exactly once, and the line of a walk of n nodes is its last
    node indented by `depth + 2(n - 1)`.
  - It returns exactly when no walk from `mod` comes back to a node already on it.
  - The same is lifted to the match loop and to `main`.
- `StringOrder`: byte-wise string order and `SortedKeys`. Go iterates `modMap` and
  `RequiredModMap` in an unspecified order; the model fixes it to increasing raw-token
  order.
- `Scenario`: two worked runs.
  - `a b`, `b c` searched for `c` prints `c`, `  b`, `    a`.
  - `a b`, `b a` searched for `a` never returns from `printMod`.

## Model

| member | source | states |
|---|---|---|
| ModKey.Split | main.go:115 | `strings.Split` with a one-character separator: one more field than there are separators, and no field contains the separator |
| ModKey.JoinSplit | main.go:115 | joining the fields of a split with the separator gives back the original string |
| ModKey.SplitJoin | main.go:115 | splitting a join of separator-free fields gives back the fields |
| ModKey.ParseModRaw | main.go:112-127 | succeeds iff the token has at most one '@'; otherwise the error is `ModRawError(raw)`; no '@' gives `(raw, "")`; one '@' gives the text before and after it; neither part contains '@' |
| ModKey.ParseBareName | main.go:117-119 | a token without '@' parses to itself with an empty version |
| ModKey.ParseNameAtVersion | main.go:120-121 | `name@version` with '@'-free parts parses to exactly `(name, version)` |
| ModKey.ParseFormat | main.go:130-133 | formatting an '@'-free identity the way printMod does, then parsing, gives the identity back |
| ModKey.FormatParse | main.go:130-133 | a token that parses is printed as itself iff it has no '@' or a non-empty version (`x@` prints as `x`) |
| ModKey.ParseInjectiveOnVersioned | main.go:112-127 | two tokens with the same parse and a non-empty version are the same token |
| ModKey.Format | main.go:130-133 | no contract of its own: `name` alone when the version is empty, else `name@version`; `ParseFormat` and `FormatParse` state its round trips |
| ModKey.Message | main.go:38-75 | no contract of its own: the message part of each fatal error (`modRaw error: <token>`, `error split line`, and the runtime's `fatal error: stack overflow` headline) |
| ModKey.MessageTells | main.go:38-75 | equal messages mean the same kind of failure, and for a bad token the same token |
| DepGraph.Register | main.go:35-54 | getMod: a registered token returns its node unchanged; a new token that parses adds exactly one node with the parsed identity and empty maps; a new token that does not parse is `ModRawError`; existing nodes are untouched |
| DepGraph.SplitLine | main.go:57-62 | a line is accepted iff it has exactly one space; the two fields are the text around it; otherwise `SplitLineError` |
| DepGraph.Link | main.go:67-68 | the two map insertions keep the key set and put B in A's forward map and A in B's backward map |
| DepGraph.LinkSpec | main.go:67-68 | linking keeps every identity and adds exactly B to A's forward keys and exactly A to B's backward keys, nothing else |
| DepGraph.LinkAt | main.go:67-68 | the node at any key after the two insertions, in the order the source performs them |
| DepGraph.Symmetric | main.go:67-68 | in a well-formed registry, B is in A's RequireModMap iff A is in B's RequiredModMap |
| DepGraph.AddLine | main.go:57-68 | one pass of the line loop never removes a node; its only errors are `SplitLineError` of the line or a `ModRawError` |
| DepGraph.AddEdge | main.go:62-68 | after the split: the registry gains exactly the two tokens, with B in A's forward keys and A in B's backward keys; the only errors are `ModRawError` of A or of B |
| DepGraph.BuildFrom | main.go:56-69 | the loop never removes a node, and fails only with a split or token error |
| DepGraph.Build | main.go:33-69 | no contract of its own: the loop from the empty registry `map[string]*Mod{}`; `BuildSpec` states what it builds |
| DepGraph.FirstInvalid | main.go:56-69 | the index of the first line the loop rejects: every earlier line is valid, and the line there, if any, is not |
| DepGraph.RegisterBoth | main.go:64-65 | after `getMod(A)` then `getMod(B)` both tokens are registered |
| DepGraph.InsertWellformed | main.go:43-50 | a fresh node with its parsed identity and empty maps keeps the registry well formed |
| DepGraph.RegisterWellformed | main.go:35-54 | getMod keeps the registry well formed: ids are the parses of their tokens and the two maps mirror each other |
| DepGraph.LinkWellformed | main.go:67-68 | the two insertions keep the forward and backward maps mirrored |
| DepGraph.LinkEdges | main.go:67-68 | one edge line adds exactly its one edge |
| DepGraph.RegisterEdges | main.go:35-54 | getMod adds no edge |
| DepGraph.AddLineOutcome | main.go:56-68 | one pass succeeds iff the line splits into two fields that both parse; on failure the error is that of the first bad part (split, then A, then B) |
| DepGraph.AddLineIdsParsed | main.go:56-68 | a successful pass registers only tokens whose node identity is their parse |
| DepGraph.AddLineWellformed | main.go:56-68 | a successful pass keeps the registry well formed |
| DepGraph.AddLineEffect | main.go:56-68 | a successful pass adds exactly its two tokens and its one edge, and keeps every existing identity |
| DepGraph.AddLineIdempotent | main.go:62-68 | processing the same line twice is the same as once |
| DepGraph.LinkPresent | main.go:67-68 | inserting an edge already in both maps changes nothing |
| DepGraph.BuildFromFirstInvalid | main.go:56-69 | the loop succeeds iff no line is invalid; otherwise it fails with the error of the first invalid line |
| DepGraph.BuildFromOutcome | main.go:56-69 | the same outcome over all lines: success iff every line is valid, else the error of a bad line with every earlier line valid |
| DepGraph.BuildFromWellformed | main.go:56-69 | the loop keeps the registry well formed |
| DepGraph.BuildFromKeys | main.go:56-69 | the loop registers exactly the tokens of its lines |
| DepGraph.BuildFromEdges | main.go:56-69 | the loop adds exactly the edges of its lines |
| DepGraph.BuildSpec | main.go:33-69 | from an empty registry: the nodes are exactly the tokens of the file, the edges exactly its pairs, and forward and backward maps mirror each other |
| DepGraph.BuildFromAppend | main.go:56-69 | running the loop over `xs + ys` is running it over `xs`, then over `ys` unless `xs` failed |
| DepGraph.AddLinePresent | main.go:62-68 | a line whose edge is already present leaves the registry unchanged |
| DepGraph.ReplayPresent | main.go:56-69 | replaying lines whose edges are all present leaves the registry unchanged |
| DepGraph.BuildIgnoresRepeats | main.go:56-69 | appending lines that already occur in the file gives the same graph, or the same fatal error |
| DepGraph.BuildTwice | main.go:56-69 | a file listed twice builds the same result as the file listed once |
| Render.Indent | main.go:135 | `strings.Repeat(" ", n)`: exactly n spaces |
| Render.WellformedClosed | main.go:137-138 | in a well-formed registry every RequiredModMap key is registered |
| Render.BuildClosed | main.go:56-69 | every registry the loop builds has no dangling required-by key |
| Render.LineFor | main.go:135 | no contract of its own: `depth` spaces, then the formatted name |
| Render.RenderMod | main.go:129-139 | printMod, its own contract: when it returns, its first line is the node's formatted name indented by `depth`, every later line is indented by at least `depth + 2`, and every child's line at `depth + 2` appears (the whole tree is `Walks.RenderWalks`) |
| Render.RenderChildren | main.go:137-139 | the loop over RequiredModMap, its own contract: when it returns, every line is indented by at least `depth` and every child's own line appears (the whole output is `Walks.ChildrenWalks`) |
| Render.JoinChildren | main.go:137-139 | the first child's tree followed by its siblings' trees covers every child with every line indented |
| Render.RenderLeaf | main.go:135-139 | a node nothing requires prints as its one line |
| Render.RenderAll | main.go:77-86 | the match loop fails iff the printMod call of some match never returns, and the error is `StackOverflow` at the first such match |
| Render.RenderAllFails | main.go:77-86 | the same, stated on printMod directly: failure iff some match's printMod never returns; the error names a match whose printMod never returns while every earlier one does |
| Render.Selected | main.go:78-83 | no contract of its own: the two `continue` checks, same name and, unless the search has none, same version |
| Render.Matches | main.go:77-84 | the tokens the filter selects are registered tokens |
| Render.Report | main.go:71-87 | the match block prints only after the search token parses; its errors are `ModRawError` of the search token or a stack overflow |
| Render.Query | main.go:33-88 | main prints only when the graph file and the search token are both valid |
| Render.SelectIn | main.go:77-84 | the keys the two `continue` checks let through are exactly those with the searched name, and the searched version unless the search has none |
| Render.SelectInSorted | main.go:77-84 | filtering keeps key order |
| Render.SelectInSnoc | main.go:77-84 | one more key appends it to the selection iff the filter keeps it |
| Render.RenderAllSnoc | main.go:77-86 | one more match appends its tree, or stops the run if its printMod never returns |
| Render.SelectInPrefix | main.go:77-84 | the selection from a prefix of the keys is a prefix of the selection |
| Render.RenderAllStops | main.go:85 | once a printMod call never returns, later matches change nothing |
| Render.SelectMatches | main.go:77-84 | walking the registry in key order and filtering gives exactly the matches in key order |
| Render.MatchesAllVersions | main.go:78-83 | a search without a version selects every version of the name |
| Render.PinnedWithinUnpinned | main.go:78-83 | a versioned search selects a subset of what the bare name selects |
| Render.MatchesPinned | main.go:72-83 | a search token with a non-empty version selects exactly the node of that very token, if it is registered |
| Render.RankedRenders | main.go:137-139 | without a required-by cycle (a rank decreasing along every edge) printMod returns |
| Render.RankedChildren | main.go:137-139 | under the same rank bound, the loop over the children returns |
| Render.ChildrenDiverge | main.go:137-139 | one child whose printMod never returns makes its parent's loop never return |
| Render.WalkBackDiverges | main.go:137-139 | a required-by walk that comes back to a node still being printed makes printMod never return |
| Render.CycleDiverges | main.go:137-139 | a required-by cycle reachable from a node makes printMod on it never return |
| Render.QueryBadGraph | main.go:56-60 | a graph file with a bad line aborts the run with the error of its first bad line |
| Render.QueryBadSearch | main.go:72-75 | a search token with two or more '@' aborts the run, once the graph file is valid |
| Render.QueryNoMatch | main.go:77-87 | no match is not an error: the run succeeds and prints nothing |
| StringOrder.SortedKeys | main.go:77 | the keys of a set, each exactly once, strictly increasing |
| StringOrder.SortedUnique | main.go:77 | a set has only one strictly increasing enumeration |
| Registry.Mod.constructor | main.go:43-48 | a new node has the given name and version and two empty maps |
| Registry.AddInv | main.go:43-50 | storing a new node with empty maps under a new token keeps the registry invariant |
| Registry.LinkedClosed | main.go:67-68 | when every pointer in the maps is the registry's node for that key, no required-by key dangles |
| Registry.Graph.constructor | main.go:33 | `modMap := map[string]*Mod{}`: an empty, valid registry |
| Registry.Graph.Snapshot | main.go:77 | the registry read off the nodes is the ghost `view` |
| Registry.Graph.GetMod | main.go:35-54 | getMod moves the registry exactly as `Register` does: the same node for a registered token; a fresh node stored under a new token; `modMap` unchanged on a parse error |
| Registry.Graph.Add | main.go:43-50 | a fresh node with empty maps, stored under the new token; `view` gains the node `(id, {}, {})` |
| Registry.Graph.SetRequire | main.go:67 | `mod.RequireModMap[requireModRaw] = requireMod`: only that map changes; the abstract nodes change only at `modRaw`, by adding the key |
| Registry.Graph.SetRequired | main.go:68 | `requireMod.RequiredModMap[modRaw] = mod`, the same for the backward map |
| Registry.Graph.Connect | main.go:67-68 | the two insertions move `view` exactly as `Link`; `modMap` is unchanged and the invariant holds |
| Registry.Graph.GetMods | main.go:64-65 | the two getMod calls move the registry as `RegisterBoth` and return the registry's nodes for both tokens |
| Registry.Graph.ProcessLine | main.go:57-68 | one pass of the loop moves the registry exactly as `AddLine`, or returns its fatal error |
| Registry.Graph.InsertLine | main.go:62-68 | the loop body after the split moves the registry exactly as `AddEdge` |
| Registry.Graph.ProcessLines | main.go:56-69 | the whole loop leaves the registry `view` equal to `BuildFrom` of the old one, or returns the fatal error `BuildFrom` gives; a well-formed registry stays well formed |
| Registry.Graph.PrintMatches | main.go:71-87 | the match block outputs exactly `Report` on the registry |
| Registry.PrintStep | main.go:77-86 | one turn of the loop over the registry: a key the filter skips leaves the output as it is; a selected key appends its tree, or ends the run with `StackOverflow` at that key |
| Registry.Graph.PrintSelected | main.go:77-86 | the loop over the registry with its two `continue` checks prints the trees of the selected keys in order, stopping at the first that never returns |
| Registry.RunQuery | main.go:33-88 | main after reading the file: the output is exactly `Query(lines, searchMod)` |
| Walks.RenderPrintsWalks | main.go:129-139 | when printMod returns, its output is, line for line, the lines of the walks `WalksFrom` lists |
| Walks.ChildrenPrintWalks | main.go:137-139 | the same for the loop over the children |
| Walks.WalksFromSimple | main.go:129-139 | every listed walk from a node starts at it, repeats no node and avoids the nodes being printed |
| Walks.ChildWalksSimple | main.go:137-139 | every walk listed for the children starts at one of them and is simple |
| Walks.WalksFromNoRepeats | main.go:129-139 | no walk is listed twice |
| Walks.ChildWalksNoRepeats | main.go:137-139 | no walk is listed twice for distinct children |
| Walks.SimpleInWalksFrom | main.go:129-139 | every simple walk from the node is listed |
| Walks.SimpleInChildWalks | main.go:137-139 | every simple walk from a child is listed for the children |
| Walks.RenderWalks | main.go:129-139 | printMod's whole output: one line per listed walk, the listed walks are exactly the simple walks from the node, each listed once |
| Walks.ChildrenWalks | main.go:137-139 | the same for the loop over the children: exactly the simple walks from any child, each once |
| Walks.RenderLines | main.go:129-139 | each printed line is the line of a simple walk, and every simple walk's line is printed |
| Walks.DivergingWalk | main.go:129-139 | when printMod never returns, there is a walk from the node that comes back to a node still being printed |
| Walks.DivergingChildWalk | main.go:137-139 | the same for the loop over the children |
| Walks.RenderReturns | main.go:129-139 | printMod never returns iff some walk from the node comes back to a node still being printed or earlier on the walk |
| Walks.ChildWalksSnoc | main.go:77-86 | one more root appends its walks after those of the earlier roots |
| Walks.RenderAllWalks | main.go:77-86 | when the match loop returns, its output is the lines of the walks from every match in turn |
| Walks.ReportWalks | main.go:71-87 | the match block's output: one line per simple walk from a match, each such walk exactly once |
| Walks.RootsReturn | main.go:77-86 | the match loop returns iff no walk from any of its roots comes back on itself |
| Walks.QueryReturns | main.go:33-88 | for a valid file and search token, main returns iff no walk from a match comes back on itself |
| Walks.QueryLines | main.go:33-88 | when main returns, each printed line is the line of a simple walk from a match, and every such walk's line is printed |
| Walks.RankedRoots | main.go:77-86 | without a required-by cycle the match loop returns |
| Walks.QueryRanked | main.go:33-88 | without a required-by cycle, main on a valid file and search token returns and prints every match's own line at depth 0 |
| Scenario.BuildExample | main.go:56-69 | `a b`, `b c` builds a required by nothing, b required by a, c required by b |
| Scenario.ReportSingle | main.go:71-87 | a search selecting only its own node prints just that node's tree |
| Scenario.RenderAllSingle | main.go:77-86 | the match loop over one match prints its tree, or overflows on it |
| Scenario.RenderExample | main.go:129-139 | c's tree is `c`, `  b`, `    a` |
| Scenario.QueryExample | main.go:33-88 | searching `c` in that file prints `c`, `  b`, `    a` |
| Scenario.BuildCycle | main.go:56-69 | `a b`, `b a` builds a and b each requiring and required by the other |
| Scenario.RenderCycle | main.go:137-139 | printMod on a in that graph never returns |
| Scenario.QueryCycle | main.go:33-88 | searching `a` in that file ends the run with a stack overflow at a |

## Left out

- Reading the graph file: `readline` (`bufio.Scanner`, including its line-ending handling and token-size limit) and its error path are not modelled. The lines are a parameter of `RunQuery`.
- The command line: `os.Args` and the fewer-than-three-arguments fatal error are not modelled. The search token is a parameter.
- Standard output and standard error are not modelled as streams. The printed lines are returned as a sequence, and `log.Fatalln` becomes a `Fatal` value. `Message` gives only the message part of what goes to standard error: the date and time `log.Fatalln` puts in front are not modelled. For a stack overflow the Go runtime's report is reduced to its headline, without the stack-limit line and the goroutine traces. The exit status is not modelled.
- Registry.Graph.PrintSelected: when a `printMod` call never returns, the model returns only the `StackOverflow` error. It drops the trees the Go program had already printed for earlier matches, and the lines the endless recursion writes before the stack is exhausted.
- Go map iteration order: Go visits `modMap` and `RequiredModMap` in an unspecified order. The model visits both in increasing byte order of the raw token, so any one of Go's possible outputs matches the model's only up to that order.
- The commented-out forward traversal over `RequireModMap` (main.go:141-144) is not code and is not modelled.
- Render.RenderMod: the Go recursion on a required-by cycle has no result. It exhausts the goroutine stack, which is a runtime crash rather than a `log.Fatalln`. The model returns `None` at that point, and the run ends with `StackOverflow` at the match being printed.
