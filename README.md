# Dynamic biconnectivity engine — Dafny model

This project models the engine in `hk_answers.c` that answers "are u and v
biconnected?" while edges come and go. The engine keeps these structures:

- a spanning forest of the whole graph G (the link-cut tree `VG`), with the
  edge keys split into tree edges (`tree_edges`) and cyclic edges
  (`cyclic_edges`);
- for every vertex w, a structure of the same kind for G - {w} (`VGmu[w]`,
  `EGmu[w]`, `EGmEGmu[w]`);
- the set of edges read so far (`EG` in `main`).

Edges are named by an integer key (`pairing_function`, decoded by `inv`).
Four operations are modelled:

- **Adding an edge** links its endpoints when they lie in different trees.
  Otherwise the edge is recorded as cyclic. The same is done in every G - {w}
  where w is not an endpoint.
- **Removing a tree edge** cuts it. It then promotes the first cyclic edge,
  in key order, whose endpoints now have different roots. The key order is
  the one `pairing_function` defines.
- **A query** lists the two root paths of the link-cut tree, splices them into
  the u-v tree path, and probes every interior vertex w. The probe asks
  whether w's two path neighbours are still connected in G - {w}.
- **One input line of `main`** dispatches to the above. Repeated insertions
  and deletions of absent edges are ignored.

Files and modules:

- `pairing.dfy` (`Pairing`): edge keys. These are the triangular bijection
  between unordered vertex pairs and the naturals, and its inverse.
- `forest.dfy` (`Forest`): the link-cut tree, seen as its set of tree edges.
  - `root(a) == root(b)` is reachability through tree edges (`Connected`).
  - `link` needs two different trees; `cut` needs an existing tree edge.
  - Lemmas: linking and cutting keep the forest acyclic, and a replacement
    edge reconnects the two halves of a cut tree.
- `spanning.dfy` (`Spanning`): one (forest, tree keys, cyclic keys) index.
  The global structure and each G - {w} structure are values of this type.
  - `Add` and `AddExcluding` model the two insertion paths.
  - The deletion path is `Remove`, with its replacement search loop
    `FindReplacement`, proved against the specification `Removed`.
  - Lemmas: both keep the index invariant `WellFormed`, and removing an edge
    right after adding it restores the index.
- `paths.dfy` (`Paths`): the path extraction of a query.
  - The iterative in-order walk `UndirectedFromRoot` uses an explicit stack
    and is proved equal to `InOrder`.
  - The path splice `UndirectedPath` keeps the three loops of `undirected_path`
    and is proved equal to `Splice`.
- `engine.dfy` (`Engine`): the class `Biconnectivity` holding the engine
  state.
  - `AddEdge` and `RemoveEdge` fan out over all w. They keep the invariant
    `Consistent`: exclusion index w holds exactly the edges of G that do not
    touch w.
  - `ProbeChain` and `AreBiconnected` model the query; `Dispatch` models one
    input line of `main`.

Two modelling choices need stating:

- Self-loops: `main` does not reject `ADD u u`. `add_edge(u, u)` finds
  `root(u) == root(u)` and files the self-loop as a cyclic edge
  (hk_answers.c:40-43). `Add` does the same.
- Edge keys are symmetric: `Key(u, v) == Key(v, u)`. `bijection.h` is not part
  of this model, so `Key` is taken to be the triangular bijection on
  unordered pairs. Every insertion and lookup in `hk_answers.c` uses the
  `(u, v)` of the current line or a key taken from a set. Whether the real
  pairing is symmetric is therefore not something the code shows.

## Model

| member | source | states |
|---|---|---|
| `Pairing.InvKey` | hk_answers.c:69-70 | decoding the key of {a, b} with `inv` gives back the pair, smaller vertex first |
| `Pairing.KeyInv` | hk_answers.c:69-70 | encoding the decoded endpoints of any key gives that key back, so keys and unordered pairs are in bijection |
| `Pairing.KeyInjective` | hk_answers.c:39 | two vertex pairs share an edge key exactly when they are the same unordered pair |
| `Forest.Closure` | hk_answers.c:40 | the set reached from s contains s and no tree edge leaves it; `ClosureLeast` shows it is the least such set, so `Connected` is "same root" |
| `Forest.ConnectedSymmetric` | hk_answers.c:40 | `root(a) == root(b)` is symmetric |
| `Forest.ConnectedTransitive` | hk_answers.c:40 | `root(a) == root(b)` is transitive |
| `Forest.ConnectedMonotone` | hk_answers.c:41 | adding tree edges never separates two vertices |
| `Forest.Link` | hk_answers.c:40-41 | `link` of two vertices with different roots adds exactly the edge {a, b}, joins them, and keeps an acyclic forest acyclic |
| `Forest.LinkKeepsAcyclic` | hk_answers.c:40-41 | linking across two trees keeps every tree edge a bridge |
| `Forest.Cut` | hk_answers.c:64 | `cut` of a tree edge removes it; in an acyclic forest the forest stays acyclic and the two endpoints end up with different roots |
| `Forest.CutKeepsAcyclic` | hk_answers.c:64 | cutting a tree edge keeps the forest acyclic and separates its endpoints |
| `Forest.CutSides` | hk_answers.c:64 | after a cut every vertex of the old tree still reaches one of the two endpoints |
| `Forest.ReplacementReconnects` | hk_answers.c:67-78 | after cutting tree edge e, linking an edge whose endpoints the cut separated reconnects every pair that was connected before the cut |
| `Spanning.Empty` | hk_answers.c:168-176 | the starting index holds no edge and is well formed for every vertex count |
| `Spanning.Add` | hk_answers.c:39-43 | the new key becomes a tree key iff the endpoints had different roots, and a cyclic key iff they had the same root; the key set grows by exactly that key; a tree edge is linked into the forest, a cyclic edge leaves the forest alone |
| `Spanning.AddExcluding` | hk_answers.c:46-54 | in G - {w}: nothing changes when {u, v} is already a tree edge; otherwise the same classification as `Add` |
| `Spanning.AddExcludingIsAdd` | hk_answers.c:49-54 | for an edge the index does not hold, the per-w insertion equals the global one: the "already a tree edge" test and the "already cyclic" test never fire |
| `Spanning.AddKeepsWellFormed` | hk_answers.c:39-43 | insertion keeps the index invariant: disjoint key sets, forest = tree edges, acyclic, endpoints of every cyclic edge connected, vertices below n |
| `Spanning.CrossesKey` | hk_answers.c:71 | the key of {u, v} crosses between trees exactly when u and v have different roots |
| `Spanning.Min` | hk_answers.c:67 | the first key a set iterator visits is the least key of the set |
| `Spanning.FirstCrossing` | hk_answers.c:67-78 | the replacement is a cyclic key that crosses, no smaller cyclic key crosses, and there is none exactly when no cyclic key crosses |
| `Spanning.FindReplacement` | hk_answers.c:67-78 | the ascending scan of the cyclic keys returns the first crossing key |
| `Spanning.Remove` | hk_answers.c:60-79 | deletion: a cyclic or absent key is only erased; a tree key is cut and the first crossing cyclic key, if any, is linked and promoted (equals `Removed`) |
| `Spanning.RemovedKeys` | hk_answers.c:60-79 | deletion removes exactly the key from the key sets, keeps them disjoint, and promotes at most one key, which comes from the cyclic keys; a cyclic or absent key leaves forest and tree keys alone; an absent key changes nothing |
| `Spanning.RemovedKeepsWellFormed` | hk_answers.c:60-79 | deletion with replacement search keeps the index invariant |
| `Spanning.TreeKeysAreEdges` | hk_answers.c:61-64 | every tree key names an edge of the forest, so the `cut` of line 64 is always of an existing tree edge |
| `Spanning.RemoveUndoesAdd` | hk_answers.c:37-79 | removing an edge right after adding it gives back the index it was added to |
| `Paths.InOrderHolds` | hk_answers.c:104-117 | the in-order listing of an auxiliary tree holds exactly its vertices |
| `Paths.PushLeft` | hk_answers.c:110 | pushing the current node and going left does not change what the walk still has to emit |
| `Paths.PopTop` | hk_answers.c:112-115 | with no current node, the walk continues with the top of the stack and then its right subtree |
| `Paths.UndirectedFromRoot` | hk_answers.c:104-117 | the walk starts from a cleared path and leaves it equal to the in-order listing of the tree, one entry per node |
| `Paths.FirstIndex` | hk_answers.c:123-124 | the position found holds x and no earlier position does |
| `Paths.LastIndex` | hk_answers.c:126-127 | the position found holds x and no later position does |
| `Paths.Reverse` | hk_answers.c:128 | the reverse has the same length with position i holding element n-1-i |
| `Paths.UpToLca` | hk_answers.c:123-124 | the copied prefix only holds vertices of path1 |
| `Paths.CopyUpToLca` | hk_answers.c:123-124 | copying path1 left to right and stopping after the lca yields path1 up to its first lca, or all of path1 |
| `Paths.FindFromBack` | hk_answers.c:126-127 | the reverse scan stops at the last occurrence of the lca |
| `Paths.Splice` | hk_answers.c:120-129 | every vertex of the spliced path comes from one of the two root paths |
| `Paths.UndirectedPath` | hk_answers.c:120-129 | the three loops build exactly the splice: empty for different roots, else path1 up to the lca and then path2 before its lca, backwards |
| `Paths.SpliceEnds` | hk_answers.c:120-129 | the splice is empty exactly for different roots; otherwise it starts at path1's first vertex, has the lca at its first index in path1, ends at path2's first vertex, and has length first lca index + 1 + last lca index |
| `Engine.AvoidingKey` | hk_answers.c:45-46 | the edge {u, v} belongs to G - {w} exactly when w is neither u nor v |
| `Engine.AddKeepsExclusion` | hk_answers.c:45-55 | insertion keeps one exclusion index well formed and equal to the edges of the new G - {w} |
| `Engine.AddKeepsConsistent` | hk_answers.c:37-56 | insertion keeps the engine invariant for the global index and all n exclusion indexes |
| `Engine.RemoveKeepsExclusion` | hk_answers.c:81-100 | deletion keeps one exclusion index well formed and equal to the edges of the new G - {w} |
| `Engine.RemoveKeepsConsistent` | hk_answers.c:58-101 | deletion keeps the engine invariant for the global index and all n exclusion indexes |
| `Engine.Biconnectivity.constructor` | hk_answers.c:168-178 | n vertices, no edges, one empty exclusion index per vertex; the engine invariant holds |
| `Engine.Biconnectivity.AddEdge` | hk_answers.c:37-56 | the global index becomes `Add`, each exclusion index w becomes `AddExcluding` unless w is an endpoint, and the engine invariant is kept |
| `Engine.Biconnectivity.RemoveEdge` | hk_answers.c:58-101 | the global index becomes `Removed`, each exclusion index w becomes `Removed` unless w is an endpoint, and the engine invariant is kept |
| `Engine.Biconnectivity.ProbeChain` | hk_answers.c:142-159 | false with count 0 on an empty path; true iff every interior vertex's neighbours are connected in G - {w}, with count len-2; else the count is the position of the first failing vertex |
| `Engine.Biconnectivity.AreBiconnected` | hk_answers.c:131-160 | the answer and the count are those of `ProbeChain` on the splice of the in-order listings of the two accessed trees: false on an empty splice, true iff every interior probe passes, else the count names the first failing position |
| `Engine.Biconnectivity.Dispatch` | hk_answers.c:183-201 | ADD of a new key inserts it, makes the global index `Add` of the old one and exclusion index w `AddedAt` (`AddExcluding` unless w is an endpoint); REM of a present key deletes it, makes the global index `Removed` of the old one and exclusion index w `RemovedAt`; a repeated ADD, a REM of an absent key and a query change nothing; the engine invariant and `EG` = all keys are kept |

## Left out

- Input and output: reading `n` and the operation lines, `sscanf`, all
  printing (lines 151-156 and 192-206) and the timing with `steady_clock`.
  `Dispatch` models the state changes of one parsed line. The answers
  printed after every ADD (lines 188-194) and for a query line (203-206) are
  output only. They are left out because each needs the results of
  link-cut `access` calls, which this model does not have.
- The link-cut tree itself (`link_cut.h`, `link_cut_node.h`): splay trees,
  `access`, `root`, `link` and `cut` are not part of this model. The forest is
  its set of tree edges.
  - `AreBiconnected` receives the auxiliary trees after `access` and the
    returned lca as parameters; how `access` builds them is not modelled.
  - Nodes are identified by vertex id, so the pointer comparison
    `nd == lca` is an id comparison.
- Engine.Biconnectivity.AreBiconnected: its inputs are not tied to the forest.
  It does not state that the listed trees are the root paths of u and v.
  That is a property of `access`, which is not modelled.
- Spanning.AddExcluding: the test `VGmu[w][u]->p == VGmu[w][v]` (line 49)
  reads a parent pointer inside the splay trees. It is modelled as "the
  forest already holds the tree edge {u, v}". `AddExcludingIsAdd` shows that
  the modelled test never fires for an edge the index does not already hold.
  `AddExcludingIsAdd`, and through it `AddKeepsExclusion` and
  `AddKeepsConsistent`, rest on this reading of line 49. The real comparison
  uses a splay-parent or path-parent pointer defined in `link_cut.h`. After
  the two `access` calls that pointer may also equal v for a connected pair
  that is not adjacent, in which case the code would skip recording a cyclic
  key in G - {w}. That case is not modelled.
- Pairing.Key: the pairing is taken to be symmetric, so `ADD 1 2` followed by
  `ADD 2 1` is one edge (the second line is a repeated ADD), and `REM 2 1`
  deletes the edge added as `ADD 1 2`. An ordered pairing would give a
  second key for the reversed pair. That key would be a parallel edge. Line
  49 skips it in a G - {w} where {u, v} is a tree edge. In G, and in a
  G - {w} where {u, v} is cyclic, it is filed as a second cyclic key. An
  ordered pairing would also make `REM 2 1` a no-op. Ordered keys and parallel edges are not
  modelled.
- `bijection.h` is not part of this model. `pairing_function` and `inv` are
  modelled as a bijection on unordered pairs of naturals. The C++ `int` range
  of keys and vertex ids, negative inputs, and overflow of the key for large
  vertex ids are not modelled. When several cyclic edges cross a cut,
  `Removed` promotes the least one in the triangular key order. Which edge
  the code promotes depends on the key order of the real `pairing_function`,
  so it may pick a different one.
- Engine.Biconnectivity.ProbeChain: requires a path length other than 1.
  For a one-vertex path (a query with u == v), the loop `while (it !=
  uv_path.end() - 1)` starts one past that position and reads beyond the
  vector. The source gives no behaviour to model there.
- `Spanning.Add` and `Engine.Biconnectivity.AddEdge` require that the key is
  not yet present. `add_edge` is only called after `main` has checked `EG`.
- The other headers (`dc_hdt.h`, LEDA, `dyn_con.h`, `memory.h`), the unused
  constant `NUMJUNCS`, and memory ownership (nodes are allocated with `new`
  and never freed) are not modelled.
- That the answer is graph-theoretic biconnectivity is not proved. The model
  proves what the code computes and the invariants it keeps.
