/** The biconnectivity engine: one spanning-forest index for G and one for
    every G - {w}, kept up to date under edge insertions and deletions, and
    the query that walks the u-v tree path asking, at every interior vertex
    w, whether its two path neighbours are still connected in G - {w}. */
module Engine {
  import opened Pairing
  import opened Forest
  import opened Spanning
  import opened Paths

  /** Operation codes of an input line. */
  const ADD := 0
  const REM := 1
  const QRY := 2

  /** The keys of the edges with no endpoint at w: the edges of G - {w}. */
  function Avoiding(keys: set<nat>, w: nat): set<nat>
  {
    set k | k in keys && Inv(k).0 != w && Inv(k).1 != w
  }

  /** The engine invariant over vertices 0 .. n-1: the global index and every
      exclusion index are well formed, and exclusion index w holds exactly
      the edges of G that do not touch w. */
  ghost predicate Consistent(global: Index, minus: seq<Index>, n: nat)
  {
    && WellFormed(global, n)
    && |minus| == n
    && forall w :: 0 <= w < n ==> ExclusionOk(global, minus[w], n, w)
  }

  /** Exclusion index m of vertex w is well formed and holds the edges of G - {w}. */
  ghost predicate ExclusionOk(global: Index, m: Index, n: nat, w: nat)
  {
    WellFormed(m, n) && Keys(m) == Avoiding(Keys(global), w)
  }

  /** Exclusion index w after add_edge(u, v): untouched when w is an endpoint. */
  predicate AddedAt(before: Index, after: Index, w: nat, u: nat, v: nat)
  {
    after == if w == u || w == v then before else AddExcluding(before, u, v)
  }

  /** Exclusion index w after remove_edge(u, v): untouched when w is an endpoint. */
  ghost predicate RemovedAt(before: Index, after: Index, w: nat, u: nat, v: nat)
  {
    if w == u || w == v then after == before
    else (Key(u, v) in before.tree ==> HasEdge(before.forest, u, v)) && after == Removed(before, u, v)
  }

  /** An edge is left out of G - {w} exactly when it touches w. */
  lemma AvoidingKey(keys: set<nat>, w: nat, u: nat, v: nat)
    ensures w == u || w == v ==> Avoiding(keys + {Key(u, v)}, w) == Avoiding(keys, w)
    ensures w == u || w == v ==> Avoiding(keys - {Key(u, v)}, w) == Avoiding(keys, w)
    ensures w != u && w != v ==> Avoiding(keys + {Key(u, v)}, w) == Avoiding(keys, w) + {Key(u, v)}
    ensures w != u && w != v ==> Avoiding(keys - {Key(u, v)}, w) == Avoiding(keys, w) - {Key(u, v)}
  {
    InvKey(u, v);
  }

  /** add_edge on one exclusion index keeps it consistent with the new G. */
  lemma AddKeepsExclusion(global: Index, m: Index, after: Index, n: nat, w: nat, u: nat, v: nat)
    requires ExclusionOk(global, m, n, w) && AddedAt(m, after, w, u, v)
    requires WellFormed(global, n) && u < n && v < n && Key(u, v) !in Keys(global)
    ensures ExclusionOk(Add(global, u, v), after, n, w)
  {
    AvoidingKey(Keys(global), w, u, v);
    if w != u && w != v {
      AddExcludingIsAdd(m, n, u, v);
      AddKeepsWellFormed(m, n, u, v);
    }
  }

  /** add_edge keeps the engine invariant. */
  lemma AddKeepsConsistent(global: Index, minus: seq<Index>, after: seq<Index>, n: nat, u: nat, v: nat)
    requires Consistent(global, minus, n) && u < n && v < n && Key(u, v) !in Keys(global)
    requires |after| == n
    requires forall w :: 0 <= w < n ==> AddedAt(minus[w], after[w], w, u, v)
    ensures Consistent(Add(global, u, v), after, n)
  {
    AddKeepsWellFormed(global, n, u, v);
    forall w | 0 <= w < n
      ensures ExclusionOk(Add(global, u, v), after[w], n, w)
    {
      AddKeepsExclusion(global, minus[w], after[w], n, w, u, v);
    }
  }

  /** remove_edge on one exclusion index keeps it consistent with the new G. */
  lemma RemoveKeepsExclusion(global: Index, m: Index, after: Index, n: nat, w: nat, u: nat, v: nat)
    requires ExclusionOk(global, m, n, w) && RemovedAt(m, after, w, u, v)
    requires WellFormed(global, n)
    ensures ExclusionOk(Removed(global, u, v), after, n, w)
  {
    RemovedKeys(global, u, v);
    AvoidingKey(Keys(global), w, u, v);
    if w != u && w != v {
      RemovedKeepsWellFormed(m, n, u, v);
      RemovedKeys(m, u, v);
    }
  }

  /** remove_edge keeps the engine invariant. */
  lemma RemoveKeepsConsistent(global: Index, minus: seq<Index>, after: seq<Index>, n: nat, u: nat, v: nat)
    requires Consistent(global, minus, n)
    requires |after| == n
    requires forall w :: 0 <= w < n ==> RemovedAt(minus[w], after[w], w, u, v)
    ensures Consistent(Removed(global, u, v), after, n)
  {
    RemovedKeepsWellFormed(global, n, u, v);
    forall w | 0 <= w < n
      ensures ExclusionOk(Removed(global, u, v), after[w], n, w)
    {
      RemoveKeepsExclusion(global, minus[w], after[w], n, w, u, v);
    }
  }

  /** The query test at interior position i of a path: the neighbours
      path[i - 1] and path[i + 1] are connected in G - {path[i]}. */
  predicate Passes(minus: seq<Index>, path: seq<nat>, i: nat)
    requires 0 < i < |path| - 1 && path[i] < |minus|
  {
    Connected(minus[path[i]].forest, path[i - 1], path[i + 1])
  }

  /** The engine state: the global index (`VG`, `tree_edges`,
      `cyclic_edges`), the exclusion indexes (`VGmu`, `EGmu`, `EGmEGmu`) and
      the edge set read so far (`EG`). */
  class Biconnectivity {
    const n: nat
    var edges: set<nat>
    var global: Index
    var minus: seq<Index>

    ghost predicate Valid()
      reads this
    {
      Consistent(global, minus, n) && edges == Keys(global)
    }

    /** The start of main: n isolated vertices and one empty exclusion index per vertex. */
    constructor(n: nat)
      ensures Valid() && this.n == n && edges == {}
    {
      this.n := n;
      edges := {};
      global := Empty();
      var m: seq<Index> := [];
      for u := 0 to n
        invariant |m| == u && forall w :: 0 <= w < u ==> m[w] == Empty()
      {
        m := m + [Empty()];
      }
      minus := m;
    }

    /** add_edge(u, v): classify {u, v} in G, then in every G - {w} with w not
        an endpoint. */
    method AddEdge(u: nat, v: nat)
      requires Consistent(global, minus, n) && u < n && v < n && Key(u, v) !in Keys(global)
      modifies this
      ensures Consistent(global, minus, n)
      ensures global == Add(old(global), u, v)
      ensures |minus| == n && forall w :: 0 <= w < n ==> AddedAt(old(minus[w]), minus[w], w, u, v)
      ensures edges == old(edges)
    {
      var g0, before := global, minus;
      global := Add(global, u, v);
      var m := minus;
      for w := 0 to n
        invariant global == Add(g0, u, v) && edges == old(edges) && |m| == n
        invariant forall i :: 0 <= i < w ==> AddedAt(before[i], m[i], i, u, v)
        invariant forall i :: w <= i < n ==> m[i] == before[i]
      {
        if w == u || w == v {
          continue;
        }
        m := m[w := AddExcluding(m[w], u, v)];
      }
      AddKeepsConsistent(g0, before, m, n, u, v);
      minus := m;
    }

    /** remove_edge(u, v): delete {u, v} from G, then from every G - {w} with w
        not an endpoint, promoting a replacement wherever a tree edge is cut. */
    method RemoveEdge(u: nat, v: nat)
      requires Consistent(global, minus, n)
      modifies this
      ensures Consistent(global, minus, n)
      ensures global == Removed(old(global), u, v)
      ensures |minus| == n && forall w :: 0 <= w < n ==> RemovedAt(old(minus[w]), minus[w], w, u, v)
      ensures edges == old(edges)
    {
      var g0, before := global, minus;
      global := Remove(global, u, v);
      var m := minus;
      for w := 0 to n
        invariant global == Removed(g0, u, v) && edges == old(edges) && |m| == n
        invariant forall i :: 0 <= i < w ==> RemovedAt(before[i], m[i], i, u, v)
        invariant forall i :: w <= i < n ==> m[i] == before[i]
      {
        if w == u || w == v {
          continue;
        }
        assert ExclusionOk(g0, before[w], n, w);
        var r := Remove(m[w], u, v);
        m := m[w := r];
      }
      RemoveKeepsConsistent(g0, before, m, n, u, v);
      minus := m;
    }

    /** The probe loop of are_biconnected over the spliced path: fails on an
        empty path, otherwise tests the interior vertices left to right and
        stops at the first whose two path neighbours are apart in G - {w};
        chainLen counts the tests made. */
    method ProbeChain(path: seq<nat>) returns (biconnected: bool, chainLen: nat)
      requires |path| != 1 && forall i :: 0 <= i < |path| ==> path[i] < |minus|
      ensures |path| == 0 ==> !biconnected && chainLen == 0
      ensures biconnected <==> |path| >= 2 && forall i :: 0 < i < |path| - 1 ==> Passes(minus, path, i)
      ensures biconnected ==> chainLen == |path| - 2
      ensures !biconnected && |path| >= 2 ==>
        && 0 < chainLen < |path| - 1
        && !Passes(minus, path, chainLen)
        && forall i :: 0 < i < chainLen ==> Passes(minus, path, i)
    {
      chainLen := 0;
      if |path| == 0 {
        return false, 0;
      }
      var i := 1;
      biconnected := true;
      while i != |path| - 1
        invariant 1 <= i <= |path| - 1
        invariant chainLen == i - 1 && biconnected
        invariant forall j :: 0 < j < i ==> Passes(minus, path, j)
        decreases |path| - 1 - i
      {
        var w, x, y := path[i], path[i - 1], path[i + 1];
        chainLen := chainLen + 1;
        if !Connected(minus[w].forest, x, y) {
          assert !Passes(minus, path, i);
          biconnected := false;
          break;
        }
        i := i + 1;
      }
    }

    /** are_biconnected: tu and tv are the auxiliary trees of the two queried
        vertices after `access`, and lca is what the second access returned.
        The two trees are listed in order, spliced into the tree path and
        probed. */
    method AreBiconnected(tu: Tree, tv: Tree, lca: nat) returns (biconnected: bool, chainLen: nat)
      requires |minus| == n
      requires Size(tu) > 0 && Size(tv) > 0
      requires forall x :: x in InOrder(tu) ==> x < n
      requires forall x :: x in InOrder(tv) ==> x < n
      requires InOrder(tu)[Size(tu) - 1] == InOrder(tv)[Size(tv) - 1] ==> lca in InOrder(tv)
      requires |Splice(InOrder(tu), InOrder(tv), lca)| != 1
      ensures var path := Splice(InOrder(tu), InOrder(tv), lca);
        && (|path| == 0 ==> !biconnected && chainLen == 0)
        && (biconnected <==> |path| >= 2 && forall i :: 0 < i < |path| - 1 ==> Passes(minus, path, i))
        && (biconnected ==> chainLen == |path| - 2)
        && (!biconnected && |path| >= 2 ==>
              && 0 < chainLen < |path| - 1
              && !Passes(minus, path, chainLen)
              && forall i :: 0 < i < chainLen ==> Passes(minus, path, i))
    {
      var pathToU := UndirectedFromRoot(tu);
      var pathToV := UndirectedFromRoot(tv);
      var path := UndirectedPath(pathToU, pathToV, lca);
      biconnected, chainLen := ProbeChain(path);
    }

    /** One input line of main, without its output: an ADD of a new edge or a
        REM of a present edge updates the edge set and the indexes; repeated
        ADDs, REMs of absent edges and queries leave the state alone. */
    method Dispatch(op: int, u: nat, v: nat)
      requires Valid() && (op == ADD ==> u < n && v < n)
      modifies this
      ensures Valid()
      ensures op == ADD ==> edges == old(edges) + {Key(u, v)}
      ensures op == REM ==> edges == old(edges) - {Key(u, v)}
      ensures op == ADD && Key(u, v) !in old(edges) ==>
        && global == Add(old(global), u, v)
        && forall w :: 0 <= w < n ==> AddedAt(old(minus[w]), minus[w], w, u, v)
      ensures op == REM && Key(u, v) in old(edges) ==>
        && global == Removed(old(global), u, v)
        && forall w :: 0 <= w < n ==> RemovedAt(old(minus[w]), minus[w], w, u, v)
      ensures op == ADD && Key(u, v) in old(edges) ==> unchanged(this)
      ensures op == REM && Key(u, v) !in old(edges) ==> unchanged(this)
      ensures op != ADD && op != REM ==> unchanged(this)
    {
      var key := Key(u, v);
      if op == ADD {
        if key !in edges {
          edges := edges + {key};
          AddEdge(u, v);
        }
      } else if op == REM {
        if key in edges {
          RemovedKeys(global, u, v);
          edges := edges - {key};
          RemoveEdge(u, v);
        }
      }
    }
  }
}
