/** One spanning-forest index: a forest together with the keys of its tree
    edges and the keys of the remaining (cyclic) edges. The global structure
    (`VG`, `tree_edges`, `cyclic_edges`) and each exclusion structure for
    G - {w} (`VGmu[w]`, `EGmu[w]`, `EGmEGmu[w]`) are values of this type. */
module Spanning {
  import opened Pairing
  import opened Forest

  datatype Option<T> = None | Some(value: T)

  datatype Index = Index(forest: Forest, tree: set<nat>, cyclic: set<nat>)

  /** The keys of all edges the index holds. */
  function Keys(ix: Index): set<nat>
  {
    ix.tree + ix.cyclic
  }

  /** The forest edges named by a set of keys. */
  function EdgesOf(keys: set<nat>): set<Endpoints>
  {
    set k | k in keys :: Inv(k)
  }

  /** The edge with key k joins two different trees of f. */
  predicate Crosses(f: Forest, k: nat)
  {
    var e := Inv(k);
    !Connected(f, e.0, e.1)
  }

  /** The invariant of an index over vertices 0 .. n-1: tree and cyclic keys
      are disjoint, the forest holds exactly the tree edges and is acyclic,
      the endpoints of every cyclic edge are connected by the forest, and every
      key names vertices below n. */
  ghost predicate WellFormed(ix: Index, n: nat)
  {
    && ix.tree !! ix.cyclic
    && ix.forest == EdgesOf(ix.tree)
    && (forall a: nat, b: nat :: Key(a, b) in ix.tree ==> HasEdge(ix.forest, a, b))
    && (forall k :: k in Keys(ix) ==> Inv(k).1 < n)
    && Acyclic(ix.forest)
    && (forall k :: k in ix.cyclic ==> !Crosses(ix.forest, k))
  }

  /** The empty index: no edges at all. */
  function Empty(): (ix: Index)
    ensures Keys(ix) == {} && forall n: nat :: WellFormed(ix, n)
  {
    Index({}, {}, {})
  }

  /** add_edge, global part: link u and v when they lie in different trees
      and record a tree edge, otherwise record a cyclic edge and leave the
      forest alone. The caller never adds a key twice. */
  function Add(ix: Index, u: nat, v: nat): (r: Index)
    requires Key(u, v) !in Keys(ix)
    ensures Key(u, v) in r.tree <==> !Connected(ix.forest, u, v)
    ensures Key(u, v) in r.cyclic <==> Connected(ix.forest, u, v)
    ensures Keys(r) == Keys(ix) + {Key(u, v)}
    ensures Connected(ix.forest, u, v) ==> r.forest == ix.forest && r.tree == ix.tree
    ensures !Connected(ix.forest, u, v) ==> r.forest == Link(ix.forest, u, v) && r.cyclic == ix.cyclic
  {
    var key := Key(u, v);
    if !Connected(ix.forest, u, v) then
      Index(Link(ix.forest, u, v), ix.tree + {key}, ix.cyclic)
    else
      Index(ix.forest, ix.tree, ix.cyclic + {key})
  }

  /** add_edge, part for one exclusion structure: nothing happens when {u, v}
      is already a tree edge there; otherwise the same classification as Add. */
  function AddExcluding(ix: Index, u: nat, v: nat): (r: Index)
    ensures HasEdge(ix.forest, u, v) ==> r == ix
    ensures !HasEdge(ix.forest, u, v) ==>
      && Keys(r) == Keys(ix) + {Key(u, v)}
      && (!Connected(ix.forest, u, v) ==> Key(u, v) in r.tree)
      && (Connected(ix.forest, u, v) ==> Key(u, v) in r.cyclic)
      && (!Connected(ix.forest, u, v) ==> r.forest == Link(ix.forest, u, v) && r.cyclic == ix.cyclic)
    ensures Connected(ix.forest, u, v) ==> r.forest == ix.forest && r.tree == ix.tree
  {
    var key := Key(u, v);
    if HasEdge(ix.forest, u, v) then ix
    else if !Connected(ix.forest, u, v) then
      Index(Link(ix.forest, u, v), ix.tree + {key}, ix.cyclic)
    else if key !in ix.cyclic then
      Index(ix.forest, ix.tree, ix.cyclic + {key})
    else ix
  }

  /** The least key of a non-empty set: the first one a `std::set` iterator visits. */
  ghost function Min(c: set<nat>): (m: nat)
    requires c != {}
    ensures m in c && forall j :: j in c ==> m <= j
    decreases |c|
  {
    var x :| x in c;
    if c == {x} then x
    else
      var m := Min(c - {x});
      assert forall j :: j in c ==> j == x || j in c - {x};
      if x < m then x else m
  }

  /** The keys of c whose edges cross between two trees of f. */
  function Crossing(f: Forest, c: set<nat>): set<nat>
  {
    set k | k in c && Crosses(f, k)
  }

  /** The replacement edge: the least key of c whose edge crosses between two
      trees of f, if there is one. */
  ghost function FirstCrossing(f: Forest, c: set<nat>): (r: Option<nat>)
    ensures r.Some? ==> r.value in c && Crosses(f, r.value)
    ensures r.Some? ==> forall k :: k in c && k < r.value ==> !Crosses(f, k)
    ensures r.None? <==> forall k :: k in c ==> !Crosses(f, k)
  {
    var x := Crossing(f, c);
    assert forall k :: k in c && Crosses(f, k) ==> k in x;
    if x == {} then None else Some(Min(x))
  }

  /** remove_edge on one index: a cyclic edge is only erased (an absent key
      changes nothing); a tree edge is cut and the first cyclic edge that now
      crosses between the two halves, if any, is linked and becomes a tree edge. */
  ghost function Removed(ix: Index, u: nat, v: nat): Index
    requires Key(u, v) in ix.tree ==> HasEdge(ix.forest, u, v)
  {
    var key := Key(u, v);
    if key !in ix.tree then
      Index(ix.forest, ix.tree, ix.cyclic - {key})
    else
      var cut := Cut(ix.forest, u, v);
      match FirstCrossing(cut, ix.cyclic)
      case None => Index(cut, ix.tree - {key}, ix.cyclic)
      case Some(k) => Index(Link(cut, Inv(k).0, Inv(k).1), ix.tree - {key} + {k}, ix.cyclic - {k})
  }

  /** The replacement search of remove_edge: walk the cyclic keys in
      increasing order and stop at the first whose endpoints now have
      different roots. */
  method FindReplacement(f: Forest, c: set<nat>) returns (r: Option<nat>)
    ensures r == FirstCrossing(f, c)
  {
    var rest := c;
    while rest != {}
      invariant rest <= c
      invariant forall j :: j in c - rest ==> !Crosses(f, j)
      invariant forall j, i :: j in c - rest && i in rest ==> j < i
      decreases rest
    {
      assert Min(rest) in rest;
      var k :| k in rest && forall j :: j in rest ==> k <= j;
      if Crosses(f, k) {
        FirstCrossingIs(f, c, rest, k);
        return Some(k);
      }
      VisitNonCrossing(f, c, rest, k);
      VisitLeast(c, rest, k);
      rest := rest - {k};
    }
    return None;
  }

  /** Helper of FindReplacement: visiting a key that does not cross keeps
      "no visited key crosses". */
  lemma VisitNonCrossing(f: Forest, c: set<nat>, rest: set<nat>, k: nat)
    requires !Crosses(f, k)
    requires forall j :: j in c - rest ==> !Crosses(f, j)
    ensures forall j :: j in c - (rest - {k}) ==> !Crosses(f, j)
  {
    forall j | j in c - (rest - {k})
      ensures !Crosses(f, j)
    {
      if j != k {
        assert j in c - rest;
      }
    }
  }

  /** Helper of FindReplacement: visiting the least unvisited key keeps every
      visited key below every unvisited one. */
  lemma VisitLeast(c: set<nat>, rest: set<nat>, k: nat)
    requires k in rest && forall j :: j in rest ==> k <= j
    requires forall j, i :: j in c - rest && i in rest ==> j < i
    ensures forall j, i :: j in c - (rest - {k}) && i in rest - {k} ==> j < i
  {
    forall j, i | j in c - (rest - {k}) && i in rest - {k}
      ensures j < i
    {
      if j != k {
        assert j in c - rest;
      }
    }
  }

  /** Helper of FindReplacement: the least unvisited key, once it crosses, is
      the answer when no visited key crosses. */
  lemma FirstCrossingIs(f: Forest, c: set<nat>, rest: set<nat>, k: nat)
    requires rest <= c && k in rest && Crosses(f, k)
    requires forall j :: j in rest ==> k <= j
    requires forall j :: j in c - rest ==> !Crosses(f, j)
    ensures FirstCrossing(f, c) == Some(k)
  {
  }

  /** remove_edge on one index. */
  method Remove(ix: Index, u: nat, v: nat) returns (r: Index)
    requires Key(u, v) in ix.tree ==> HasEdge(ix.forest, u, v)
    ensures r == Removed(ix, u, v)
  {
    var key := Key(u, v);
    if key !in ix.tree {
      return Index(ix.forest, ix.tree, ix.cyclic - {key});
    }
    var forest := Cut(ix.forest, u, v);
    var found := FindReplacement(forest, ix.cyclic);
    match found
    case None =>
      r := Index(forest, ix.tree - {key}, ix.cyclic);
    case Some(k) =>
      var e := Inv(k);
      r := Index(Link(forest, e.0, e.1), ix.tree - {key} + {k}, ix.cyclic - {k});
  }

  /** Distinct keys name distinct edges. */
  lemma InvInjective(j: nat, k: nat)
    requires Inv(j) == Inv(k)
    ensures j == k
  {
    KeyInv(j);
    KeyInv(k);
  }

  lemma EdgesOfInsert(keys: set<nat>, k: nat)
    ensures EdgesOf(keys + {k}) == EdgesOf(keys) + {Inv(k)}
  {
    assert Inv(k) in EdgesOf(keys + {k});
  }

  lemma EdgesOfErase(keys: set<nat>, k: nat)
    requires k in keys
    ensures EdgesOf(keys - {k}) == EdgesOf(keys) - {Inv(k)}
  {
    forall j | j in keys - {k}
      ensures Inv(j) != Inv(k)
    {
      if Inv(j) == Inv(k) {
        InvInjective(j, k);
      }
    }
  }

  /** When the forest holds exactly the tree edges, every tree key names a
      tree edge, which is what Removed and Remove need of their caller. */
  lemma TreeKeysAreEdges(ix: Index)
    requires ix.forest == EdgesOf(ix.tree)
    ensures forall a: nat, b: nat :: Key(a, b) in ix.tree ==> HasEdge(ix.forest, a, b)
  {
    forall a: nat, b: nat | Key(a, b) in ix.tree
      ensures HasEdge(ix.forest, a, b)
    {
      InvKey(a, b);
    }
  }

  /** The endpoints of an edge are connected exactly when its key does not cross. */
  lemma CrossesKey(f: Forest, u: nat, v: nat)
    ensures Crosses(f, Key(u, v)) <==> !Connected(f, u, v)
  {
    InvKey(u, v);
    if Connected(f, u, v) {
      ConnectedSymmetric(f, u, v);
    }
    if Connected(f, v, u) {
      ConnectedSymmetric(f, v, u);
    }
  }

  /** add_edge keeps the global index well formed. */
  lemma AddKeepsWellFormed(ix: Index, n: nat, u: nat, v: nat)
    requires WellFormed(ix, n) && u < n && v < n && Key(u, v) !in Keys(ix)
    ensures WellFormed(Add(ix, u, v), n)
  {
    var key := Key(u, v);
    var r := Add(ix, u, v);
    InvKey(u, v);
    CrossesKey(ix.forest, u, v);
    if !Connected(ix.forest, u, v) {
      EdgesOfInsert(ix.tree, key);
      forall k | k in r.cyclic
        ensures !Crosses(r.forest, k)
      {
        ConnectedMonotone(ix.forest, r.forest, Inv(k).0, Inv(k).1);
      }
    }
    TreeKeysAreEdges(r);
  }

  /** For an edge the index does not yet hold, the per-exclusion add agrees
      with the global one: the "already a tree edge" test and the "already a
      cyclic edge" test never fire. */
  lemma AddExcludingIsAdd(ix: Index, n: nat, u: nat, v: nat)
    requires WellFormed(ix, n) && Key(u, v) !in Keys(ix)
    ensures AddExcluding(ix, u, v) == Add(ix, u, v)
  {
    if HasEdge(ix.forest, u, v) {
      var e := Canonical(u, v);
      var j :| j in ix.tree && Inv(j) == e;
      InvKey(u, v);
      InvInjective(j, Key(u, v));
    }
  }

  /** remove_edge keeps an index well formed: the cut forest plus the
      replacement, if any, still holds exactly the tree edges, is acyclic and
      keeps the endpoints of every remaining cyclic edge connected. */
  lemma RemovedKeepsWellFormed(ix: Index, n: nat, u: nat, v: nat)
    requires WellFormed(ix, n)
    ensures WellFormed(Removed(ix, u, v), n)
  {
    var key := Key(u, v);
    if key in ix.tree {
      var e := Canonical(u, v);
      InvKey(u, v);
      var cut := Cut(ix.forest, u, v);
      EdgesOfErase(ix.tree, key);
      match FirstCrossing(cut, ix.cyclic)
      case None =>
        TreeKeysAreEdges(Removed(ix, u, v));
      case Some(k) =>
        PromotedKeepsWellFormed(ix, n, e, key, k);
    }
  }

  /** Helper of RemovedKeepsWellFormed: the case where cyclic key k replaces the
      cut tree edge e. */
  lemma PromotedKeepsWellFormed(ix: Index, n: nat, e: Endpoints, key: nat, k: nat)
    requires WellFormed(ix, n) && key in ix.tree && Inv(key) == e
    requires k in ix.cyclic && Crosses(ix.forest - {e}, k)
    ensures e in ix.forest
    ensures !Connected(ix.forest - {e}, Inv(k).0, Inv(k).1)
    ensures WellFormed(Index(Link(ix.forest - {e}, Inv(k).0, Inv(k).1), ix.tree - {key} + {k}, ix.cyclic - {k}), n)
  {
    var f := ix.forest;
    var cut := f - {e};
    var p, q := Inv(k).0, Inv(k).1;
    var g := Link(cut, p, q);
    var r := Index(g, ix.tree - {key} + {k}, ix.cyclic - {k});
    EdgesOfErase(ix.tree, key);
    EdgesOfInsert(ix.tree - {key}, k);
    assert Acyclic(cut) by {
      assert f - {Canonical(e.0, e.1)} == cut;
      CutKeepsAcyclic(f, e.0, e.1);
    }
    forall j | j in r.cyclic
      ensures !Crosses(g, j)
    {
      ReplacementReconnects(f, e, p, q, Inv(j).0, Inv(j).1);
    }
    TreeKeysAreEdges(r);
  }

  /** What remove_edge does to the key sets: the key leaves the index, at most
      one cyclic key is promoted to a tree key, and removing a cyclic or
      absent key leaves the forest and the tree keys alone. */
  lemma RemovedKeys(ix: Index, u: nat, v: nat)
    requires ix.tree !! ix.cyclic
    requires Key(u, v) in ix.tree ==> HasEdge(ix.forest, u, v)
    ensures Keys(Removed(ix, u, v)) == Keys(ix) - {Key(u, v)}
    ensures Removed(ix, u, v).tree !! Removed(ix, u, v).cyclic
    ensures Removed(ix, u, v).tree - ix.tree <= ix.cyclic
    ensures forall j, k :: j in Removed(ix, u, v).tree - ix.tree && k in Removed(ix, u, v).tree - ix.tree ==> j == k
    ensures Key(u, v) !in ix.tree ==> Removed(ix, u, v).forest == ix.forest && Removed(ix, u, v).tree == ix.tree
    ensures Key(u, v) !in Keys(ix) ==> Removed(ix, u, v) == ix
  {
    var key := Key(u, v);
    if key in ix.tree {
      var cut := Cut(ix.forest, u, v);
      match FirstCrossing(cut, ix.cyclic)
      case None =>
      case Some(k) =>
        assert Removed(ix, u, v).tree - ix.tree == {k};
    }
  }

  /** Removing an edge right after adding it restores the index: a new tree
      edge is cut again and, since no cyclic edge crossed before the link, no
      replacement is found. */
  lemma RemoveUndoesAdd(ix: Index, n: nat, u: nat, v: nat)
    requires WellFormed(ix, n) && u < n && v < n && Key(u, v) !in Keys(ix)
    ensures WellFormed(Add(ix, u, v), n)
    ensures Removed(Add(ix, u, v), u, v) == ix
  {
    var key := Key(u, v);
    var r := Add(ix, u, v);
    AddKeepsWellFormed(ix, n, u, v);
    if key in r.tree {
      assert Cut(r.forest, u, v) == ix.forest;
      assert FirstCrossing(ix.forest, ix.cyclic).None?;
    }
  }
}
