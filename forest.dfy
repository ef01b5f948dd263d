/** The spanning forest kept by a link-cut tree (`LinkCut::link`, `cut`,
    `root`), modelled by its set of tree edges. Two vertices have the same
    root exactly when they are connected through tree edges; connectivity is
    computed as the least vertex set, containing the start, that no tree edge
    leaves. */
module Forest {
  import opened Pairing

  /** A forest over vertex ids, as its set of tree edges in canonical form. */
  type Forest = set<Endpoints>

  /** No edge of f has exactly one endpoint in t: t is a union of trees. */
  ghost predicate Closed(f: Forest, t: set<nat>)
  {
    forall e :: e in f ==> (e.0 in t <==> e.1 in t)
  }

  /** The vertices one edge away from s. */
  function Neighbours(f: Forest, s: set<nat>): set<nat>
  {
    (set e | e in f && e.0 in s :: e.1) + (set e | e in f && e.1 in s :: e.0)
  }

  /** Every vertex that some edge of f touches. */
  function Ends(f: Forest): (r: set<nat>)
    ensures forall s :: Neighbours(f, s) <= r
  {
    (set e | e in f :: e.0) + (set e | e in f :: e.1)
  }

  lemma {:induction false} SubsetNotLarger(a: set<nat>, b: set<nat>)
    requires a <= b
    ensures |a| <= |b|
    decreases |a|
  {
    if a != {} {
      var x :| x in a;
      SubsetNotLarger(a - {x}, b - {x});
    }
  }

  lemma StrictSubsetSmaller(a: set<nat>, b: set<nat>)
    requires a < b
    ensures |a| < |b|
  {
    assert !(b <= a);
    var x :| x in b && x !in a;
    SubsetNotLarger(a, b - {x});
  }

  /** The vertices reachable from s through tree edges. */
  function Closure(f: Forest, s: set<nat>): (c: set<nat>)
    ensures s <= c && Closed(f, c)
    decreases |Ends(f) - s|
  {
    var next := s + Neighbours(f, s);
    if next <= s then s
    else
      StrictSubsetSmaller(Ends(f) - next, Ends(f) - s);
      Closure(f, next)
  }

  /** Closure(f, s) is the least closed superset of s. */
  lemma {:induction false} ClosureLeast(f: Forest, s: set<nat>, t: set<nat>)
    requires s <= t && Closed(f, t)
    ensures Closure(f, s) <= t
    decreases |Ends(f) - s|
  {
    var next := s + Neighbours(f, s);
    if !(next <= s) {
      StrictSubsetSmaller(Ends(f) - next, Ends(f) - s);
      ClosureLeast(f, next, t);
    }
  }

  /** a and b lie in one tree of f: the model of `root(a) == root(b)`. */
  predicate Connected(f: Forest, a: nat, b: nat)
  {
    b in Closure(f, {a})
  }

  /** {a, b} is a tree edge of f. */
  predicate HasEdge(f: Forest, a: nat, b: nat)
  {
    Canonical(a, b) in f
  }

  /** Every tree edge is a bridge: without it its endpoints are disconnected. */
  ghost predicate Acyclic(f: Forest)
  {
    forall e :: e in f ==> !Connected(f - {e}, e.0, e.1)
  }

  lemma ConnectedSymmetric(f: Forest, a: nat, b: nat)
    requires Connected(f, a, b)
    ensures Connected(f, b, a)
  {
    if !Connected(f, b, a) {
      var t := Closure(f, {a}) - Closure(f, {b});
      ClosureLeast(f, {a}, t);
    }
  }

  lemma ConnectedTransitive(f: Forest, a: nat, b: nat, c: nat)
    requires Connected(f, a, b) && Connected(f, b, c)
    ensures Connected(f, a, c)
  {
    ClosureLeast(f, {b}, Closure(f, {a}));
  }

  /** Adding edges never disconnects anything. */
  lemma ConnectedMonotone(f: Forest, g: Forest, a: nat, b: nat)
    requires f <= g && Connected(f, a, b)
    ensures Connected(g, a, b)
  {
    ClosureLeast(f, {a}, Closure(g, {a}));
  }

  /** The endpoints of a tree edge are connected, both ways round. */
  lemma EdgeConnects(f: Forest, e: Endpoints)
    requires e in f
    ensures Connected(f, e.0, e.1) && Connected(f, e.1, e.0)
  {
    assert e.0 in Closure(f, {e.0});
    ConnectedSymmetric(f, e.0, e.1);
  }

  lemma HasEdgeConnects(f: Forest, a: nat, b: nat)
    requires HasEdge(f, a, b)
    ensures Connected(f, a, b) && Connected(f, b, a)
  {
    EdgeConnects(f, Canonical(a, b));
  }

  /** After adding the edge {a, b}, a pair that was apart is joined only through it. */
  lemma {:induction false} JoinedThroughNewEdge(g: Forest, a: nat, b: nat, x: nat, y: nat)
    requires Connected(g + {Canonical(a, b)}, x, y) && !Connected(g, x, y)
    ensures (Connected(g, x, a) && Connected(g, b, y)) || (Connected(g, x, b) && Connected(g, a, y))
  {
    var h := g + {Canonical(a, b)};
    var cx := Closure(g, {x});
    if a !in cx && b !in cx {
      ClosureLeast(h, {x}, cx);
    } else if a in cx {
      var t := cx + Closure(g, {b});
      assert b in Closure(g, {b});
      ClosureLeast(h, {x}, t);
    } else {
      var t := cx + Closure(g, {a});
      assert a in Closure(g, {a});
      ClosureLeast(h, {x}, t);
    }
  }

  /** link(a, b): join two different trees by the edge {a, b}. */
  function Link(f: Forest, a: nat, b: nat): (g: Forest)
    requires !Connected(f, a, b)
    ensures f < g && HasEdge(g, a, b) && Connected(g, a, b)
    ensures Acyclic(f) ==> Acyclic(g)
  {
    var g := f + {Canonical(a, b)};
    HasEdgeConnects(g, a, b);
    LinkKeepsAcyclic(f, a, b);
    g
  }

  /** Linking across two trees keeps the forest acyclic. */
  lemma LinkKeepsAcyclic(f: Forest, a: nat, b: nat)
    requires !Connected(f, a, b)
    ensures Acyclic(f) ==> Acyclic(f + {Canonical(a, b)})
  {
    var n := Canonical(a, b);
    var h := f + {n};
    if Acyclic(f) {
      if n in f {
        HasEdgeConnects(f, a, b);
      }
      forall e | e in h
        ensures !Connected(h - {e}, e.0, e.1)
      {
        if e == n {
          assert h - {e} == f;
          if Connected(f, e.0, e.1) && e.0 != a {
            ConnectedSymmetric(f, b, a);
          }
        } else {
          assert h - {e} == f - {e} + {n};
          OldEdgeStaysBridge(f, a, b, e);
        }
      }
    }
  }

  /** Helper of LinkKeepsAcyclic: an old tree edge is still a bridge after the link. */
  lemma OldEdgeStaysBridge(f: Forest, a: nat, b: nat, e: Endpoints)
    requires e in f && !Connected(f - {e}, e.0, e.1) && !Connected(f, a, b)
    ensures !Connected(f - {e} + {Canonical(a, b)}, e.0, e.1)
  {
    var g := f - {e};
    if Connected(g + {Canonical(a, b)}, e.0, e.1) {
      JoinedThroughNewEdge(g, a, b, e.0, e.1);
      if Connected(g, e.0, a) && Connected(g, b, e.1) {
        JoinedAround(f, e, a, b);
      } else {
        JoinedAround(f, e, b, a);
        ConnectedSymmetric(f, b, a);
      }
    }
  }

  /** Helper of OldEdgeStaysBridge: a reaches e.0, e runs to e.1, e.1 reaches b. */
  lemma JoinedAround(f: Forest, e: Endpoints, a: nat, b: nat)
    requires e in f && Connected(f - {e}, e.0, a) && Connected(f - {e}, b, e.1)
    ensures Connected(f, a, b)
  {
    var g := f - {e};
    EdgeConnects(f, e);
    ConnectedMonotone(g, f, e.0, a);
    ConnectedMonotone(g, f, b, e.1);
    ConnectedSymmetric(f, e.0, a);
    ConnectedTransitive(f, a, e.0, e.1);
    ConnectedSymmetric(f, b, e.1);
    ConnectedTransitive(f, a, e.1, b);
  }

  /** cut(a, b): remove the tree edge {a, b}, splitting its tree in two. */
  function Cut(f: Forest, a: nat, b: nat): (g: Forest)
    requires HasEdge(f, a, b)
    ensures g < f && !HasEdge(g, a, b)
    ensures Acyclic(f) ==> Acyclic(g) && !Connected(g, a, b)
  {
    var g := f - {Canonical(a, b)};
    CutKeepsAcyclic(f, a, b);
    g
  }

  /** Removing a tree edge keeps the forest acyclic and separates its endpoints. */
  lemma CutKeepsAcyclic(f: Forest, a: nat, b: nat)
    requires HasEdge(f, a, b)
    ensures Acyclic(f) ==> Acyclic(f - {Canonical(a, b)}) && !Connected(f - {Canonical(a, b)}, a, b)
  {
    var c := Canonical(a, b);
    var g := f - {c};
    if Acyclic(f) {
      forall e | e in g
        ensures !Connected(g - {e}, e.0, e.1)
      {
        if Connected(g - {e}, e.0, e.1) {
          ConnectedMonotone(g - {e}, f - {e}, e.0, e.1);
        }
      }
      if Connected(g, a, b) {
        if c.0 != a {
          ConnectedSymmetric(g, a, b);
        }
      }
    }
  }

  /** After cutting e, every vertex of e's old tree still reaches one of e's endpoints. */
  lemma CutSides(f: Forest, e: Endpoints, z: nat)
    requires e in f && Connected(f, e.0, z)
    ensures Connected(f - {e}, e.0, z) || Connected(f - {e}, e.1, z)
  {
    var g := f - {e};
    var t := Closure(g, {e.0}) + Closure(g, {e.1});
    assert e.1 in Closure(g, {e.1});
    ClosureLeast(f, {e.0}, t);
  }

  /** Cutting e leaves every tree other than e's own untouched. */
  lemma AwayFromCut(f: Forest, e: Endpoints, x: nat, y: nat)
    requires e in f && !Connected(f, e.0, x) && Connected(f, x, y)
    ensures Connected(f - {e}, x, y)
  {
    var g := f - {e};
    var cx := Closure(g, {x});
    if e.0 in cx {
      ConnectedMonotone(g, f, x, e.0);
      ConnectedSymmetric(f, x, e.0);
    }
    if e.1 in cx {
      ConnectedMonotone(g, f, x, e.1);
      EdgeConnects(f, e);
      ConnectedTransitive(f, x, e.1, e.0);
      ConnectedSymmetric(f, x, e.0);
    }
    ClosureLeast(f, {x}, cx);
  }

  /** Cutting tree edge e and linking p-q, which crossed the cut, reconnects
      every pair that was connected before the cut. */
  lemma ReplacementReconnects(f: Forest, e: Endpoints, p: nat, q: nat, x: nat, y: nat)
    requires e in f
    requires Connected(f, p, q) && !Connected(f - {e}, p, q)
    requires Connected(f, x, y)
    ensures Connected(f - {e} + {Canonical(p, q)}, x, y)
  {
    var g := f - {e};
    var h := g + {Canonical(p, q)};
    var a, b := e.0, e.1;
    if Connected(g, x, y) {
      ConnectedMonotone(g, h, x, y);
      return;
    }
    // Both pairs must lie in e's tree, else the cut would not separate them.
    if !Connected(f, a, x) {
      AwayFromCut(f, e, x, y);
    }
    if !Connected(f, a, p) {
      AwayFromCut(f, e, p, q);
    }
    ConnectedTransitive(f, a, x, y);
    ConnectedTransitive(f, a, p, q);
    // The two sides of the cut are joined in h through p-q.
    assert Connected(h, a, b) by {
      HasEdgeConnects(h, p, q);
      CutSides(f, e, p);
      CutSides(f, e, q);
      if Connected(g, a, p) {
        if Connected(g, a, q) {
          ConnectedSymmetric(g, a, p);
          ConnectedTransitive(g, p, a, q);
        }
        ConnectedMonotone(g, h, a, p);
        ConnectedMonotone(g, h, b, q);
        ConnectedTransitive(h, a, p, q);
        ConnectedSymmetric(h, b, q);
        ConnectedTransitive(h, a, q, b);
      } else {
        if Connected(g, b, q) {
          ConnectedSymmetric(g, b, p);
          ConnectedTransitive(g, p, b, q);
        }
        ConnectedMonotone(g, h, b, p);
        ConnectedMonotone(g, h, a, q);
        ConnectedSymmetric(h, q, p);
        ConnectedTransitive(h, a, q, p);
        ConnectedSymmetric(h, b, p);
        ConnectedTransitive(h, a, p, b);
      }
    }
    ReachesFromA(f, e, h, x);
    ReachesFromA(f, e, h, y);
    ConnectedSymmetric(h, a, x);
    ConnectedTransitive(h, x, a, y);
  }

  /** Helper of ReplacementReconnects: once h joins e's two sides, every vertex of
      e's old tree is reached from e.0 in h. */
  lemma ReachesFromA(f: Forest, e: Endpoints, h: Forest, z: nat)
    requires e in f && f - {e} <= h && Connected(h, e.0, e.1) && Connected(f, e.0, z)
    ensures Connected(h, e.0, z)
  {
    var g := f - {e};
    CutSides(f, e, z);
    if Connected(g, e.0, z) {
      ConnectedMonotone(g, h, e.0, z);
    } else {
      ConnectedMonotone(g, h, e.1, z);
      ConnectedTransitive(h, e.0, e.1, z);
    }
  }
}
