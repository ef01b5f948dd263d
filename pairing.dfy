/** Edge identities: `pairing_function` and `inv`, modelled as the triangular
    bijection between unordered vertex pairs and the natural numbers. The pair
    {a, b} with a <= b is numbered Triangle(b) + a, so the pairs whose larger
    vertex is m fill the keys Triangle(m) .. Triangle(m) + m. */
module Pairing {

  /** The endpoints of an unordered pair, smaller vertex first. */
  type Endpoints = (nat, nat)

  /** The canonical form of the unordered pair {a, b}. */
  function Canonical(a: nat, b: nat): (e: Endpoints)
    ensures e.0 <= e.1
    ensures (e.0 == a && e.1 == b) || (e.0 == b && e.1 == a)
  {
    if a <= b then (a, b) else (b, a)
  }

  /** 0 + 1 + ... + m. */
  function Triangle(m: nat): (t: nat)
    ensures t >= m
  {
    if m == 0 then 0 else Triangle(m - 1) + m
  }

  lemma {:induction false} TriangleMonotone(i: nat, j: nat)
    requires i <= j
    ensures Triangle(i) <= Triangle(j)
    decreases j - i
  {
    if i < j {
      TriangleMonotone(i, j - 1);
    }
  }

  /** The edge key of the unordered pair {a, b} (`pairing_function`). */
  function Key(a: nat, b: nat): nat
  {
    var e := Canonical(a, b);
    Triangle(e.1) + e.0
  }

  /** The diagonal d <= m with Triangle(d) <= k < Triangle(d + 1), searched downward from m. */
  function Diagonal(k: nat, m: nat): (d: nat)
    requires k < Triangle(m + 1)
    ensures d <= m && Triangle(d) <= k < Triangle(d + 1)
  {
    if Triangle(m) <= k then m else Diagonal(k, m - 1)
  }

  /** The endpoints of the edge with key k (`inv`). */
  function Inv(k: nat): (e: Endpoints)
    ensures e.0 <= e.1
  {
    var m := Diagonal(k, k);
    (k - Triangle(m), m)
  }

  /** Encoding the decoded endpoints gives the key back (Inv is a right inverse of Key). */
  lemma KeyInv(k: nat)
    ensures Key(Inv(k).0, Inv(k).1) == k
  {
  }

  /** Only one diagonal holds a given key. */
  lemma DiagonalUnique(k: nat, d: nat, d': nat)
    requires Triangle(d) <= k < Triangle(d + 1)
    requires Triangle(d') <= k < Triangle(d' + 1)
    ensures d == d'
  {
    if d < d' {
      TriangleMonotone(d + 1, d');
    } else if d' < d {
      TriangleMonotone(d' + 1, d);
    }
  }

  /** Decoding a key gives back the pair it was made from (Inv is a left inverse of Key). */
  lemma InvKey(a: nat, b: nat)
    ensures Inv(Key(a, b)) == Canonical(a, b)
  {
    var e := Canonical(a, b);
    var k := Key(a, b);
    assert Triangle(e.1) <= k < Triangle(e.1 + 1);
    DiagonalUnique(k, e.1, Diagonal(k, k));
  }

  /** Two pairs share a key exactly when they are the same unordered pair. */
  lemma KeyInjective(a: nat, b: nat, c: nat, d: nat)
    ensures Key(a, b) == Key(c, d) <==> Canonical(a, b) == Canonical(c, d)
  {
    InvKey(a, b);
    InvKey(c, d);
  }
}
