/** Tree paths read off a link-cut tree after `access`: `undirected_from_root`
    lists the auxiliary tree of a preferred path in order, and
    `undirected_path` splices the two listed paths of a query into the path
    between the queried vertices. A node is identified by its vertex id. */
module Paths {

  /** An auxiliary (splay) tree of a link-cut tree, by vertex ids. */
  datatype Tree = Nil | Node(left: Tree, id: nat, right: Tree)

  function Size(t: Tree): nat
  {
    match t
    case Nil => 0
    case Node(l, _, r) => Size(l) + 1 + Size(r)
  }

  /** The ids of t, left subtree first. */
  function InOrder(t: Tree): (s: seq<nat>)
    ensures |s| == Size(t)
  {
    match t
    case Nil => []
    case Node(l, x, r) => InOrder(l) + [x] + InOrder(r)
  }

  /** Whether vertex x occurs in t. */
  predicate Holds(t: Tree, x: nat)
  {
    match t
    case Nil => false
    case Node(l, y, r) => Holds(l, x) || y == x || Holds(r, x)
  }

  /** The in-order listing holds exactly the vertices of the tree. */
  lemma {:induction false} InOrderHolds(t: Tree, x: nat)
    ensures x in InOrder(t) <==> Holds(t, x)
  {
    match t
    case Nil =>
    case Node(l, y, r) =>
      InOrderHolds(l, x);
      InOrderHolds(r, x);
  }

  /** What the nodes still on the explicit stack will contribute to the walk,
      the top (last) node first: its id, then its right subtree. */
  function Pending(stack: seq<Tree>): seq<nat>
    requires forall i :: 0 <= i < |stack| ==> stack[i].Node?
  {
    if |stack| == 0 then []
    else
      var top := stack[|stack| - 1];
      [top.id] + InOrder(top.right) + Pending(stack[..|stack| - 1])
  }

  /** Everything the walk has still to emit: the subtree at curr, then the stack. */
  function Remaining(curr: Tree, stack: seq<Tree>): seq<nat>
    requires forall i :: 0 <= i < |stack| ==> stack[i].Node?
  {
    InOrder(curr) + Pending(stack)
  }

  /** Pushing curr and going left leaves the remaining walk unchanged. */
  lemma PushLeft(curr: Tree, stack: seq<Tree>)
    requires curr.Node? && forall i :: 0 <= i < |stack| ==> stack[i].Node?
    ensures forall i :: 0 <= i < |stack + [curr]| ==> (stack + [curr])[i].Node?
    ensures Remaining(curr, stack) == Remaining(curr.left, stack + [curr])
  {
    assert (stack + [curr])[..|stack|] == stack;
  }

  /** With no subtree at hand, the remaining walk starts at the top of the stack. */
  lemma PopTop(stack: seq<Tree>)
    requires |stack| > 0 && forall i :: 0 <= i < |stack| ==> stack[i].Node?
    ensures Remaining(Nil, stack) == [stack[|stack| - 1].id] + Remaining(stack[|stack| - 1].right, stack[..|stack| - 1])
  {
  }

  /** undirected_from_root: an iterative in-order walk with an explicit stack. */
  method UndirectedFromRoot(p: Tree) returns (path: seq<nat>)
    ensures path == InOrder(p)
    ensures |path| == Size(p)
  {
    path := [];
    var stack: seq<Tree> := [];
    var curr := p;
    while true
      invariant forall i :: 0 <= i < |stack| ==> stack[i].Node?
      invariant InOrder(p) == path + Remaining(curr, stack)
      decreases |InOrder(p)| - |path|
    {
      while curr.Node?
        invariant forall i :: 0 <= i < |stack| ==> stack[i].Node?
        invariant InOrder(p) == path + Remaining(curr, stack)
        decreases curr
      {
        PushLeft(curr, stack);
        stack := stack + [curr];
        curr := curr.left;
      }
      if |stack| == 0 {
        break;
      }
      PopTop(stack);
      var top := stack[|stack| - 1];
      assert path + Remaining(curr, stack) == (path + [top.id]) + Remaining(top.right, stack[..|stack| - 1]);
      path := path + [top.id];
      stack := stack[..|stack| - 1];
      curr := top.right;
    }
  }

  /** The position of the first occurrence of x in s. */
  function FirstIndex(s: seq<nat>, x: nat): (i: nat)
    requires x in s
    ensures i < |s| && s[i] == x
    ensures forall j :: 0 <= j < i ==> s[j] != x
  {
    if s[0] == x then 0 else 1 + FirstIndex(s[1..], x)
  }

  /** The position of the last occurrence of x in s. */
  function LastIndex(s: seq<nat>, x: nat): (i: nat)
    requires x in s
    ensures i < |s| && s[i] == x
    ensures forall j :: i < j < |s| ==> s[j] != x
  {
    if s[|s| - 1] == x then |s| - 1 else LastIndex(s[..|s| - 1], x)
  }

  function Reverse(s: seq<nat>): (r: seq<nat>)
    ensures |r| == |s|
    ensures forall i :: 0 <= i < |s| ==> r[i] == s[|s| - 1 - i]
  {
    if |s| == 0 then [] else [s[|s| - 1]] + Reverse(s[..|s| - 1])
  }

  /** Reading one more element, from the front of the slice, extends its reverse at the end. */
  lemma ReverseStep(s: seq<nat>, i: nat, j: nat)
    requires 0 < i <= j <= |s|
    ensures Reverse(s[i - 1..j]) == Reverse(s[i..j]) + [s[i - 1]]
  {
  }

  /** path1 up to and including the first lca, or all of path1 without one. */
  function UpToLca(p1: seq<nat>, lca: nat): (r: seq<nat>)
    ensures forall x :: x in r ==> x in p1
  {
    if lca in p1 then p1[..FirstIndex(p1, lca) + 1] else p1
  }

  /** undirected_path: nothing when the two listed paths end in different
      vertices; otherwise path1 up to the lca followed by the part of path2
      before its last lca, read backwards. */
  function Splice(p1: seq<nat>, p2: seq<nat>, lca: nat): (r: seq<nat>)
    requires |p1| > 0 && |p2| > 0
    requires p1[|p1| - 1] == p2[|p2| - 1] ==> lca in p2
    ensures forall i :: 0 <= i < |r| ==> r[i] in p1 || r[i] in p2
  {
    if p1[|p1| - 1] != p2[|p2| - 1] then []
    else
      var a := UpToLca(p1, lca);
      var b := Reverse(p2[..LastIndex(p2, lca)]);
      assert forall i :: 0 <= i < |b| ==> b[i] in p2;
      assert forall i :: 0 <= i < |a| ==> a[i] in p1;
      a + b
  }

  /** The first loop of undirected_path: copy path1 left to right, stopping
      after the lca. */
  method CopyUpToLca(p1: seq<nat>, lca: nat) returns (path: seq<nat>)
    ensures path == UpToLca(p1, lca)
  {
    path := [];
    var i := 0;
    while i < |p1|
      invariant i <= |p1| && path == p1[..i]
      invariant forall j :: 0 <= j < i ==> p1[j] != lca
    {
      assert p1[..i] + [p1[i]] == p1[..i + 1];
      path := path + [p1[i]];
      if p1[i] == lca {
        break;
      }
      i := i + 1;
    }
  }

  /** The reverse-iterator scan of undirected_path: step back from the end of
      s until the lca is met. */
  method FindFromBack(s: seq<nat>, lca: nat) returns (it: nat)
    requires lca in s
    ensures it == LastIndex(s, lca)
  {
    it := |s| - 1;
    while s[it] != lca
      invariant 0 <= it < |s| && LastIndex(s, lca) <= it
      decreases it
    {
      it := it - 1;
    }
  }

  /** undirected_path, with the three loops of hk_answers.c:120-129. */
  method UndirectedPath(p1: seq<nat>, p2: seq<nat>, lca: nat) returns (path: seq<nat>)
    requires |p1| > 0 && |p2| > 0
    requires p1[|p1| - 1] == p2[|p2| - 1] ==> lca in p2
    ensures path == Splice(p1, p2, lca)
  {
    path := [];
    if p1[|p1| - 1] != p2[|p2| - 1] {
      return;
    }
    path := CopyUpToLca(p1, lca);
    var it := FindFromBack(p2, lca);
    var prefix := path;
    while it > 0
      invariant 0 <= it <= LastIndex(p2, lca)
      invariant path == prefix + Reverse(p2[it..LastIndex(p2, lca)])
      decreases it
    {
      ReverseStep(p2, it, LastIndex(p2, lca));
      it := it - 1;
      path := path + [p2[it]];
    }
    assert p2[..LastIndex(p2, lca)] == p2[0..LastIndex(p2, lca)];
  }

  /** The spliced path runs from the first vertex of path1 to the first vertex
      of path2 through the lca, one vertex per step of the two walks. */
  lemma SpliceEnds(p1: seq<nat>, p2: seq<nat>, lca: nat)
    requires |p1| > 0 && |p2| > 0
    requires p1[|p1| - 1] == p2[|p2| - 1] ==> lca in p2
    ensures Splice(p1, p2, lca) == [] <==> p1[|p1| - 1] != p2[|p2| - 1]
    ensures p1[|p1| - 1] == p2[|p2| - 1] && lca in p1 ==>
      var r := Splice(p1, p2, lca);
      && |r| == FirstIndex(p1, lca) + 1 + LastIndex(p2, lca)
      && r[0] == p1[0]
      && r[FirstIndex(p1, lca)] == lca
      && r[|r| - 1] == p2[0]
  {
  }
}
