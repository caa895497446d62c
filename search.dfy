/**
 * SearchDirectoryTree and SearchDirectoryNode: a depth-first pre-order walk
 * of the tree that collects every node whose lower-cased Name contains the
 * lower-cased query.
 *
 * The walk is specified by PreOrder, the node order of the walk, and
 * Matching, the nodes of an order that the query selects. The recursive
 * method appends to a shared results list exactly as the walk does.
 */
module Search {
  import opened Wrappers
  import opened Strings
  import opened TreeShapes
  import opened DirectoryTrees

  /** Every child comes after its parent and exists: the Children links
      form no cycle, so a walk down them ends. */
  predicate Forward(children: seq<seq<nat>>)
  {
    forall p, k :: 0 <= p < |children| && 0 <= k < |children[p]| ==> p < children[p][k] < |children|
  }

  /** The nodes of the subtree of `n` in the order SearchDirectoryNode visits
      them: `n` itself, then the subtree of each child in Children order. */
  function PreOrder(children: seq<seq<nat>>, n: nat): (order: seq<nat>)
    requires Forward(children) && n < |children|
    ensures |order| >= 1 && order[0] == n
    ensures forall i :: 0 <= i < |order| ==> n <= order[i] < |children|
    decreases |children| - n, 1, 0
  {
    [n] + PreOrderFrom(children, n, 0)
  }

  /** The subtrees of the children of `n` from position `k` on, in order. */
  function PreOrderFrom(children: seq<seq<nat>>, n: nat, k: nat): (order: seq<nat>)
    requires Forward(children) && n < |children| && k <= |children[n]|
    ensures forall i :: 0 <= i < |order| ==> n < order[i] < |children|
    decreases |children| - n, 0, |children[n]| - k
  {
    if k == |children[n]| then []
    else PreOrder(children, children[n][k]) + PreOrderFrom(children, n, k + 1)
  }

  /** `node.Name.ToLower().Contains(searchText)`. */
  function Hit(names: seq<string>, n: nat, query: string): (hit: bool)
    requires n < |names|
    ensures hit <==> exists k: nat :: OccursAt(Lower(names[n]), query, k)
  {
    var lowered := Lower(names[n]);
    if Contains(lowered, query) then
      var k: nat :| OccursAt(lowered, query, k);
      assert OccursAt(Lower(names[n]), query, k);
      true
    else false
  }

  /** Every node of `order` exists. */
  predicate InRange(names: seq<string>, order: seq<nat>)
  {
    forall i :: 0 <= i < |order| ==> order[i] < |names|
  }

  /** The nodes of `order` whose lower-cased name contains `query`, in order. */
  function Matching(names: seq<string>, order: seq<nat>, query: string): (hits: seq<nat>)
    requires InRange(names, order)
    ensures |hits| <= |order|
  {
    if order == [] then []
    else (if Hit(names, order[0], query) then [order[0]] else []) + Matching(names, order[1..], query)
  }

  // ---------------------------------------------------------------------------
  // The results list and the walk
  // ---------------------------------------------------------------------------

  /** The List<DirectoryNode> the search fills, holding node numbers. */
  class NodeList {
    var items: seq<nat>

    /** new List<DirectoryNode>() */
    constructor ()
      ensures items == []
    {
      items := [];
    }

    /** results.Add(node) */
    method Add(n: nat)
      modifies this
      ensures items == old(items) + [n]
    {
      items := items + [n];
    }
  }

  /** SearchDirectoryNode(node, searchText, results): appends to `results`
      the matching nodes of the subtree of `node`, in pre-order. The tree is
      only read. */
  method SearchDirectoryNode(tree: DirectoryTree, node: nat, searchText: string, results: NodeList)
    requires Forward(tree.children) && |tree.names| == |tree.children| && node < |tree.names|
    modifies results
    ensures unchanged(tree)
    ensures results.items == old(results.items) + Matching(tree.names, PreOrder(tree.children, node), searchText)
    decreases |tree.children| - node
  {
    ghost var start := results.items;
    if Contains(Lower(tree.names[node]), searchText) {
      results.Add(node);
    }
    VisitNode(tree.names, tree.children, node, searchText, start, results.items);
    var k := 0;
    while k < |tree.children[node]|
      invariant k <= |tree.children[node]|
      invariant results.items + Matching(tree.names, PreOrderFrom(tree.children, node, k), searchText)
                == start + Matching(tree.names, PreOrder(tree.children, node), searchText)
    {
      ghost var before := results.items;
      SearchDirectoryNode(tree, tree.children[node][k], searchText, results);
      VisitChild(tree.names, tree.children, node, k, searchText, start, before, results.items);
      k := k + 1;
    }
    TakeAllMatched(tree.names, tree.children, node, k, searchText, start, results.items);
  }

  /** The exception the search can raise. */
  datatype SearchFault = NullReference

  /** SearchDirectoryTree(root, searchText): a fresh list holding, in
      pre-order from the root, the nodes whose lower-cased name contains the
      lower-cased query. The window's root stays null until a build
      succeeds, and the walk then fails on its first `node.Name`. */
  method SearchDirectoryTree(root: Option<DirectoryTree>, searchText: string)
      returns (outcome: Result<NodeList, SearchFault>)
    requires root.Some? ==> root.value.Valid()
    ensures root.None? ==> outcome == Failure(NullReference)
    ensures root.Some? ==>
              && outcome.Success? && fresh(outcome.value) && unchanged(root.value)
              && outcome.value.items == Matching(root.value.names, PreOrder(root.value.children, 0), Lower(searchText))
  {
    var results := new NodeList();
    if root.None? {
      return Failure(NullReference);
    }
    var tree := root.value;
    WellFormedIsForward(tree.Snapshot());
    SearchDirectoryNode(tree, 0, Lower(searchText), results);
    outcome := Success(results);
  }

  // ---------------------------------------------------------------------------
  // What the walk promises
  // ---------------------------------------------------------------------------

  lemma {:induction false} MatchingAppend(names: seq<string>, a: seq<nat>, b: seq<nat>, query: string)
    requires InRange(names, a) && InRange(names, b)
    ensures Matching(names, a + b, query) == Matching(names, a, query) + Matching(names, b, query)
    decreases |a|
  {
    if a != [] {
      var first, tail := if Hit(names, a[0], query) then [a[0]] else [], a[1..];
      assert a == [a[0]] + tail && a + b == [a[0]] + (tail + b);
      MatchingAppend(names, tail, b, query);
      MatchingCons(names, a[0], tail + b, query);
      MatchingCons(names, a[0], tail, query);
      SeqAssoc(first, Matching(names, tail, query), Matching(names, b, query));
    } else {
      assert a + b == b;
    }
  }

  /** After the test of `node` itself, what is left to append is the
      matching part of its children's subtrees. */
  lemma VisitNode(names: seq<string>, children: seq<seq<nat>>, node: nat, query: string,
                  start: seq<nat>, items: seq<nat>)
    requires Forward(children) && |names| == |children| && node < |children|
    requires items == start + (if Hit(names, node, query) then [node] else [])
    ensures items + Matching(names, PreOrderFrom(children, node, 0), query)
            == start + Matching(names, PreOrder(children, node), query)
  {
    var order, rest := PreOrder(children, node), PreOrderFrom(children, node, 0);
    var first := if Hit(names, node, query) then [node] else [];
    assert order == [node] + rest;
    MatchingCons(names, node, rest, query);
    SeqAssoc(start, first, Matching(names, rest, query));
  }

  lemma SeqAssoc(a: seq<nat>, b: seq<nat>, c: seq<nat>)
    ensures (a + b) + c == a + (b + c)
  {
  }

  lemma MatchingCons(names: seq<string>, node: nat, rest: seq<nat>, query: string)
    requires node < |names| && InRange(names, rest)
    ensures InRange(names, [node] + rest)
    ensures Matching(names, [node] + rest, query)
            == (if Hit(names, node, query) then [node] else []) + Matching(names, rest, query)
  {
    assert ([node] + rest)[1..] == rest;
  }

  /** Searching the subtree of the k-th child appends exactly its matching
      part, leaving the later children's subtrees to go. */
  lemma VisitChild(names: seq<string>, children: seq<seq<nat>>, node: nat, k: nat, query: string,
                   start: seq<nat>, before: seq<nat>, after: seq<nat>)
    requires Forward(children) && |names| == |children| && node < |children| && k < |children[node]|
    requires before + Matching(names, PreOrderFrom(children, node, k), query)
             == start + Matching(names, PreOrder(children, node), query)
    requires after == before + Matching(names, PreOrder(children, children[node][k]), query)
    ensures after + Matching(names, PreOrderFrom(children, node, k + 1), query)
            == start + Matching(names, PreOrder(children, node), query)
  {
    MatchingAppend(names, PreOrder(children, children[node][k]), PreOrderFrom(children, node, k + 1), query);
  }

  lemma TakeAllMatched(names: seq<string>, children: seq<seq<nat>>, node: nat, k: nat, query: string,
                       start: seq<nat>, items: seq<nat>)
    requires Forward(children) && |names| == |children| && node < |children| && k == |children[node]|
    requires items + Matching(names, PreOrderFrom(children, node, k), query)
             == start + Matching(names, PreOrder(children, node), query)
    ensures items == start + Matching(names, PreOrder(children, node), query)
  {
    assert items + [] == items;
  }

  /** A node is found exactly when it is in the walked order and its
      lower-cased name contains the query. */
  lemma {:induction false} MatchingMembers(names: seq<string>, order: seq<nat>, query: string, x: nat)
    requires InRange(names, order)
    ensures x in Matching(names, order, query) <==> x in order && Hit(names, x, query)
    decreases |order|
  {
    if order != [] {
      MatchingMembers(names, order[1..], query, x);
      if x in order && x != order[0] {
        assert x in order[1..];
      }
    }
  }

  /** The empty query selects every node of the order. */
  lemma {:induction false} EmptyQueryMatchesAll(names: seq<string>, order: seq<nat>)
    requires InRange(names, order)
    ensures Matching(names, order, "") == order
    decreases |order|
  {
    if order != [] {
      assert OccursAt(Lower(names[order[0]]), "", 0);
      EmptyQueryMatchesAll(names, order[1..]);
    }
  }

  /** Matching keeps the nodes of its input in their order, so a list without
      repetitions gives results without repetitions. */
  lemma {:induction false} MatchingKeepsNoRepeats(names: seq<string>, order: seq<nat>, query: string)
    requires InRange(names, order)
    requires NoRepeats(order)
    ensures NoRepeats(Matching(names, order, query))
    decreases |order|
  {
    if order != [] {
      assert NoRepeats(order[1..]);
      MatchingKeepsNoRepeats(names, order[1..], query);
      MatchingMembers(names, order[1..], query, order[0]);
    }
  }

  predicate NoRepeats(ns: seq<nat>)
  {
    forall a, b :: 0 <= a < b < |ns| ==> ns[a] != ns[b]
  }

  // ---------------------------------------------------------------------------
  // Pre-order over a built tree: every node, once
  // ---------------------------------------------------------------------------

  /** A well-formed tree's Children links point forward. */
  lemma WellFormedIsForward(s: Shape)
    requires WellFormed(s)
    ensures Forward(s.children)
  {
  }

  /** The subtrees from position `k` hold exactly the subtrees of the
      children from position `k` on. */
  lemma {:induction false} FromMembers(children: seq<seq<nat>>, n: nat, k: nat, y: nat)
    requires Forward(children) && n < |children| && k <= |children[n]|
    ensures y in PreOrderFrom(children, n, k) <==>
              exists j :: k <= j < |children[n]| && y in PreOrder(children, children[n][j])
    decreases |children[n]| - k
  {
    if k < |children[n]| {
      var c := children[n][k];
      FromMembers(children, n, k + 1, y);
      assert PreOrderFrom(children, n, k) == PreOrder(children, c) + PreOrderFrom(children, n, k + 1);
      if exists j :: k <= j < |children[n]| && y in PreOrder(children, children[n][j]) {
        var j :| k <= j < |children[n]| && y in PreOrder(children, children[n][j]);
        assert j == k || k + 1 <= j;
      }
    }
  }

  /** If `p` is in the subtree of `x`, so are the children of `p`. */
  lemma {:induction false} ChildInSubtree(children: seq<seq<nat>>, x: nat, p: nat, y: nat)
    requires Forward(children) && x < |children| && p < |children|
    requires p in PreOrder(children, x) && y in children[p]
    ensures y in PreOrder(children, x)
    decreases |children| - x
  {
    if p == x {
      var k :| 0 <= k < |children[x]| && children[x][k] == y;
      FromMembers(children, x, 0, y);
    } else {
      FromMembers(children, x, 0, p);
      var j :| 0 <= j < |children[x]| && p in PreOrder(children, children[x][j]);
      ChildInSubtree(children, children[x][j], p, y);
      FromMembers(children, x, 0, y);
    }
  }

  /** The walk from the root visits every node of the tree. */
  lemma {:induction false} PreOrderCoversTree(s: Shape, n: nat)
    requires WellFormed(s) && n < |s.names|
    ensures n in PreOrder(s.children, 0)
    decreases n
  {
    if n > 0 {
      PreOrderCoversTree(s, s.parent[n]);
      ChildInSubtree(s.children, 0, s.parent[n], n);
    }
  }

  /** `z` is `x` or lies below it: following parent links up from `z` reaches `x`. */
  ghost predicate Below(parent: seq<nat>, x: nat, z: nat)
    requires z < |parent| && forall n :: 0 < n < |parent| ==> parent[n] < n
    decreases z
  {
    z == x || (x < z && Below(parent, x, parent[z]))
  }

  lemma {:induction false} BelowParent(parent: seq<nat>, c: nat, y: nat)
    requires y < |parent| && c < |parent| && forall n :: 0 < n < |parent| ==> parent[n] < n
    requires 0 < c && Below(parent, c, y)
    ensures Below(parent, parent[c], y)
    decreases y
  {
    if y != c {
      BelowParent(parent, c, parent[y]);
    }
  }

  /** Two different nodes with the same parent have no node below both. */
  lemma {:induction false} SiblingsApart(parent: seq<nat>, a: nat, b: nat, y: nat)
    requires y < |parent| && a < |parent| && b < |parent| && forall n :: 0 < n < |parent| ==> parent[n] < n
    requires 0 < a && 0 < b && a != b && parent[a] == parent[b]
    ensures !(Below(parent, a, y) && Below(parent, b, y))
    decreases y
  {
    if y != a && y != b && y > 0 {
      SiblingsApart(parent, a, b, parent[y]);
    }
    BelowAbove(parent, a, parent[b]);
    BelowAbove(parent, b, parent[a]);
  }

  lemma {:induction false} BelowAbove(parent: seq<nat>, x: nat, z: nat)
    requires z < |parent| && forall n :: 0 < n < |parent| ==> parent[n] < n
    ensures Below(parent, x, z) ==> x <= z
    decreases z
  {
    if z != x && x < z {
      BelowAbove(parent, x, parent[z]);
    }
  }

  /** Every node of the subtree of `x` lies below `x`. */
  lemma {:induction false} SubtreeBelow(s: Shape, x: nat, y: nat)
    requires WellFormed(s) && x < |s.names|
    ensures y in PreOrder(s.children, x) ==> y < |s.names| && Below(s.parent, x, y)
    decreases |s.names| - x
  {
    if y in PreOrder(s.children, x) && y != x {
      FromMembers(s.children, x, 0, y);
      var j :| 0 <= j < |s.children[x]| && y in PreOrder(s.children, s.children[x][j]);
      var c := s.children[x][j];
      SubtreeBelow(s, c, y);
      BelowParent(s.parent, c, y);
    }
  }

  /** The walk from `x` visits exactly `x` and the nodes below it. */
  lemma {:induction false} PreOrderMembers(s: Shape, x: nat, y: nat)
    requires WellFormed(s) && x < |s.names|
    ensures y in PreOrder(s.children, x) <==> y < |s.names| && Below(s.parent, x, y)
    decreases y
  {
    SubtreeBelow(s, x, y);
    if y < |s.names| && Below(s.parent, x, y) && y != x {
      var p := s.parent[y];
      PreOrderMembers(s, x, p);
      ChildInSubtree(s.children, x, p, y);
    }
  }

  /** The walk from `x` visits no node twice. */
  lemma {:induction false} PreOrderNoRepeats(s: Shape, x: nat)
    requires WellFormed(s) && x < |s.names|
    ensures NoRepeats(PreOrder(s.children, x))
    decreases |s.names| - x, 1, 0
  {
    FromNoRepeats(s, x, 0);
    NoRepeatsAppend([x], PreOrderFrom(s.children, x, 0));
  }

  lemma {:induction false} FromNoRepeats(s: Shape, x: nat, k: nat)
    requires WellFormed(s) && x < |s.names| && k <= |s.children[x]|
    ensures NoRepeats(PreOrderFrom(s.children, x, k))
    decreases |s.names| - x, 0, |s.children[x]| - k
  {
    if k < |s.children[x]| {
      var c := s.children[x][k];
      var head, tail := PreOrder(s.children, c), PreOrderFrom(s.children, x, k + 1);
      PreOrderNoRepeats(s, c);
      FromNoRepeats(s, x, k + 1);
      forall y | y in head
        ensures y !in tail
      {
        forall j | k + 1 <= j < |s.children[x]|
          ensures y !in PreOrder(s.children, s.children[x][j])
        {
          ChildrenApart(s, x, k, j, y);
        }
        SubtreesApart(s.children, x, k, k + 1, y);
      }
      NoRepeatsAppend(head, tail);
    }
  }

  lemma ParentsBefore(s: Shape)
    requires WellFormed(s)
    ensures forall n :: 0 < n < |s.parent| ==> s.parent[n] < n
  {
  }

  /** Nothing lies below two different children of one node. */
  lemma ChildrenApart(s: Shape, x: nat, k: nat, j: nat, y: nat)
    requires WellFormed(s) && x < |s.names| && k < j < |s.children[x]|
    ensures y in PreOrder(s.children, s.children[x][k]) ==> y !in PreOrder(s.children, s.children[x][j])
  {
    var c, d := s.children[x][k], s.children[x][j];
    assert s.names[c] != s.names[d];
    assert s.parent[c] == x == s.parent[d] && x < c && x < d;
    ParentsBefore(s);
    SubtreeBelow(s, c, y);
    SubtreeBelow(s, d, y);
    if y < |s.parent| {
      SiblingsApart(s.parent, c, d, y);
    }
  }

  /** The subtree of the k-th child shares no node with the subtrees of the
      children from position `m` > `k` on, given that it shares none with
      each of them. */
  lemma {:induction false} SubtreesApart(children: seq<seq<nat>>, x: nat, k: nat, m: nat, y: nat)
    requires Forward(children) && x < |children| && k < m <= |children[x]|
    requires y in PreOrder(children, children[x][k])
    requires forall j :: m <= j < |children[x]| ==> y !in PreOrder(children, children[x][j])
    ensures y !in PreOrderFrom(children, x, m)
    decreases |children[x]| - m
  {
    if m < |children[x]| {
      SubtreesApart(children, x, k, m + 1, y);
    }
  }

  lemma NoRepeatsAppend(a: seq<nat>, b: seq<nat>)
    requires NoRepeats(a) && NoRepeats(b)
    requires forall y :: y in a ==> y !in b
    ensures NoRepeats(a + b)
  {
    forall i, j | 0 <= i < j < |a + b|
      ensures (a + b)[i] != (a + b)[j]
    {
      if j >= |a| {
        assert (a + b)[j] == b[j - |a|];
        if i < |a| {
          assert (a + b)[i] in a;
        } else {
          assert (a + b)[i] == b[i - |a|];
        }
      }
    }
  }

  // ---------------------------------------------------------------------------
  // The search over a built tree
  // ---------------------------------------------------------------------------

  /** Searching a built tree lists each node whose lower-cased name contains
      the query, and each only once. */
  lemma SearchFindsEachMatchOnce(s: Shape, query: string)
    requires WellFormed(s)
    ensures var hits := Matching(s.names, PreOrder(s.children, 0), query);
            && NoRepeats(hits)
            && forall n :: 0 <= n < |s.names| ==> (n in hits <==> Hit(s.names, n, query))
  {
    var order := PreOrder(s.children, 0);
    PreOrderNoRepeats(s, 0);
    MatchingKeepsNoRepeats(s.names, order, query);
    forall n | 0 <= n < |s.names|
      ensures n in Matching(s.names, order, query) <==> Hit(s.names, n, query)
    {
      PreOrderCoversTree(s, n);
      MatchingMembers(s.names, order, query, n);
    }
  }

  /** An empty search text lists every node of a built tree, in pre-order. */
  lemma EmptySearchListsTree(s: Shape)
    requires WellFormed(s)
    ensures Matching(s.names, PreOrder(s.children, 0), Lower("")) == PreOrder(s.children, 0)
    ensures forall n :: 0 <= n < |s.names| ==> n in PreOrder(s.children, 0)
  {
    assert Lower("") == "";
    EmptyQueryMatchesAll(s.names, PreOrder(s.children, 0));
    forall n | 0 <= n < |s.names|
      ensures n in PreOrder(s.children, 0)
    {
      PreOrderCoversTree(s, n);
    }
  }
}
