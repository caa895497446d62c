/**
 * The shape of a directory tree as plain values, and what the builder's
 * steps do to it.
 *
 * A Shape lists the nodes in creation order. Node `n` has the Name names[n],
 * the FullPath paths[n] and the Children children[n] (node numbers, in
 * order). The remaining fields are bookkeeping that the program does not
 * store: routes[n] is the sequence of segments that leads from the root to
 * `n` (the root's own name is not one of them), parent[n] is the node whose
 * Children hold `n`, and `index` maps each route to its node.
 */
module TreeShapes {
  import opened Strings

  const ROOT_NAME: string := "data"

  datatype Shape = Shape(names: seq<string>, paths: seq<string>, children: seq<seq<nat>>,
                         routes: seq<seq<string>>, parent: seq<nat>, index: map<seq<string>, nat>)

  /** The names of the nodes `ids`, in order. */
  function Labels(names: seq<string>, ids: seq<nat>): (labels: seq<string>)
    requires forall k :: 0 <= k < |ids| ==> ids[k] < |names|
    ensures |labels| == |ids|
    ensures forall k :: 0 <= k < |ids| ==> labels[k] == names[ids[k]]
  {
    seq(|ids|, k requires 0 <= k < |ids| => names[ids[k]])
  }

  // ---------------------------------------------------------------------------
  // Reference definitions: the tree that a list of paths describes
  // ---------------------------------------------------------------------------

  /** The first `j + 1` prefixes of `parts`: [], parts[..1], ..., parts[..j]. */
  function Prefixes(parts: seq<string>, j: nat): set<seq<string>>
    requires j <= |parts|
  {
    set m | 0 <= m <= j :: parts[..m]
  }

  /** The child names of the node at `route` after one more path has been
      added: the path's next segment is appended when the path runs through
      the node and no child has that name yet. */
  function Extend(labels: seq<string>, route: seq<string>, parts: seq<string>): seq<string>
  {
    if |route| < |parts| && parts[..|route|] == route && parts[|route|] !in labels
    then labels + [parts[|route|]]
    else labels
  }

  /** A node's Children: the distinct segments that follow `route` in the
      given paths, in order of first appearance. */
  function FirstSeen(paths: seq<seq<string>>, route: seq<string>): seq<string>
  {
    if paths == [] then []
    else Extend(FirstSeen(paths[..|paths| - 1], route), route, paths[|paths| - 1])
  }

  /** The routes of the tree the given paths describe: the root's empty route
      and every prefix of every path. */
  function AllPrefixes(paths: seq<seq<string>>): set<seq<string>>
  {
    if paths == [] then {[]}
    else AllPrefixes(paths[..|paths| - 1]) + Prefixes(paths[|paths| - 1], |paths[|paths| - 1]|)
  }

  lemma PrefixesStep(parts: seq<string>, j: nat)
    requires j < |parts|
    ensures Prefixes(parts, j + 1) == Prefixes(parts, j) + {parts[..j + 1]}
  {
  }

  lemma TakeSnoc(parts: seq<string>, j: nat)
    requires j < |parts|
    ensures parts[..j + 1] == parts[..j] + [parts[j]]
  {
  }

  lemma TakeAll(parts: seq<string>, j: nat)
    requires j == |parts|
    ensures parts[..j] == parts
  {
  }

  lemma LastSplit(route: seq<string>)
    requires route != []
    ensures route == route[..|route| - 1] + [route[|route| - 1]]
  {
  }

  /** Walking `parts` one more segment adds at most that segment, and only at
      the node the walk has reached. */
  lemma ExtendStep(base: seq<string>, before: seq<string>, after: seq<string>,
                   route: seq<string>, parts: seq<string>, j: nat)
    requires j < |parts|
    requires before == Extend(base, route, parts[..j])
    requires after == if route == parts[..j] && parts[j] !in before then before + [parts[j]] else before
    ensures after == Extend(base, route, parts[..j + 1])
  {
    if |route| < j {
      assert parts[..j + 1][..|route|] == parts[..j][..|route|];
    }
  }

  // ---------------------------------------------------------------------------
  // Well-formed shapes
  // ---------------------------------------------------------------------------

  ghost predicate Sized(s: Shape)
  {
    |s.names| >= 1 && |s.paths| == |s.children| == |s.routes| == |s.parent| == |s.names|
  }

  /** A node's FullPath joins the segments of its route with "/". */
  ghost predicate PathsJoined(paths: seq<string>, routes: seq<seq<string>>)
    requires |paths| == |routes|
  {
    forall n :: 0 <= n < |paths| ==> paths[n] == Join(routes[n], SLASH)
  }

  /** Every node but the root is named by the last segment of its route and
      sits in the Children of the node one segment up. */
  ghost predicate ParentLinks(names: seq<string>, children: seq<seq<nat>>,
                              routes: seq<seq<string>>, parent: seq<nat>)
    requires |children| == |routes| == |parent| == |names|
  {
    forall n :: 0 < n < |names| ==>
      && routes[n] != []
      && names[n] == routes[n][|routes[n]| - 1]
      && parent[n] < n
      && routes[parent[n]] == routes[n][..|routes[n]| - 1]
      && n in children[parent[n]]
  }

  /** Children are created after their parent and know it. */
  ghost predicate ChildLinks(children: seq<seq<nat>>, parent: seq<nat>)
    requires |children| == |parent|
  {
    forall p, k :: 0 <= p < |children| && 0 <= k < |children[p]| ==>
      p < children[p][k] < |children| && parent[children[p][k]] == p
  }

  ghost predicate ChildLinksInRange(children: seq<seq<nat>>)
  {
    forall p, k :: 0 <= p < |children| && 0 <= k < |children[p]| ==> children[p][k] < |children|
  }

  /** No node has two children with the same name. */
  ghost predicate UniqueChildNames(names: seq<string>, children: seq<seq<nat>>)
    requires |children| == |names|
    requires ChildLinksInRange(children)
  {
    forall p, a, b :: 0 <= p < |names| && 0 <= a < b < |children[p]| ==>
      names[children[p][a]] != names[children[p][b]]
  }

  /** Two children of one node with the same name are the same node. */
  lemma SameNamedSibling(names: seq<string>, children: seq<seq<nat>>, p: nat, a: nat, b: nat)
    requires |children| == |names| && ChildLinksInRange(children) && UniqueChildNames(names, children)
    requires p < |names| && a in children[p] && b in children[p] && names[a] == names[b]
    ensures a == b
  {
    var i :| 0 <= i < |children[p]| && children[p][i] == a;
    var k :| 0 <= k < |children[p]| && children[p][k] == b;
    assert !(i < k) && !(k < i);
  }

  /** Routes and nodes correspond one to one. */
  ghost predicate Indexed(routes: seq<seq<string>>, index: map<seq<string>, nat>)
  {
    && (forall n :: 0 <= n < |routes| ==> routes[n] in index && index[routes[n]] == n)
    && (forall r :: r in index ==> index[r] < |routes| && routes[index[r]] == r)
  }

  /** The shape every tree the builder produces has. */
  ghost predicate WellFormed(s: Shape)
  {
    && Sized(s)
    && s.names[0] == ROOT_NAME && s.paths[0] == "" && s.routes[0] == []
    && PathsJoined(s.paths, s.routes)
    && ParentLinks(s.names, s.children, s.routes, s.parent)
    && ChildLinks(s.children, s.parent)
    && ChildLinksInRange(s.children)
    && UniqueChildNames(s.names, s.children)
    && Indexed(s.routes, s.index)
  }

  /** Each node has a route and a Children list, and the Children are nodes. */
  ghost predicate Ranged(s: Shape)
  {
    |s.children| == |s.routes| == |s.names| && ChildLinksInRange(s.children)
  }

  /** The names of the Children of node `n`; none for a node the shape does
      not have yet. */
  function ChildLabels(s: Shape, n: nat): seq<string>
    requires Ranged(s)
  {
    if n < |s.names| then Labels(s.names, s.children[n]) else []
  }

  // ---------------------------------------------------------------------------
  // Appending one child
  // ---------------------------------------------------------------------------

  /** The shape after a node named `name` is appended to the Children of `p`. */
  function Append(s: Shape, p: nat, name: string): Shape
    requires Sized(s) && p < |s.names|
  {
    var c := |s.names|;
    var route := s.routes[p] + [name];
    Shape(s.names + [name], s.paths + [Join(route, SLASH)],
          s.children[p := s.children[p] + [c]] + [[]],
          s.routes + [route], s.parent + [p], s.index[route := c])
  }

  /** Appending a child named `name` to `p`, which has no child of that name,
      keeps a shape well formed. */
  lemma AppendKeepsWellFormed(s: Shape, p: nat, name: string)
    requires WellFormed(s) && p < |s.names|
    requires name !in ChildLabels(s, p)
    requires s.routes[p] + [name] !in s.index
    ensures WellFormed(Append(s, p, name))
  {
    var route := s.routes[p] + [name];
    assert forall k :: 0 <= k < |s.children[p]| ==> s.names[s.children[p][k]] != name by {
      assert forall k :: 0 <= k < |s.children[p]| ==> ChildLabels(s, p)[k] == s.names[s.children[p][k]];
    }
    AppendParentLinks(s.names, s.children, s.routes, s.parent, p, name);
    AppendChildLinks(s.children, s.parent, p);
    AppendUniqueChildNames(s.names, s.children, p, name);
    AppendIndexed(s.routes, s.index, route);
    assert PathsJoined(s.paths + [Join(route, SLASH)], s.routes + [route]);
  }

  lemma AppendParentLinks(names: seq<string>, children: seq<seq<nat>>,
                          routes: seq<seq<string>>, parent: seq<nat>, p: nat, name: string)
    requires |children| == |routes| == |parent| == |names| && p < |names|
    requires ParentLinks(names, children, routes, parent)
    ensures var c := |names|;
            ParentLinks(names + [name], children[p := children[p] + [c]] + [[]],
                        routes + [routes[p] + [name]], parent + [p])
  {
    var c := |names|;
    var route := routes[p] + [name];
    var names', children' := names + [name], children[p := children[p] + [c]] + [[]];
    var routes', parent' := routes + [route], parent + [p];
    assert route[..|route| - 1] == routes[p];
    forall n | 0 < n < |names'|
      ensures && routes'[n] != []
              && names'[n] == routes'[n][|routes'[n]| - 1]
              && parent'[n] < n
              && routes'[parent'[n]] == routes'[n][..|routes'[n]| - 1]
              && n in children'[parent'[n]]
    {
      if n < c {
        var k :| 0 <= k < |children[parent[n]]| && children[parent[n]][k] == n;
        assert children'[parent[n]][k] == n;
      } else {
        assert children'[p][|children[p]|] == c;
      }
    }
  }

  lemma AppendChildLinks(children: seq<seq<nat>>, parent: seq<nat>, p: nat)
    requires |children| == |parent| && p < |children|
    requires ChildLinks(children, parent)
    ensures var c := |children|;
            && ChildLinks(children[p := children[p] + [c]] + [[]], parent + [p])
            && ChildLinksInRange(children[p := children[p] + [c]] + [[]])
  {
    var c := |children|;
    var children', parent' := children[p := children[p] + [c]] + [[]], parent + [p];
    forall q, k | 0 <= q < |children'| && 0 <= k < |children'[q]|
      ensures q < children'[q][k] < |children'| && parent'[children'[q][k]] == q
    {
      if q != p || k < |children[p]| {
        assert children'[q][k] == children[q][k];
      }
    }
  }

  lemma AppendUniqueChildNames(names: seq<string>, children: seq<seq<nat>>, p: nat, name: string)
    requires |children| == |names| && p < |names| && ChildLinksInRange(children)
    requires UniqueChildNames(names, children)
    requires forall k :: 0 <= k < |children[p]| ==> names[children[p][k]] != name
    ensures var c := |names|;
            var children' := children[p := children[p] + [c]] + [[]];
            ChildLinksInRange(children') && UniqueChildNames(names + [name], children')
  {
    var c := |names|;
    var names', children' := names + [name], children[p := children[p] + [c]] + [[]];
    forall q, k | 0 <= q < |children'| && 0 <= k < |children'[q]|
      ensures children'[q][k] < |children'|
    {
      if q != p || k < |children[p]| {
        assert children'[q][k] == children[q][k];
      }
    }
    forall q, a, b | 0 <= q < |names'| && 0 <= a < b < |children'[q]|
      ensures names'[children'[q][a]] != names'[children'[q][b]]
    {
      assert children'[q][a] == children[q][a];
      if q != p || b < |children[p]| {
        assert children'[q][b] == children[q][b];
      }
    }
  }

  lemma AppendIndexed(routes: seq<seq<string>>, index: map<seq<string>, nat>, route: seq<string>)
    requires Indexed(routes, index) && route !in index
    ensures Indexed(routes + [route], index[route := |routes|])
  {
    forall n | 0 <= n < |routes|
      ensures routes[n] != route
    {
      assert routes[n] in index;
    }
  }

  /** After the append, `p` lists `name` last and no other node's Children
      change. */
  lemma AppendLabels(s: Shape, p: nat, name: string)
    requires Sized(s) && Ranged(s) && p < |s.names|
    ensures Ranged(Append(s, p, name))
    ensures forall n :: 0 <= n < |s.names| + 1 ==>
              ChildLabels(Append(s, p, name), n) ==
                if n == p then ChildLabels(s, p) + [name] else ChildLabels(s, n)
  {
    var c := |s.names|;
    var s' := Append(s, p, name);
    forall q, k | 0 <= q < |s'.children| && 0 <= k < |s'.children[q]|
      ensures s'.children[q][k] < |s'.children|
    {
      if q != p || k < |s.children[p]| {
        assert s'.children[q][k] == s.children[q][k];
      }
    }
    forall n | 0 <= n < c + 1
      ensures ChildLabels(s', n) == if n == p then ChildLabels(s, p) + [name] else ChildLabels(s, n)
    {
      if n == p {
        assert ChildLabels(s', n) == Labels(s.names, s.children[p]) + [name];
      } else if n < c {
        assert ChildLabels(s', n) == Labels(s.names, s.children[n]);
      }
    }
  }

  // ---------------------------------------------------------------------------
  // One step of the walk down a path, and a whole walk
  // ---------------------------------------------------------------------------

  /** The second shape extends the first: every node of the first keeps its
      name, path and route, and its Children only grow at the end. */
  ghost predicate Grown(s: Shape, s': Shape)
  {
    && |s.names| <= |s'.names|
    && |s.names| == |s.paths| == |s.routes| == |s.children|
    && |s'.names| == |s'.paths| == |s'.routes| == |s'.children|
    && (forall n :: 0 <= n < |s.names| ==>
          && s'.names[n] == s.names[n] && s'.paths[n] == s.paths[n]
          && s'.routes[n] == s.routes[n] && s.children[n] <= s'.children[n])
  }

  lemma GrownTransitive(s: Shape, s': Shape, s'': Shape)
    requires Grown(s, s') && Grown(s', s'')
    ensures Grown(s, s'')
  {
  }

  /** `s'` is `s` after the builder went from `p` to its child `c` named
      `name`, creating `c` if `p` had no such child. */
  ghost predicate StepTaken(s: Shape, s': Shape, p: nat, name: string, c: nat)
    requires Ranged(s) && Ranged(s') && p < |s.names|
  {
    && Grown(s, s')
    && c < |s'.names| && s'.routes[c] == s.routes[p] + [name]
    && (forall n :: |s.names| <= n < |s'.names| ==> n == c && s'.routes[n] !in s.index)
    && s'.index.Keys == s.index.Keys + {s.routes[p] + [name]}
    && (forall n :: 0 <= n < |s'.names| ==>
          ChildLabels(s', n) == if n == p && name !in ChildLabels(s, p) then ChildLabels(s, p) + [name]
                                else ChildLabels(s, n))
  }

  /** The step when `p` already has the child `c`: nothing changes. */
  lemma StepFound(s: Shape, p: nat, c: nat)
    requires Ranged(s) && |s.paths| == |s.names| && p < |s.names|
    requires c in s.children[p] && c < |s.names|
    requires s.routes[c] == s.routes[p] + [s.names[c]] && s.routes[c] in s.index
    ensures StepTaken(s, s, p, s.names[c], c)
  {
    var k :| 0 <= k < |s.children[p]| && s.children[p][k] == c;
    assert ChildLabels(s, p)[k] == s.names[c];
  }

  /** The step when `p` has no child named `name`: the child is appended. */
  lemma StepAppended(s: Shape, p: nat, name: string)
    requires Sized(s) && Ranged(s) && p < |s.names|
    requires name !in ChildLabels(s, p)
    requires s.routes[p] + [name] !in s.index
    ensures Ranged(Append(s, p, name)) && StepTaken(s, Append(s, p, name), p, name, |s.names|)
  {
    AppendLabels(s, p, name);
  }

  /** A node one segment below `p` is a child of `p`. */
  lemma RouteBelow(s: Shape, p: nat, name: string)
    requires WellFormed(s) && p < |s.names|
    ensures s.routes[p] + [name] in s.index ==> name in ChildLabels(s, p)
  {
    var route := s.routes[p] + [name];
    if route in s.index {
      var n := s.index[route];
      assert route[..|route| - 1] == s.routes[p];
      assert n != 0 && s.parent[n] == p;
      var k :| 0 <= k < |s.children[p]| && s.children[p][k] == n;
      assert ChildLabels(s, p)[k] == name;
    }
  }

  /** The step when `p` has no child named `name`, stated on the shape `s'`
      that results. */
  lemma AppendStep(s: Shape, s': Shape, p: nat, name: string)
    requires WellFormed(s) && p < |s.names|
    requires name !in ChildLabels(s, p)
    requires s' == Append(s, p, name)
    ensures WellFormed(s') && StepTaken(s, s', p, name, |s.names|)
  {
    RouteBelow(s, p, name);
    AppendKeepsWellFormed(s, p, name);
    StepAppended(s, p, name);
  }

  /** Every node's Children names are those it had in `s0`, extended by the
      segments of `walk` as FirstSeen extends them. */
  ghost predicate WalkedTo(s0: Shape, s: Shape, walk: seq<string>)
    requires Ranged(s0) && Ranged(s)
  {
    forall n :: 0 <= n < |s.names| ==> ChildLabels(s, n) == Extend(ChildLabels(s0, n), s.routes[n], walk)
  }

  /** What the walk down `parts` from the root has done after `j` segments,
      standing at node `cur`. */
  ghost predicate Walking(s0: Shape, s: Shape, parts: seq<string>, j: nat, cur: nat)
    requires Ranged(s0) && Ranged(s) && j <= |parts|
  {
    && cur < |s.names| && s.routes[cur] == parts[..j]
    && Grown(s0, s)
    && (forall n :: |s0.names| <= n < |s.names| ==> s.routes[n] !in s0.index)
    && s.index.Keys == s0.index.Keys + Prefixes(parts, j)
    && WalkedTo(s0, s, parts[..j])
  }

  lemma WalkStart(s: Shape, parts: seq<string>)
    requires Ranged(s) && |s.paths| == |s.names| >= 1 && s.routes[0] == [] && [] in s.index
    ensures Walking(s, s, parts, 0, 0)
  {
    assert parts[..0] == [];
    assert forall r :: r in Prefixes(parts, 0) <==> r == [];
  }

  /** Each node's Children names after one more step of the walk. */
  lemma WalkedStep(s0: Shape, s: Shape, s': Shape, parts: seq<string>, j: nat, cur: nat, c: nat)
    requires Ranged(s0) && Ranged(s) && Ranged(s') && j < |parts|
    requires |s0.names| <= |s.names| <= |s'.names|
    requires cur < |s.names| && s.routes[cur] == parts[..j]
    requires forall n :: 0 <= n < |s.names| && s.routes[n] == parts[..j] ==> n == cur
    requires forall n :: 0 <= n < |s.names| ==> s'.routes[n] == s.routes[n]
    requires forall n :: |s.names| <= n < |s'.names| ==> s'.routes[n] == parts[..j + 1]
    requires WalkedTo(s0, s, parts[..j])
    requires forall n :: 0 <= n < |s'.names| ==>
               ChildLabels(s', n) == if n == cur && parts[j] !in ChildLabels(s, cur)
                                     then ChildLabels(s, cur) + [parts[j]] else ChildLabels(s, n)
    ensures WalkedTo(s0, s', parts[..j + 1])
  {
    forall n | 0 <= n < |s'.names|
      ensures ChildLabels(s', n) == Extend(ChildLabels(s0, n), s'.routes[n], parts[..j + 1])
    {
      if n < |s.names| {
        ExtendStep(ChildLabels(s0, n), ChildLabels(s, n), ChildLabels(s', n), s'.routes[n], parts, j);
      }
    }
  }

  /** The routes the walk has created, one more step on. */
  lemma KeysStep(keys0: set<seq<string>>, keys: set<seq<string>>, keys': set<seq<string>>,
                 parts: seq<string>, j: nat, route: seq<string>)
    requires j < |parts| && route == parts[..j + 1]
    requires keys == keys0 + Prefixes(parts, j) && keys' == keys + {route}
    ensures keys' == keys0 + Prefixes(parts, j + 1)
  {
    PrefixesStep(parts, j);
  }

  /** One more step keeps Walking. */
  lemma WalkStep(s0: Shape, s: Shape, s': Shape, parts: seq<string>, j: nat, cur: nat, c: nat)
    requires Ranged(s0) && Ranged(s) && Ranged(s') && Indexed(s.routes, s.index) && j < |parts|
    requires Walking(s0, s, parts, j, cur)
    requires StepTaken(s, s', cur, parts[j], c)
    ensures Walking(s0, s', parts, j + 1, c)
  {
    TakeSnoc(parts, j);
    GrownTransitive(s0, s, s');
    KeysStep(s0.index.Keys, s.index.Keys, s'.index.Keys, parts, j, s.routes[cur] + [parts[j]]);
    assert forall n :: 0 <= n < |s.names| && s.routes[n] == parts[..j] ==> n == cur by {
      assert s.index[s.routes[cur]] == cur;
    }
    WalkedStep(s0, s, s', parts, j, cur, c);
  }

  // ---------------------------------------------------------------------------
  // A whole build
  // ---------------------------------------------------------------------------

  /** The routes of the tree are the empty route and the prefixes of the
      paths, and nothing else. */
  lemma {:induction false} AllPrefixesMembers(paths: seq<seq<string>>, route: seq<string>)
    ensures route in AllPrefixes(paths) <==>
              route == [] || exists k, m :: 0 <= k < |paths| && 0 <= m <= |paths[k]| && route == paths[k][..m]
    decreases |paths|
  {
    if paths != [] {
      var init, last := paths[..|paths| - 1], paths[|paths| - 1];
      AllPrefixesMembers(init, route);
      if route in AllPrefixes(paths) && route != [] {
        if route in AllPrefixes(init) {
          var k, m :| 0 <= k < |init| && 0 <= m <= |init[k]| && route == init[k][..m];
          assert paths[k] == init[k];
        } else {
          var m :| 0 <= m <= |last| && route == last[..m];
          assert route == paths[|paths| - 1][..m];
        }
      }
      if exists k, m :: 0 <= k < |paths| && 0 <= m <= |paths[k]| && route == paths[k][..m] {
        var k, m :| 0 <= k < |paths| && 0 <= m <= |paths[k]| && route == paths[k][..m];
        if k < |init| {
          assert init[k] == paths[k];
        } else {
          assert route in Prefixes(last, |last|);
        }
      }
    }
  }

  /** Every path is itself a route of the tree. */
  lemma AllPrefixesHasPaths(paths: seq<seq<string>>, k: nat)
    requires k < |paths|
    ensures paths[k] in AllPrefixes(paths)
  {
    AllPrefixesMembers(paths, paths[k]);
    assert paths[k] == paths[k][..|paths[k]|];
  }

  /** A node whose route is no prefix of any path has no children. */
  lemma {:induction false} FirstSeenOutside(paths: seq<seq<string>>, route: seq<string>)
    requires route !in AllPrefixes(paths)
    ensures FirstSeen(paths, route) == []
    decreases |paths|
  {
    if paths != [] {
      var last := paths[|paths| - 1];
      FirstSeenOutside(paths[..|paths| - 1], route);
      assert |route| <= |last| ==> last[..|route|] in Prefixes(last, |last|);
    }
  }

  /** The shape holds exactly the nodes and the Children order that the
      paths describe. */
  ghost predicate Built(s: Shape, paths: seq<seq<string>>)
    requires Ranged(s)
  {
    && s.index.Keys == AllPrefixes(paths)
    && forall n :: 0 <= n < |s.names| ==> ChildLabels(s, n) == FirstSeen(paths, s.routes[n])
  }

  /** The root alone is the tree of no paths. */
  lemma BuiltEmpty(s: Shape)
    requires Ranged(s) && |s.names| == 1 && s.children[0] == [] && s.index.Keys == {[]}
    ensures Built(s, [])
  {
    assert ChildLabels(s, 0) == [];
  }

  /** Walking one more path through a built shape builds the longer list. */
  lemma BuildStep(s: Shape, s': Shape, paths: seq<seq<string>>, parts: seq<string>, leaf: nat)
    requires Ranged(s) && Ranged(s')
    requires Built(s, paths)
    requires Walking(s, s', parts, |parts|, leaf)
    ensures Built(s', paths + [parts])
  {
    var paths' := paths + [parts];
    assert paths'[..|paths|] == paths;
    assert parts[..|parts|] == parts;
    forall n | 0 <= n < |s'.names|
      ensures ChildLabels(s', n) == FirstSeen(paths', s'.routes[n])
    {
      if n >= |s.names| {
        FirstSeenOutside(paths, s'.routes[n]);
      }
    }
  }

  // ---------------------------------------------------------------------------
  // What the reference definitions promise
  // ---------------------------------------------------------------------------

  /** The segment that follows `route` in `path`, when `path` runs through it. */
  predicate Follows(path: seq<string>, route: seq<string>, x: string)
  {
    |route| < |path| && path[..|route|] == route && path[|route|] == x
  }

  /** A node's Children are named by exactly the segments that follow its
      route in some path. */
  lemma {:induction false} FirstSeenMembers(paths: seq<seq<string>>, route: seq<string>, x: string)
    ensures x in FirstSeen(paths, route) <==> exists k :: 0 <= k < |paths| && Follows(paths[k], route, x)
    decreases |paths|
  {
    if paths != [] {
      var init := paths[..|paths| - 1];
      FirstSeenMembers(init, route, x);
      if exists k :: 0 <= k < |paths| && Follows(paths[k], route, x) {
        var k :| 0 <= k < |paths| && Follows(paths[k], route, x);
        if k < |init| {
          assert Follows(init[k], route, x);
        }
      }
      if x in FirstSeen(paths, route) && x !in FirstSeen(init, route) {
        assert Follows(paths[|paths| - 1], route, x);
      }
    }
  }

  predicate Distinct(labels: seq<string>)
  {
    forall a, b :: 0 <= a < b < |labels| ==> labels[a] != labels[b]
  }

  /** No name appears twice among a node's Children. */
  lemma {:induction false} FirstSeenDistinct(paths: seq<seq<string>>, route: seq<string>)
    ensures Distinct(FirstSeen(paths, route))
    decreases |paths|
  {
    if paths != [] {
      FirstSeenDistinct(paths[..|paths| - 1], route);
    }
  }

  /** Adding a path never removes or reorders a node's Children: the old
      list is a prefix of the new one. */
  lemma FirstSeenAppendOnly(paths: seq<seq<string>>, path: seq<string>, route: seq<string>)
    ensures FirstSeen(paths, route) <= FirstSeen(paths + [path], route)
  {
    assert (paths + [path])[..|paths|] == paths;
  }

  /** Two shapes built from the same paths are the same tree: the same routes,
      and at each route the same FullPath and the same Children names in the
      same order. Only the node numbering may differ. */
  lemma BuiltDeterministic(s: Shape, t: Shape, paths: seq<seq<string>>)
    requires WellFormed(s) && WellFormed(t)
    requires Built(s, paths) && Built(t, paths)
    ensures s.index.Keys == t.index.Keys
    ensures forall r :: r in s.index ==>
              && s.paths[s.index[r]] == t.paths[t.index[r]]
              && ChildLabels(s, s.index[r]) == ChildLabels(t, t.index[r])
  {
    forall r | r in s.index
      ensures s.paths[s.index[r]] == t.paths[t.index[r]]
      ensures ChildLabels(s, s.index[r]) == ChildLabels(t, t.index[r])
    {
      var m, n := s.index[r], t.index[r];
      assert s.routes[m] == r == t.routes[n];
    }
  }

  /** A manifest with no lines gives the root alone, with no children. */
  lemma BuiltFromNothing(s: Shape)
    requires WellFormed(s) && Built(s, [])
    ensures |s.names| == 1 && s.children == [[]]
  {
    var last := |s.names| - 1;
    assert s.routes[last] in s.index.Keys;
    assert s.index[s.routes[last]] == last && s.index[s.routes[0]] == 0;
    assert |ChildLabels(s, 0)| == 0;
  }
}
