/**
 * The DirectoryNode objects that BuildDirectoryTree creates from the
 * manifest text, and the builder itself.
 *
 * All nodes live in one DirectoryTree object. Node `n` is the n-th node
 * created; its Name is names[n], its FullPath is paths[n], and its Children
 * list holds the nodes children[n], in order. A node number stands for an
 * object reference: appending to children[n] changes the one node that every
 * holder of `n` sees. Node 0 is the root, DirectoryNode("data", "").
 */
module DirectoryTrees {
  import opened Wrappers
  import opened Strings
  import opened TreeShapes
  import Progress

  class DirectoryTree {
    var names: seq<string>
    var paths: seq<string>
    var children: seq<seq<nat>>
    ghost var routes: seq<seq<string>>
    ghost var parent: seq<nat>
    ghost var index: map<seq<string>, nat>

    ghost function Snapshot(): Shape
      reads this
    {
      Shape(names, paths, children, routes, parent, index)
    }

    /** The shape every tree the builder produces has. */
    ghost predicate Valid()
      reads this
    {
      WellFormed(Snapshot())
    }

    /** new DirectoryNode("data", ""): the root, with no children. */
    constructor ()
      ensures Valid()
      ensures names == [ROOT_NAME] && paths == [""] && children == [[]]
      ensures BuiltFrom([])
    {
      names, paths, children := [ROOT_NAME], [""], [[]];
      routes, parent, index := [[]], [0], map[[] := 0];
      new;
      BuiltEmpty(Snapshot());
    }

    /** Children.FirstOrDefault(c => c.Name == name), scanning from position `k`. */
    function FindChildFrom(p: nat, name: string, k: nat): (r: Option<nat>)
      reads this
      requires Valid() && p < |names| && k <= |children[p]|
      ensures r.Some? ==> r.value in children[p][k..] && names[r.value] == name
      ensures r.None? ==> forall m :: k <= m < |children[p]| ==> names[children[p][m]] != name
      decreases |children[p]| - k
    {
      if k == |children[p]| then None
      else if names[children[p][k]] == name then Some(children[p][k])
      else FindChildFrom(p, name, k + 1)
    }

    /** Children.FirstOrDefault(c => c.Name == name) on node `p`: the child
        named `name` if there is one. */
    function FindChild(p: nat, name: string): (r: Option<nat>)
      reads this
      requires Valid() && p < |names|
      ensures r.Some? ==> r.value in children[p] && names[r.value] == name
      ensures r.None? <==> name !in ChildLabels(Snapshot(), p)
    {
      assert children[p][0..] == children[p];
      FindChildFrom(p, name, 0)
    }

    /** The node reached from the root by following `route` one child name at
        a time, as the builder's inner loop walks a line. */
    function Lookup(route: seq<string>): (r: Option<nat>)
      reads this
      requires Valid()
      ensures r.Some? ==> r.value < |names| && routes[r.value] == route
      decreases |route|
    {
      if route == [] then Some(0)
      else
        match Lookup(route[..|route| - 1])
        case None => None
        case Some(p) =>
          var c := FindChild(p, route[|route| - 1]);
          if c.Some? then
            ChildRoute(p, c.value);
            LastSplit(route);
            c
          else c
    }

    /** A child's route is its parent's route followed by its name. */
    lemma ChildRoute(p: nat, c: nat)
      requires Valid() && p < |names| && c in children[p]
      ensures c < |names| && parent[c] == p && routes[c] == routes[p] + [names[c]]
    {
      var k :| 0 <= k < |children[p]| && children[p][k] == c;
      LastSplit(routes[c]);
    }

    /** Every route of the tree leads, through Lookup, to its node. */
    lemma {:induction false} LookupFindsRoute(route: seq<string>)
      requires Valid() && route in index
      ensures Lookup(route) == Some(index[route])
      decreases |route|
    {
      if route != [] {
        var n := index[route];
        var p := parent[n];
        var name := route[|route| - 1];
        LookupFindsRoute(route[..|route| - 1]);
        var k :| 0 <= k < |children[p]| && children[p][k] == n;
        assert ChildLabels(Snapshot(), p)[k] == name;
        SameNamedSibling(names, children, p, FindChild(p, name).value, n);
      }
    }

    /** Looking up the segments of a line whose route the tree has yields the
        node whose FullPath is that line. */
    lemma LookupFindsLine(line: string)
      requires Valid() && Segments(line) in index
      ensures Lookup(Segments(line)).Some?
      ensures paths[Lookup(Segments(line)).value] == line
    {
      LookupFindsRoute(Segments(line));
      JoinSplit(line, SLASH);
    }

    /** The tree `j` segments into adding the path `parts`, at node `cur`,
        having started from the tree `s0`. */
    ghost predicate OnWalk(s0: Shape, parts: seq<string>, j: nat, cur: nat)
      reads this
    {
      && Valid() && Ranged(s0) && j <= |parts|
      && Walking(s0, Snapshot(), parts, j, cur)
    }

    /** `new DirectoryNode(name, fullPath)` added to the Children of `p`,
        which has no child of that name. */
    method AddChild(p: nat, name: string, fullPath: string) returns (c: nat)
      requires Valid() && p < |names|
      requires name !in ChildLabels(Snapshot(), p)
      requires fullPath == Join(routes[p] + [name], SLASH)
      modifies this
      ensures Valid()
      ensures c == old(|names|)
      ensures names == old(names) + [name] && paths == old(paths) + [fullPath]
      ensures children == old(children)[p := old(children[p]) + [c]] + [[]]
      ensures StepTaken(old(Snapshot()), Snapshot(), p, name, c)
    {
      ghost var s := Snapshot();
      ghost var route := routes[p] + [name];
      c := |names|;
      names, paths := names + [name], paths + [fullPath];
      children := children[p := children[p] + [c]] + [[]];
      routes, parent, index := routes + [route], parent + [p], index[route := c];
      AppendStep(s, Snapshot(), p, name);
    }

    /** One pass of the builder's inner loop, below node `p` for the segment
        `name` == parts[j] of the path being added: the child named `name`,
        or else `new DirectoryNode(name, fullPath)` appended to the Children
        of `p`. The ghost parameters describe the walk so far, which started
        from the tree `s0`. */
    method Descend(p: nat, name: string, fullPath: string, ghost s0: Shape, ghost parts: seq<string>, ghost j: nat)
        returns (c: nat)
      requires OnWalk(s0, parts, j, p) && j < |parts| && parts[j] == name
      requires fullPath == Join(parts[..j + 1], SLASH)
      modifies this
      ensures Valid() && c < |names| && names[c] == name && paths[c] == fullPath
      ensures OnWalk(s0, parts, j + 1, c)
    {
      ghost var s := Snapshot();
      TakeSnoc(parts, j);
      var found := FindChild(p, name);
      if found.Some? {
        c := found.value;
        ChildRoute(p, c);
        StepFound(s, p, c);
      } else {
        c := AddChild(p, name, fullPath);
      }
      WalkStep(s0, s, Snapshot(), parts, j, p, c);
    }

    /** The tree BuildDirectoryTree has built once it has added `lines`:
        well formed, with exactly the routes that are prefixes of the
        lines' segment lists, and every node's children in first-seen order. */
    ghost predicate BuiltFrom(lines: seq<string>)
      reads this
    {
      Valid() && Built(Snapshot(), PathsOf(lines))
    }

    /** One pass of BuildDirectoryTree's outer loop: the segments of `line`
        walked into the tree. A tree built from the lines `done` becomes the
        tree built from `done + [line]`. */
    method AddLine(line: string, ghost done: seq<string>)
      requires BuiltFrom(done)
      modifies this
      ensures BuiltFrom(done + [line])
      ensures Grown(old(Snapshot()), Snapshot())
    {
      ghost var s := Snapshot();
      var parts := Segments(line);
      var leaf := AddPath(parts);
      BuildStep(s, Snapshot(), PathsOf(done), parts, leaf);
      PathsOfSnoc(done, line);
    }

    /** Empty or all-CR/LF text gives the root alone, with no children. */
    lemma BlankManifestGivesRoot(fileContent: string)
      requires BuiltFrom(SplitLines(fileContent))
      requires forall k :: 0 <= k < |fileContent| ==> fileContent[k] in LINE_BREAKS
      ensures names == [ROOT_NAME] && paths == [""] && children == [[]]
    {
      BlankTextHasNoLines(fileContent);
      BuiltFromNothing(Snapshot());
    }

    /** In a tree built from the lines' segment lists, looking up each line's
        segments yields the node whose FullPath is that line. */
    lemma LookupFindsLines(lines: seq<string>)
      requires BuiltFrom(lines)
      ensures forall k :: 0 <= k < |lines| ==>
                && Lookup(Segments(lines[k])).Some?
                && paths[Lookup(Segments(lines[k])).value] == lines[k]
    {
      forall k | 0 <= k < |lines|
        ensures Lookup(Segments(lines[k])).Some? && paths[Lookup(Segments(lines[k])).value] == lines[k]
      {
        AllPrefixesHasPaths(PathsOf(lines), k);
        LookupFindsLine(lines[k]);
      }
    }

    /** The inner loop of BuildDirectoryTree for one line split into `parts`:
        walk down from the root, creating each missing node with its
        cumulative path. Returns the node reached. */
    method AddPath(parts: seq<string>) returns (leaf: nat)
      requires Valid()
      modifies this
      ensures Valid() && leaf < |names| && routes[leaf] == parts && paths[leaf] == Join(parts, SLASH)
      ensures OnWalk(old(Snapshot()), parts, |parts|, leaf)
    {
      ghost var s0 := Snapshot();
      WalkStart(s0, parts);
      var currentNode: nat := 0;
      var currentPath := "";
      var j := 0;
      while j < |parts|
        invariant OnWalk(s0, parts, j, currentNode)
        invariant currentPath == Join(parts[..j], SLASH)
      {
        var part := parts[j];
        currentPath := CumulativePath(parts, j, currentPath);
        currentNode := Descend(currentNode, part, currentPath, s0, parts, j);
        j := j + 1;
      }
      TakeAll(parts, j);
      leaf := currentNode;
    }
  }

  /** `j == 0 ? part : $"{currentPath}/{part}"`: the FullPath given to the
      node for segment `j` of a line is the line's first j + 1 segments
      joined by '/'. */
  function CumulativePath(parts: seq<string>, j: nat, currentPath: string): (r: string)
    requires j < |parts| && currentPath == Join(parts[..j], SLASH)
    ensures r == Join(parts[..j + 1], SLASH)
  {
    assert parts[..j + 1] == parts[..j] + [parts[j]];
    JoinSnoc(parts[..j], parts[j], SLASH);
    if j == 0 then parts[j] else currentPath + "/" + parts[j]
  }

  /** The segment lists of the manifest lines. */
  function PathsOf(lines: seq<string>): (paths: seq<seq<string>>)
    ensures |paths| == |lines|
    ensures forall k :: 0 <= k < |lines| ==> paths[k] == Segments(lines[k])
  {
    if lines == [] then [] else PathsOf(lines[..|lines| - 1]) + [Segments(lines[|lines| - 1])]
  }

  lemma PathsOfSnoc(lines: seq<string>, line: string)
    ensures PathsOf(lines + [line]) == PathsOf(lines) + [Segments(line)]
  {
    assert (lines + [line])[..|lines|] == lines;
  }

  /** BuildDirectoryTree(fileContent, progress): the tree of the manifest's
      lines, and the line indices `i` for which the fraction i / totalLines
      is reported, with the corrected throttle Progress.ReportDue; by
      Progress.ScheduleAtMost101 there are at most 101 of them. */
  method BuildDirectoryTree(fileContent: string) returns (root: DirectoryTree, reports: seq<nat>)
    ensures fresh(root) && root.BuiltFrom(SplitLines(fileContent))
    ensures reports == Progress.Schedule(|SplitLines(fileContent)|, |SplitLines(fileContent)|)
  {
    var lines := SplitLines(fileContent);
    root := new DirectoryTree();
    var totalLines := |lines|;
    reports := [];
    var i: nat := 0;
    while i < totalLines
      invariant fresh(root) && i <= totalLines && root.BuiltFrom(lines[..i])
      invariant reports == Progress.Schedule(totalLines, i)
    {
      TakeSnoc(lines, i);
      root.AddLine(lines[i], lines[..i]);
      reports := Progress.ReportIfDue(reports, i, totalLines);
      i := i + 1;
    }
    TakeAll(lines, i);
  }
}
