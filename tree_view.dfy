/**
 * The lazily filled tree view. CreateTreeViewItem gives an item for a node
 * whose Items hold a single null placeholder when the node has children,
 * so that the expand arrow shows; TreeViewItem_Expanded replaces that
 * placeholder with one item per child, in Children order, each created the
 * same way. WPF itself is not modelled: an item is its Tag (the node), its
 * header (the node's Name and icon) and its Items.
 */
module TreeView {
  import opened Wrappers
  import opened TreeShapes
  import opened DirectoryTrees
  import Icons

  /** A TreeViewItem. `None` in `items` is the null placeholder. */
  class TreeItem {
    const tree: DirectoryTree
    const node: nat
    const header: string
    const icon: string
    var items: seq<Option<TreeItem>>

    /** The items still hold only the placeholder: the children are not
        loaded yet. */
    predicate Unloaded()
      reads this
    {
      items == [None]
    }

    /** CreateTreeViewItem(node): the header shows the node's Name and icon;
        the Items hold a placeholder exactly when the node has children. */
    constructor (tree: DirectoryTree, node: nat)
      requires node < |tree.names| == |tree.children|
      ensures this.tree == tree && this.node == node
      ensures header == tree.names[node] && icon == Icons.GetIconPathForNode(tree.names[node])
      ensures items == if |tree.children[node]| > 0 then [None] else []
      ensures Unloaded() <==> |tree.children[node]| > 0
    {
      this.tree := tree;
      this.node := node;
      header := tree.names[node];
      icon := Icons.GetIconPathForNode(tree.names[node]);
      items := if |tree.children[node]| > 0 then [None] else [];
    }

    /** The items are one item per child of the node, in Children order,
        each showing the child's Name and icon and holding a placeholder exactly when
        the child has children of its own. */
    ghost predicate Loaded()
      reads this, tree, set k | 0 <= k < |items| && items[k].Some? :: items[k].value
    {
      && node < |tree.names| == |tree.children|
      && ChildLinksInRange(tree.children)
      && |items| == |tree.children[node]|
      && forall k :: 0 <= k < |items| ==>
           && items[k].Some?
           && items[k].value.tree == tree
           && items[k].value.node == tree.children[node][k]
           && items[k].value.header == tree.names[tree.children[node][k]]
           && items[k].value.icon == Icons.GetIconPathForNode(tree.names[tree.children[node][k]])
           && (items[k].value.Unloaded() <==> |tree.children[tree.children[node][k]]| > 0)
    }

    /** TreeViewItem_Expanded: a placeholder-only item gets one item per child
        of its node, in order; any other item is left as it is. */
    method Expanded()
      requires node < |tree.names| == |tree.children|
      requires ChildLinksInRange(tree.children)
      modifies this
      ensures old(Unloaded()) ==> Loaded()
      ensures old(Unloaded()) ==> forall k :: 0 <= k < |items| ==> fresh(items[k].value)
      ensures !old(Unloaded()) ==> items == old(items)
    {
      if |items| == 1 && items[0] == None {
        items := [];
        var children := tree.children[node];
        var k := 0;
        while k < |children|
          invariant k <= |children| && |items| == k
          invariant forall i :: 0 <= i < k ==>
                      && items[i].Some? && fresh(items[i].value)
                      && items[i].value.tree == tree && items[i].value.node == children[i]
                      && items[i].value.header == tree.names[children[i]]
                      && items[i].value.icon == Icons.GetIconPathForNode(tree.names[children[i]])
                      && (items[i].value.Unloaded() <==> |tree.children[children[i]]| > 0)
        {
          var childItem := new TreeItem(tree, children[k]);
          items := items + [Some(childItem)];
          k := k + 1;
        }
      }
    }
  }

  /** A loaded item is not a placeholder-only item, so a second expansion
      leaves it alone. */
  lemma LoadedIsNotUnloaded(item: TreeItem)
    requires item.Loaded()
    ensures !item.Unloaded()
  {
    if |item.items| == 1 {
      assert item.items[0].Some?;
    }
  }
}
