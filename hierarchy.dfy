/**
 * The Hierarchy class: it owns the root of a tree of named nodes, answers
 * queries about it and edits it in place. A node argument is the path of that
 * node from the current root; a missing startNode means the root.
 */
module HierarchyModel {
  import opened Wrappers
  import opened Trees
  import opened Traversal
  import opened Search
  import opened Mutation
  import opened Structures

  /** The node a search starts from: the given one, or the root by default. */
  function StartPath(startNode: Option<Path>): Path
  {
    if startNode.Some? then startNode.value else []
  }

  class Hierarchy {
    /** The tree's root; the only state the methods below touch. */
    var root: Node

    /** new Hierarchy({ hierarchy, ... }): the tree parsed from the given object. */
    constructor (hierarchy: Structure)
      ensures root == Parse(hierarchy)
      ensures Unparse(root) == Normalize(hierarchy)
    {
      root := Parse(hierarchy);
      UnparseParse(hierarchy);
    }

    /** reparse: the old tree is replaced wholesale by one parsed from hierarchy. */
    method Reparse(hierarchy: Structure)
      modifies this
      ensures root == Parse(hierarchy)
      ensures Unparse(root) == Normalize(hierarchy)
    {
      root := Parse(hierarchy);
      UnparseParse(hierarchy);
    }

    /** getNewNode: a detached tree parsed from the object; the hierarchy is untouched. */
    method GetNewNode(paramsObj: Structure) returns (n: Node)
      ensures n.name == paramsObj.name && Unparse(n) == Normalize(paramsObj)
    {
      n := Parse(paramsObj);
      UnparseParse(paramsObj);
    }

    ghost predicate ValidStart(startNode: Option<Path>)
      reads this
    {
      startNode.Some? ==> ValidPath(root, startNode.value)
    }

    /** findNodeObj / _findNode: the first node named nodeName, breadth-first from the
        start node, or None (undefined). */
    method FindNodeObj(nodeName: string, startNode: Option<Path>) returns (r: Option<Path>)
      requires ValidStart(startNode)
      ensures var s := StartPath(startNode);
        (r.None? <==> !Occurs(At(root, s), nodeName)) &&
        (r.Some? ==> s <= r.value && ValidPath(root, r.value) && At(root, r.value).name == nodeName &&
                     FirstByName(At(root, s), r.value[|s|..], nodeName))
    {
      var s := StartPath(startNode);
      var sub := At(root, s);
      FindNodeMissing(nodeName, sub);
      match FindNode(nodeName, sub) {
        case None =>
          r := None;
        case Some(q) =>
          FindNodeIsFirst(nodeName, sub, q);
          AtConcat(root, s, q);
          assert (s + q)[|s|..] == q;
          r := Some(s + q);
      }
    }

    /** findNodeInHierarchy: the model of that node, or None (undefined). */
    method FindNodeInHierarchy(nodeName: string, startNode: Option<Path>) returns (r: Option<Node>)
      requires ValidStart(startNode)
      ensures var sub := At(root, StartPath(startNode));
        (r.None? <==> !Occurs(sub, nodeName)) &&
        (r.Some? ==> r.value.name == nodeName &&
                     exists q :: FirstByName(sub, q, nodeName) && r.value == At(sub, q))
    {
      var p := FindNodeObj(nodeName, startNode);
      if p.Some? {
        var s := StartPath(startNode);
        AtConcat(root, s, p.value[|s|..]);
        assert s + p.value[|s|..] == p.value;
        r := Some(At(root, p.value));
      } else {
        r := None;
      }
    }

    /** findDescendantNodeByName: false, undefined or the descendant's model. */
    method FindDescendantNodeByName(nodeName: string, descendantNodeName: string, startNode: Option<Path>)
      returns (r: Lookup)
      requires ValidStart(startNode)
      ensures r == FindDescendant(nodeName, descendantNodeName, At(root, StartPath(startNode)))
      ensures r == AncestorMissing <==> !Occurs(At(root, StartPath(startNode)), nodeName)
      ensures r.Found? ==> r.model.name == descendantNodeName
      ensures var sub := At(root, StartPath(startNode));
        forall pa :: FirstByName(sub, pa, nodeName) ==>
          (r == DescendantMissing <==> !Occurs(At(sub, pa), descendantNodeName)) &&
          (forall pd :: FirstByName(At(sub, pa), pd, descendantNodeName) ==>
             ValidPath(sub, pa + pd) && r == Found(At(sub, pa + pd)))
    {
      var sub := At(root, StartPath(startNode));
      r := FindDescendant(nodeName, descendantNodeName, sub);
      forall pa | FirstByName(sub, pa, nodeName)
        ensures (r == DescendantMissing <==> !Occurs(At(sub, pa), descendantNodeName)) &&
          (forall pd :: FirstByName(At(sub, pa), pd, descendantNodeName) ==>
             ValidPath(sub, pa + pd) && r == Found(At(sub, pa + pd)))
      {
        FindDescendantSpec(nodeName, descendantNodeName, sub, pa);
      }
    }

    /** getAllDescendantNodesAsArray: the breadth-first names below the first node
        named nodeName, without any node of that name. The node must exist. */
    method GetAllDescendantNodesAsArray(nodeName: string, startNode: Option<Path>) returns (r: seq<string>)
      requires ValidStart(startNode)
      requires FindNode(nodeName, At(root, StartPath(startNode))).Some?
      ensures var sub := At(root, StartPath(startNode));
        r == DescendantNames(nodeName, sub) && nodeName !in r &&
        multiset(r) == Census(At(sub, FindNode(nodeName, sub).value))[nodeName := 0]
      ensures var sub := At(root, StartPath(startNode));
        var m, es := At(sub, FindNode(nodeName, sub).value), DescendantEntries(nodeName, sub);
        |r| == |es| && (forall i :: 0 <= i < |r| ==> r[i] == es[i].node.name) &&
        Sorted(es) &&
        (forall e :: e in es ==> Located(m, e) && e.node.name != nodeName) &&
        (forall q :: ValidPath(m, q) && At(m, q).name != nodeName ==>
           exists i :: 0 <= i < |es| && es[i].path == q)
    {
      var sub := At(root, StartPath(startNode));
      r := DescendantNames(nodeName, sub);
      DescendantEntriesSpec(nodeName, sub);
    }

    /** getPathOfNode: the nodes from the root down to node, both included. */
    method GetPathOfNode(node: Path) returns (r: seq<Node>)
      requires ValidPath(root, node)
      ensures r == PathNodes(root, node)
      ensures |r| == |node| + 1 && r[0] == root && r[|node|] == At(root, node)
      ensures forall i :: 0 <= i < |node| ==> ValidPath(root, node[..i]) && r[i] == At(root, node[..i])
    {
      r := PathNodes(root, node);
      forall i | 0 <= i < |node| ensures ValidPath(root, node[..i]) && r[i] == At(root, node[..i]) {
        PathNodesAncestors(root, node, i);
      }
    }

    /** getNamesOfNodePath: the names along that path. */
    method GetNamesOfNodePath(node: Path) returns (r: seq<string>)
      requires ValidPath(root, node)
      ensures r == PathNames(root, node)
      ensures |r| == |node| + 1 && r[0] == root.name && r[|node|] == At(root, node).name
    {
      r := PathNames(root, node);
    }

    /** addNodeAsChildOfNode: childNode, a detached tree, becomes the last child of
        parentNode; the result is the child's path. */
    method AddNodeAsChildOfNode(parentNode: Path, childNode: Node) returns (r: Path)
      requires ValidPath(root, parentNode)
      modifies this
      ensures root == AddChild(old(root), parentNode, childNode)
      ensures r == parentNode + [|At(old(root), parentNode).children|]
      ensures ValidPath(root, r) && At(root, r) == childNode
      ensures PathNames(root, r) == PathNames(old(root), parentNode) + [childNode.name]
      ensures Census(root) == old(Census(root)) + Census(childNode)
    {
      r := parentNode + [|At(root, parentNode).children|];
      AddChildAt(root, parentNode, childNode);
      AddChildPath(root, parentNode, childNode);
      AddChildCensus(root, parentNode, childNode);
      root := AddChild(root, parentNode, childNode);
    }

    /** deleteNodeFromHierarchy: node's subtree is detached from its parent and
        returned as a tree of its own; dropping the root changes nothing. */
    method DeleteNodeFromHierarchy(node: Path) returns (r: Node)
      requires ValidPath(root, node)
      modifies this
      ensures r == At(old(root), node)
      ensures FindNode(r.name, r) == Some([])
      ensures node == [] ==> root == old(root)
      ensures node != [] ==> root == Drop(old(root), node) && Census(root) + Census(r) == old(Census(root))
    {
      r := At(root, node);
      FindStartName(r);
      if node != [] {
        DropCensus(root, node);
        root := Drop(root, node);
      }
    }
  }

  /** The sequence the tests run on one hierarchy: attach a subtree under a node,
      find it again by its (fresh) name, drop it; the tree is as before, so every
      path, Human's among them, reads as before. */
  method AddThenDrop(h: Hierarchy, parent: Path, mutants: Node) returns (dropped: Node)
    requires ValidPath(h.root, parent)
    requires !Occurs(h.root, mutants.name)
    modifies h
    ensures dropped == mutants
    ensures h.root == old(h.root)
  {
    ghost var before := h.root;
    var added := h.AddNodeAsChildOfNode(parent, mutants);
    assert ValidPath(h.root, added) && At(h.root, added).name == mutants.name;
    var found := h.FindNodeObj(mutants.name, None);
    var q := found.value;
    assert q[0..] == q;
    SearchHitsNewSubtree(before, parent, mutants, q);
    dropped := h.DeleteNodeFromHierarchy(q);
    DropUndoesAdd(before, parent, mutants);
  }
}
