/**
 * The two structural edits a Hierarchy makes through its tree library:
 * addChild (attach a subtree as the last child of a node) and drop (detach a
 * subtree from its parent). Nodes are addressed by their paths from the root.
 */
module Mutation {
  import opened Wrappers
  import opened Trees
  import opened Search

  /** parentNode.addChild(childNode): c becomes the last child of the node at p. */
  function AddChild(t: Node, p: Path, c: Node): (r: Node)
    requires ValidPath(t, p)
    ensures r.name == t.name
    decreases p
  {
    if p == [] then Node(t.name, t.children + [c])
    else Node(t.name, t.children[p[0] := AddChild(t.children[p[0]], p[1..], c)])
  }

  /** After the append, the parent's children are its old children followed by c,
      and the new child sits at index (old number of children). */
  lemma {:induction false} AddChildAt(t: Node, p: Path, c: Node)
    requires ValidPath(t, p)
    ensures var r, k := AddChild(t, p, c), |At(t, p).children|;
      ValidPath(r, p) && At(r, p).name == At(t, p).name &&
      At(r, p).children == At(t, p).children + [c] &&
      ValidPath(r, p + [k]) && At(r, p + [k]) == c
    decreases p
  {
    var r, k := AddChild(t, p, c), |At(t, p).children|;
    if p != [] {
      AddChildAt(t.children[p[0]], p[1..], c);
    }
    AtSnoc(r, p, k);
  }

  /** Every node that was there is still there under the same path and name; a node
      that is not an ancestor of the parent (nor the parent itself) is unchanged. */
  lemma {:induction false} AddChildPreserves(t: Node, p: Path, c: Node, q: Path)
    requires ValidPath(t, p) && ValidPath(t, q)
    ensures var r := AddChild(t, p, c);
      ValidPath(r, q) && At(r, q).name == At(t, q).name &&
      (!(q <= p) ==> At(r, q) == At(t, q))
    decreases q
  {
    if q != [] && p != [] && q[0] == p[0] {
      AddChildPreserves(t.children[p[0]], p[1..], c, q[1..]);
    }
  }

  /** The root-to-node names of every old node are unchanged by the append. */
  lemma AddChildKeepsPaths(t: Node, p: Path, c: Node, q: Path)
    requires ValidPath(t, p) && ValidPath(t, q)
    ensures ValidPath(AddChild(t, p, c), q) && PathNames(AddChild(t, p, c), q) == PathNames(t, q)
  {
    var r := AddChild(t, p, c);
    AddChildPreserves(t, p, c, q);
    var a, b := PathNames(r, q), PathNames(t, q);
    forall i | 0 <= i < |a| ensures a[i] == b[i] {
      PathNodesAncestors(t, q, i);
      PathNodesAncestors(r, q, i);
      AddChildPreserves(t, p, c, q[..i]);
    }
  }

  /** The path of the new child is the path of its parent followed by the child. */
  lemma AddChildPath(t: Node, p: Path, c: Node)
    requires ValidPath(t, p)
    ensures var r, k := AddChild(t, p, c), |At(t, p).children|;
      ValidPath(r, p + [k]) && PathNames(r, p + [k]) == PathNames(t, p) + [c.name]
  {
    var r, k := AddChild(t, p, c), |At(t, p).children|;
    AddChildAt(t, p, c);
    PathNamesSnoc(r, p, k);
    AddChildKeepsPaths(t, p, c, p);
  }

  /** The tree gains exactly the names of the attached subtree. */
  lemma {:induction false} AddChildCensus(t: Node, p: Path, c: Node)
    requires ValidPath(t, p)
    ensures Census(AddChild(t, p, c)) == Census(t) + Census(c)
    decreases p
  {
    if p == [] {
      ForestCensusAppend(t.children, [c]);
      assert ForestCensus([c]) == Census(c) by { assert [c][1..] == []; }
    } else {
      var i := p[0];
      AddChildCensus(t.children[i], p[1..], c);
      CensusUnderChild(t, i, AddChild(t.children[i], p[1..], c), Census(c));
    }
  }

  /** Replacing a child by one that holds the extra names m adds m to the tree's names. */
  lemma CensusUnderChild(t: Node, i: nat, n: Node, m: multiset<string>)
    requires i < |t.children| && Census(n) == Census(t.children[i]) + m
    ensures Census(Node(t.name, t.children[i := n])) == Census(t) + m
  {
    var cs := t.children;
    ForestCensusUpdate(cs, i, n);
    assert ForestCensus(cs[i := n]) + Census(cs[i]) == (ForestCensus(cs) + m) + Census(cs[i]);
    MultisetCancel(ForestCensus(cs[i := n]), ForestCensus(cs) + m, Census(cs[i]));
  }

  // ---------------------------------------------------------------------
  // drop

  /** node.drop() for a node that has a parent: its subtree leaves the parent's
      children, the remaining siblings keeping their order. */
  function Drop(t: Node, p: Path): (r: Node)
    requires ValidPath(t, p) && p != []
    ensures r.name == t.name
    decreases p
  {
    if |p| == 1 then Node(t.name, t.children[..p[0]] + t.children[p[0] + 1..])
    else Node(t.name, t.children[p[0] := Drop(t.children[p[0]], p[1..])])
  }

  /** The parent of the dropped node keeps its name and loses exactly that child. */
  lemma {:induction false} DropAtParent(t: Node, p: Path)
    requires ValidPath(t, p) && p != []
    ensures var r, pp, i := Drop(t, p), p[..|p| - 1], p[|p| - 1];
      ValidPath(t, pp) && ValidPath(r, pp) && i < |At(t, pp).children| &&
      At(r, pp).name == At(t, pp).name &&
      At(r, pp).children == At(t, pp).children[..i] + At(t, pp).children[i + 1..]
    decreases p
  {
    var pp, i := p[..|p| - 1], p[|p| - 1];
    AtSnoc(t, pp, i);
    assert pp + [i] == p;
    if |p| > 1 {
      DropAtParent(t.children[p[0]], p[1..]);
      assert pp[0] == p[0] && pp[1..] == p[1..][..|p[1..]| - 1];
    }
  }

  /** A node beside the dropped subtree (neither on the way to its parent nor
      under that parent) keeps its path and its whole subtree. */
  lemma {:induction false} DropKeepsOthers(t: Node, p: Path, q: Path)
    requires ValidPath(t, p) && p != [] && ValidPath(t, q)
    requires !(q <= p[..|p| - 1]) && !(p[..|p| - 1] <= q)
    ensures ValidPath(Drop(t, p), q) && At(Drop(t, p), q) == At(t, q)
    decreases p
  {
    var pp := p[..|p| - 1];
    assert |p| > 1 && q != [];
    assert pp[0] == p[0];
    if q[0] == p[0] {
      assert pp[1..] == p[1..][..|p[1..]| - 1];
      DropKeepsOthers(t.children[p[0]], p[1..], q[1..]);
    }
  }

  /** The ancestors of the dropped node keep their names, so the path to the
      parent reads as before. */
  lemma {:induction false} DropKeepsAncestors(t: Node, p: Path, q: Path)
    requires ValidPath(t, p) && p != [] && q <= p[..|p| - 1]
    ensures ValidPath(t, q) && ValidPath(Drop(t, p), q) && At(Drop(t, p), q).name == At(t, q).name
    decreases p
  {
    var pp := p[..|p| - 1];
    DropAtParent(t, p);
    AtConcat(t, q, pp[|q|..]);
    assert q + pp[|q|..] == pp;
    if q != [] {
      assert pp[0] == p[0] == q[0];
      assert q[1..] <= p[1..][..|p[1..]| - 1];
      DropKeepsAncestors(t.children[p[0]], p[1..], q[1..]);
    }
  }

  /** The tree loses exactly the names of the dropped subtree. */
  lemma {:induction false} DropCensus(t: Node, p: Path)
    requires ValidPath(t, p) && p != []
    ensures Census(Drop(t, p)) + Census(At(t, p)) == Census(t)
    decreases p
  {
    var i := p[0];
    var cs := t.children;
    if |p| == 1 {
      ForestCensusRemove(cs, i);
      assert Drop(t, p) == Node(t.name, cs[..i] + cs[i + 1..]);
      assert At(t, p) == cs[i];
    } else {
      var d := Drop(cs[i], p[1..]);
      DropCensus(cs[i], p[1..]);
      assert At(t, p) == At(cs[i], p[1..]);
      CensusWithoutChild(t, i, d, Census(At(t, p)));
      assert Drop(t, p) == Node(t.name, cs[i := d]);
    }
  }

  /** Replacing a child by one that lacks the names m takes m from the tree's names. */
  lemma CensusWithoutChild(t: Node, i: nat, d: Node, m: multiset<string>)
    requires i < |t.children| && Census(d) + m == Census(t.children[i])
    ensures Census(Node(t.name, t.children[i := d])) + m == Census(t)
  {
    var cs := t.children;
    ForestCensusUpdate(cs, i, d);
    assert (ForestCensus(cs[i := d]) + m) + Census(d) == ForestCensus(cs) + Census(d);
    MultisetCancel(ForestCensus(cs[i := d]) + m, ForestCensus(cs), Census(d));
  }

  /** A name all of whose nodes lay in the dropped subtree is no longer found from the root. */
  lemma DropRemovesNames(t: Node, p: Path, x: string)
    requires ValidPath(t, p) && p != []
    requires Census(At(t, p))[x] == Census(t)[x]
    ensures FindNode(x, Drop(t, p)) == None
  {
    DropCensus(t, p);
    CensusPaths(Drop(t, p), x);
    FindNodeMissing(x, Drop(t, p));
  }

  /** Dropping the child that was just added gives back the tree as it was. */
  lemma {:induction false} DropUndoesAdd(t: Node, p: Path, c: Node)
    requires ValidPath(t, p)
    ensures var k := |At(t, p).children|;
      ValidPath(AddChild(t, p, c), p + [k]) && Drop(AddChild(t, p, c), p + [k]) == t
    decreases p
  {
    var k := |At(t, p).children|;
    AddChildAt(t, p, c);
    if p == [] {
      assert [k][0] == k;
      assert (t.children + [c])[..k] == t.children;
    } else {
      var i := p[0];
      DropUndoesAdd(t.children[i], p[1..], c);
      assert (p + [k])[0] == i && (p + [k])[1..] == p[1..] + [k];
      assert t.children[i := t.children[i]] == t.children;
    }
  }

  // ---------------------------------------------------------------------
  // searching after an append

  /** Path q leads into the k-th child of the node at p. */
  predicate Through(q: Path, p: Path, k: nat)
  {
    |q| > |p| && q[..|p|] == p && q[|p|] == k
  }

  lemma ThroughStep(q: Path, p: Path, k: nat)
    requires q != [] && p != [] && q[0] == p[0]
    ensures Through(q[1..], p[1..], k) ==> Through(q, p, k)
  {
    if Through(q[1..], p[1..], k) {
      assert q[..|p|] == [q[0]] + q[1..][..|p| - 1];
      assert p == [p[0]] + p[1..];
    }
  }

  /** A node of the extended tree that is not in the attached subtree was already
      there, under the same path and with the same name. */
  lemma {:induction false} OutsideNewChild(t: Node, p: Path, c: Node, q: Path)
    requires ValidPath(t, p) && ValidPath(AddChild(t, p, c), q)
    requires !Through(q, p, |At(t, p).children|)
    ensures ValidPath(t, q) && At(AddChild(t, p, c), q).name == At(t, q).name
    decreases p
  {
    var r, k := AddChild(t, p, c), |At(t, p).children|;
    if q != [] {
      if p == [] {
        assert q[..0] == [];
        assert r.children[q[0]] == t.children[q[0]];
      } else if q[0] != p[0] {
        assert r.children[q[0]] == t.children[q[0]];
      } else {
        ThroughStep(q, p, k);
        OutsideNewChild(t.children[p[0]], p[1..], c, q[1..]);
      }
    }
  }

  /** When the old tree has no node named like the attached child, the first node
      of that name in the extended tree is the child itself. */
  lemma SearchHitsNewSubtree(t: Node, p: Path, c: Node, q: Path)
    requires ValidPath(t, p) && !Occurs(t, c.name)
    requires FirstByName(AddChild(t, p, c), q, c.name)
    ensures q == p + [|At(t, p).children|]
  {
    var r, k := AddChild(t, p, c), |At(t, p).children|;
    AddChildAt(t, p, c);
    if !Through(q, p, k) {
      OutsideNewChild(t, p, c, q);
    }
    assert Through(q, p, k);
    assert q[..|p| + 1] == p + [k];
    assert !Before(p + [k], q);
    assert q == q[..|p| + 1];
  }

  /** Searching for the name of a freshly attached subtree finds that subtree's root. */
  lemma AddFreshFinds(t: Node, p: Path, c: Node)
    requires ValidPath(t, p) && !Occurs(t, c.name)
    ensures FindNode(c.name, AddChild(t, p, c)) == Some(p + [|At(t, p).children|])
  {
    var r, k := AddChild(t, p, c), |At(t, p).children|;
    AddChildAt(t, p, c);
    FindNodeMissing(c.name, r);
    var q := FindNode(c.name, r).value;
    FindNodeIsFirst(c.name, r, q);
    SearchHitsNewSubtree(t, p, c, q);
  }
}
