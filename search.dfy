/**
 * The read-only queries of a Hierarchy, as functions of the tree they search:
 * _findNode, findDescendantNodeByName, getAllDescendantNodesAsArray and the
 * root-to-node path behind getPathOfNode and getNamesOfNodePath.
 * Results are paths relative to the node the search starts from.
 */
module Search {
  import opened Wrappers
  import opened Trees
  import opened Traversal

  /** The position of the first entry of s whose node is named x. */
  function FirstNamed(s: seq<Entry>, x: string): (r: Option<nat>)
    ensures r.Some? ==> r.value < |s| && s[r.value].node.name == x &&
                        forall j :: 0 <= j < r.value ==> s[j].node.name != x
    ensures r.None? ==> forall j :: 0 <= j < |s| ==> s[j].node.name != x
  {
    if s == [] then None
    else if s[0].node.name == x then Some(0)
    else match FirstNamed(s[1..], x)
      case None => None
      case Some(k) => Some(k + 1)
  }

  /** p addresses a node named x, and no node named x comes before it level by
      level, left to right. */
  ghost predicate FirstByName(t: Node, p: Path, x: string)
  {
    ValidPath(t, p) && At(t, p).name == x &&
    forall q :: ValidPath(t, q) && Before(q, p) ==> At(t, q).name != x
  }

  /** _findNode(nodeName, startNode): the first node named x in a breadth-first
      walk from start, start itself included, or None (undefined) when there is none. */
  function FindNode(x: string, start: Node): (r: Option<Path>)
    ensures r.Some? ==> ValidPath(start, r.value) && At(start, r.value).name == x
  {
    match FirstNamed(Visit(start), x)
    case None => None
    case Some(k) =>
      VisitLocated(start);
      assert Visit(start)[k] in Visit(start);
      Some(Visit(start)[k].path)
  }

  lemma FindNodeMissing(x: string, start: Node)
    ensures FindNode(x, start) == None <==> !Occurs(start, x)
  {
    var s := Visit(start);
    if FindNode(x, start) == None {
      forall q | ValidPath(start, q) ensures At(start, q).name != x {
        VisitComplete(start, q);
        VisitLocated(start);
        var j :| 0 <= j < |s| && s[j].path == q;
        assert s[j] in s;
      }
    }
  }

  /** The search result is exactly the first node named x in breadth-first order. */
  lemma FindNodeIsFirst(x: string, start: Node, p: Path)
    ensures FindNode(x, start) == Some(p) <==> FirstByName(start, p, x)
  {
    if FindNode(x, start) == Some(p) {
      FindNodeFirst(x, start);
    }
    if FirstByName(start, p, x) {
      FindNodeMissing(x, start);
      var p' := FindNode(x, start).value;
      FindNodeFirst(x, start);
      if p != p' {
        BeforeTotal(p, p');
      }
    }
  }

  lemma FindNodeFirst(x: string, start: Node)
    requires FindNode(x, start).Some?
    ensures FirstByName(start, FindNode(x, start).value, x)
  {
    var s := Visit(start);
    var k := FirstNamed(s, x).value;
    var p := s[k].path;
    assert FindNode(x, start).value == p;
    VisitLocated(start);
    VisitSorted(start);
    forall q | ValidPath(start, q) && Before(q, p) ensures At(start, q).name != x {
      VisitComplete(start, q);
      var j :| 0 <= j < |s| && s[j].path == q;
      assert s[j] in s;
      if j == k {
        BeforeIrreflexive(p);
      } else if j > k {
        BeforeAsymmetric(p, q);
      }
    }
  }

  /** Searching from a node for its own name finds that node. */
  lemma FindStartName(start: Node)
    ensures FindNode(start.name, start) == Some([])
  {
    var q := [Entry([], start)];
    DequeueShrinks(q);
    assert Visit(start)[0] == q[0];
  }

  // ---------------------------------------------------------------------
  // findDescendantNodeByName

  /** The three outcomes of findDescendantNodeByName: false (no ancestor),
      undefined (no descendant) and the descendant's model. */
  datatype Lookup = AncestorMissing | DescendantMissing | Found(model: Node)

  /** Find the ancestor named a from start, then the first node named d in the
      ancestor's own subtree (the ancestor included). */
  function FindDescendant(a: string, d: string, start: Node): (r: Lookup)
    ensures r == AncestorMissing <==> !Occurs(start, a)
    ensures r.Found? ==> r.model.name == d
  {
    FindNodeMissing(a, start);
    match FindNode(a, start)
    case None => AncestorMissing
    case Some(pa) =>
      match FindNode(d, At(start, pa))
      case None => DescendantMissing
      case Some(pd) => Found(At(At(start, pa), pd))
  }

  lemma FindDescendantSpec(a: string, d: string, start: Node, pa: Path)
    requires FirstByName(start, pa, a)
    ensures FindDescendant(a, d, start) == DescendantMissing <==> !Occurs(At(start, pa), d)
    ensures forall pd :: FirstByName(At(start, pa), pd, d) ==>
              ValidPath(start, pa + pd) && FindDescendant(a, d, start) == Found(At(start, pa + pd))
  {
    FindNodeIsFirst(a, start, pa);
    FindNodeMissing(d, At(start, pa));
    forall pd | FirstByName(At(start, pa), pd, d)
      ensures ValidPath(start, pa + pd) && FindDescendant(a, d, start) == Found(At(start, pa + pd))
    {
      FindNodeIsFirst(d, At(start, pa), pd);
      AtConcat(start, pa, pd);
    }
  }

  /** The ancestor is part of its own search scope: asking for a descendant with
      the ancestor's name yields the ancestor. */
  lemma FindDescendantSelf(a: string, start: Node)
    requires Occurs(start, a)
    ensures FindNode(a, start).Some?
    ensures FindDescendant(a, a, start) == Found(At(start, FindNode(a, start).value))
  {
    FindNodeMissing(a, start);
    var pa := FindNode(a, start).value;
    FindStartName(At(start, pa));
  }

  // ---------------------------------------------------------------------
  // getAllDescendantNodesAsArray

  /** The entries of s whose node is not named x, in their order in s. */
  function Unnamed(s: seq<Entry>, x: string): (r: seq<Entry>)
    ensures forall e :: e in r <==> e in s && e.node.name != x
  {
    if s == [] then []
    else if s[0].node.name != x then [s[0]] + Unnamed(s[1..], x)
    else Unnamed(s[1..], x)
  }

  lemma {:induction false} UnnamedSorted(s: seq<Entry>, x: string)
    requires Sorted(s)
    ensures Sorted(Unnamed(s, x))
  {
    if s != [] {
      SortedTail(s);
      UnnamedSorted(s[1..], x);
      if s[0].node.name != x {
        var tail := Unnamed(s[1..], x);
        assert Sorted([s[0]]);
        SortedConcat([s[0]], tail);
      }
    }
  }

  lemma ClearDistributes(a: multiset<string>, b: multiset<string>, x: string)
    ensures (a + b)[x := 0] == a[x := 0] + b[x := 0]
  {
  }

  lemma VisitedNamesCons(e: Entry, s: seq<Entry>)
    ensures VisitedNames([e] + s) == [e.node.name] + VisitedNames(s)
  {
  }

  lemma {:induction false} UnnamedCensus(s: seq<Entry>, x: string)
    ensures multiset(VisitedNames(Unnamed(s, x))) == multiset(VisitedNames(s))[x := 0]
  {
    if s != [] {
      var n := s[0].node.name;
      var a, b := VisitedNames(Unnamed(s[1..], x)), VisitedNames(s[1..]);
      UnnamedCensus(s[1..], x);
      assert s == [s[0]] + s[1..];
      VisitedNamesCons(s[0], s[1..]);
      assert multiset(VisitedNames(s)) == multiset{n} + multiset(b);
      ClearDistributes(multiset{n}, multiset(b), x);
      if n != x {
        VisitedNamesCons(s[0], Unnamed(s[1..], x));
        assert multiset(VisitedNames(Unnamed(s, x))) == multiset{n} + multiset(a);
      } else {
        assert multiset{n}[x := 0] == multiset{};
      }
    }
  }

  /** The nodes getAllDescendantNodesAsArray reports: the breadth-first visit of
      the first node named x, without every node named x (the matched node among them). */
  function DescendantEntries(x: string, start: Node): seq<Entry>
    requires FindNode(x, start).Some?
  {
    Unnamed(Visit(At(start, FindNode(x, start).value)), x)
  }

  /** getAllDescendantNodesAsArray(nodeName, startNode): the names of those nodes. */
  function DescendantNames(x: string, start: Node): (r: seq<string>)
    requires FindNode(x, start).Some?
    ensures x !in r
    ensures multiset(r) == Census(At(start, FindNode(x, start).value))[x := 0]
  {
    var sub := At(start, FindNode(x, start).value);
    VisitCensus(sub);
    UnnamedCensus(Visit(sub), x);
    VisitedNames(DescendantEntries(x, start))
  }

  /** The reported nodes are exactly the subtree's nodes not named x, each once,
      level by level and left to right. */
  lemma DescendantEntriesSpec(x: string, start: Node)
    requires FindNode(x, start).Some?
    ensures var sub := At(start, FindNode(x, start).value);
      var r := DescendantEntries(x, start);
      var names := DescendantNames(x, start);
      |names| == |r| && (forall i :: 0 <= i < |r| ==> names[i] == r[i].node.name) &&
      Sorted(r) &&
      (forall e :: e in r ==> Located(sub, e) && e.node.name != x) &&
      (forall q :: ValidPath(sub, q) && At(sub, q).name != x ==>
         exists i :: 0 <= i < |r| && r[i].path == q)
  {
    var sub := At(start, FindNode(x, start).value);
    var s := Visit(sub);
    var r := DescendantEntries(x, start);
    VisitSorted(sub);
    UnnamedSorted(s, x);
    VisitLocated(sub);
    forall q | ValidPath(sub, q) && At(sub, q).name != x
      ensures exists i :: 0 <= i < |r| && r[i].path == q
    {
      VisitComplete(sub, q);
      var j :| 0 <= j < |s| && s[j].path == q;
      assert s[j] in s;
      assert s[j] in r;
      var i :| 0 <= i < |r| && r[i] == s[j];
    }
  }

  /** A matched node whose subtree carries no other name than x (a node without
      children, say) yields an empty list, not undefined. */
  lemma DescendantNamesOfLeaf(x: string, start: Node)
    requires FindNode(x, start).Some?
    requires forall q :: ValidPath(At(start, FindNode(x, start).value), q) ==>
               At(At(start, FindNode(x, start).value), q).name == x
    ensures DescendantNames(x, start) == []
  {
    var sub := At(start, FindNode(x, start).value);
    var r := DescendantNames(x, start);
    var rest := Census(sub)[x := 0];
    forall y ensures rest[y] == 0 {
      CensusPaths(sub, y);
    }
    assert multiset(r) == rest == multiset{};
    assert |r| == |multiset(r)|;
  }

  // ---------------------------------------------------------------------
  // getPathOfNode and getNamesOfNodePath

  /** getPathOfNode: the nodes from the root t down to the node at p, both included. */
  function PathNodes(t: Node, p: Path): (r: seq<Node>)
    requires ValidPath(t, p)
    ensures |r| == |p| + 1 && r[0] == t && r[|p|] == At(t, p)
    decreases p
  {
    if p == [] then [t] else [t] + PathNodes(t.children[p[0]], p[1..])
  }

  /** getNamesOfNodePath: the names along that path. */
  function PathNames(t: Node, p: Path): (r: seq<string>)
    requires ValidPath(t, p)
    ensures |r| == |p| + 1 && r[0] == t.name && r[|p|] == At(t, p).name
  {
    var ns := PathNodes(t, p);
    seq(|ns|, i requires 0 <= i < |ns| => ns[i].name)
  }

  /** The i-th node of the path is the ancestor at depth i. */
  lemma {:induction false} PathNodesAncestors(t: Node, p: Path, i: nat)
    requires ValidPath(t, p) && i <= |p|
    ensures ValidPath(t, p[..i]) && PathNodes(t, p)[i] == At(t, p[..i])
    decreases p
  {
    AtConcat(t, p[..i], p[i..]);
    assert p[..i] + p[i..] == p;
    if i > 0 {
      assert p[..i][0] == p[0] && p[..i][1..] == p[1..][..i - 1];
      PathNodesAncestors(t.children[p[0]], p[1..], i - 1);
    }
  }

  /** The path of a child is the path of its parent followed by the child. */
  lemma PathNamesSnoc(t: Node, p: Path, k: nat)
    requires ValidPath(t, p + [k])
    ensures ValidPath(t, p) && PathNames(t, p + [k]) == PathNames(t, p) + [At(t, p + [k]).name]
  {
    AtSnoc(t, p, k);
    var l, s := PathNames(t, p + [k]), PathNames(t, p) + [At(t, p + [k]).name];
    forall i | 0 <= i < |l| ensures l[i] == s[i] {
      PathNodesAncestors(t, p + [k], i);
      if i <= |p| {
        PathNodesAncestors(t, p, i);
        assert (p + [k])[..i] == p[..i];
      } else {
        assert (p + [k])[..i] == p + [k];
      }
    }
  }
}
