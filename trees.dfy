/**
 * The tree of named nodes that a Hierarchy owns, the index paths that
 * address its nodes, and the breadth-first ordering of those paths.
 */
module Trees {
  import opened Wrappers

  /** One node of the hierarchy: its name and its children, in insertion order.
      The rest of a node's model object carries nothing the hierarchy looks at. */
  datatype Node = Node(name: string, children: seq<Node>)

  /** A node is addressed by the child indices that lead to it from a root:
      [] is the root itself, [1, 0] the first child of the root's second child. */
  type Path = seq<nat>

  predicate ValidPath(t: Node, p: Path)
    decreases p
  {
    p == [] || (p[0] < |t.children| && ValidPath(t.children[p[0]], p[1..]))
  }

  /** The subtree rooted at the node that p addresses. */
  function At(t: Node, p: Path): Node
    requires ValidPath(t, p)
    decreases p
  {
    if p == [] then t else At(t.children[p[0]], p[1..])
  }

  /** Some node of the tree (the root included) carries the name x. */
  ghost predicate Occurs(t: Node, x: string)
  {
    exists p :: ValidPath(t, p) && At(t, p).name == x
  }

  /** Some node below one of the trees cs carries the name x. */
  ghost predicate InForest(cs: seq<Node>, x: string)
  {
    exists i, p :: 0 <= i < |cs| && ValidPath(cs[i], p) && At(cs[i], p).name == x
  }

  /** Walking p and then q from where p ends is walking p + q. */
  lemma {:induction false} AtConcat(t: Node, p: Path, q: Path)
    ensures ValidPath(t, p + q) <==> ValidPath(t, p) && ValidPath(At(t, p), q)
    ensures ValidPath(t, p + q) ==> At(t, p + q) == At(At(t, p), q)
    decreases p
  {
    if p == [] {
      assert p + q == q;
    } else {
      assert (p + q)[0] == p[0];
      assert (p + q)[1..] == p[1..] + q;
      if p[0] < |t.children| {
        AtConcat(t.children[p[0]], p[1..], q);
      }
    }
  }

  /** One more step down: p + [i] addresses the i-th child of the node at p. */
  lemma AtSnoc(t: Node, p: Path, i: nat)
    ensures ValidPath(t, p + [i]) <==> ValidPath(t, p) && i < |At(t, p).children|
    ensures ValidPath(t, p + [i]) ==> At(t, p + [i]) == At(t, p).children[i]
  {
    AtConcat(t, p, [i]);
    if ValidPath(t, p) {
      var n := At(t, p);
      assert [i][1..] == [];
    }
  }

  // ---------------------------------------------------------------------
  // Size and the multiset of names

  function Size(t: Node): nat
    decreases t
  {
    1 + ForestSize(t.children)
  }

  function ForestSize(cs: seq<Node>): nat
    decreases cs
  {
    if cs == [] then 0 else Size(cs[0]) + ForestSize(cs[1..])
  }

  lemma {:induction false} ForestSizeAppend(a: seq<Node>, b: seq<Node>)
    ensures ForestSize(a + b) == ForestSize(a) + ForestSize(b)
  {
    if a == [] {
      assert a + b == b;
    } else {
      assert (a + b)[0] == a[0];
      assert (a + b)[1..] == a[1..] + b;
      ForestSizeAppend(a[1..], b);
    }
  }

  /** Every name of the tree, counted with its multiplicity. */
  function Census(t: Node): multiset<string>
    decreases t
  {
    multiset{t.name} + ForestCensus(t.children)
  }

  function ForestCensus(cs: seq<Node>): multiset<string>
    decreases cs
  {
    if cs == [] then multiset{} else Census(cs[0]) + ForestCensus(cs[1..])
  }

  lemma {:induction false} ForestCensusAppend(a: seq<Node>, b: seq<Node>)
    ensures ForestCensus(a + b) == ForestCensus(a) + ForestCensus(b)
  {
    if a == [] {
      assert a + b == b;
    } else {
      assert (a + b)[0] == a[0];
      assert (a + b)[1..] == a[1..] + b;
      ForestCensusAppend(a[1..], b);
    }
  }

  /** Replacing one child changes the census by exactly that child's names. */
  lemma ForestCensusUpdate(cs: seq<Node>, i: nat, c: Node)
    requires i < |cs|
    ensures ForestCensus(cs[i := c]) + Census(cs[i]) == ForestCensus(cs) + Census(c)
  {
    assert cs == cs[..i] + [cs[i]] + cs[i + 1..];
    assert cs[i := c] == cs[..i] + [c] + cs[i + 1..];
    ForestCensusAppend(cs[..i] + [cs[i]], cs[i + 1..]);
    ForestCensusAppend(cs[..i], [cs[i]]);
    ForestCensusAppend(cs[..i] + [c], cs[i + 1..]);
    ForestCensusAppend(cs[..i], [c]);
    assert ForestCensus([c]) == Census(c) by { assert [c][1..] == []; }
    assert ForestCensus([cs[i]]) == Census(cs[i]) by { assert [cs[i]][1..] == []; }
  }

  lemma MultisetCancel(a: multiset<string>, b: multiset<string>, c: multiset<string>)
    requires a + c == b + c
    ensures a == b
  {
    forall y ensures a[y] == b[y] {
      assert (a + c)[y] == (b + c)[y];
    }
  }

  /** Removing one child removes exactly that child's names. */
  lemma ForestCensusRemove(cs: seq<Node>, i: nat)
    requires i < |cs|
    ensures ForestCensus(cs[..i] + cs[i + 1..]) + Census(cs[i]) == ForestCensus(cs)
  {
    var a, x, b := cs[..i], cs[i], cs[i + 1..];
    assert cs == a + ([x] + b);
    assert ([x] + b)[0] == x && ([x] + b)[1..] == b;
    ForestCensusAppend(a, [x] + b);
    ForestCensusAppend(a, b);
    var fa, fb, cx := ForestCensus(a), ForestCensus(b), Census(x);
    assert (fa + fb) + cx == fa + (cx + fb);
  }

  /** A name is in some child's census exactly when a path below that child carries it. */
  lemma {:induction false} ForestCensusPaths(cs: seq<Node>, x: string)
    ensures x in ForestCensus(cs) <==> InForest(cs, x)
    decreases cs
  {
    if cs != [] {
      CensusPaths(cs[0], x);
      ForestCensusPaths(cs[1..], x);
      assert ForestCensus(cs) == Census(cs[0]) + ForestCensus(cs[1..]);
      if x in Census(cs[0]) {
        var p :| ValidPath(cs[0], p) && At(cs[0], p).name == x;
        assert InForest(cs, x) by {
          assert 0 <= 0 < |cs| && ValidPath(cs[0], p) && At(cs[0], p).name == x;
        }
      } else if x in ForestCensus(cs[1..]) {
        var i, p :| 0 <= i < |cs[1..]| && ValidPath(cs[1..][i], p) && At(cs[1..][i], p).name == x;
        assert cs[1..][i] == cs[i + 1];
        assert InForest(cs, x) by {
          assert 0 <= i + 1 < |cs| && ValidPath(cs[i + 1], p) && At(cs[i + 1], p).name == x;
        }
      }
      if InForest(cs, x) {
        var i, p :| 0 <= i < |cs| && ValidPath(cs[i], p) && At(cs[i], p).name == x;
        if i == 0 {
          assert Occurs(cs[0], x);
        } else {
          assert cs[1..][i - 1] == cs[i];
          assert InForest(cs[1..], x) by {
            assert 0 <= i - 1 < |cs[1..]| && ValidPath(cs[1..][i - 1], p) && At(cs[1..][i - 1], p).name == x;
          }
        }
      }
    }
  }

  /** The census holds exactly the names that some node of the tree carries. */
  lemma {:induction false} CensusPaths(t: Node, x: string)
    ensures x in Census(t) <==> Occurs(t, x)
    decreases t, 1
  {
    ForestCensusPaths(t.children, x);
    if x in Census(t) {
      if x == t.name {
        assert ValidPath(t, []) && At(t, []).name == x;
      } else {
        assert x in ForestCensus(t.children);
        var i, p :| 0 <= i < |t.children| && ValidPath(t.children[i], p) && At(t.children[i], p).name == x;
        var q := [i] + p;
        assert q[0] == i && q[1..] == p;
        assert ValidPath(t, q) && At(t, q).name == x;
      }
    }
    if Occurs(t, x) {
      var q :| ValidPath(t, q) && At(t, q).name == x;
      if q != [] {
        assert InForest(t.children, x) by {
          assert 0 <= q[0] < |t.children| && ValidPath(t.children[q[0]], q[1..])
            && At(t.children[q[0]], q[1..]).name == x;
        }
      }
    }
  }

  // ---------------------------------------------------------------------
  // Breadth-first order on paths: shallower first, then left to right

  /** Lexicographic order on index sequences. */
  predicate LexLess(p: Path, q: Path)
    decreases p
  {
    |p| > 0 && |q| > 0 && (p[0] < q[0] || (p[0] == q[0] && LexLess(p[1..], q[1..])))
  }

  /** p comes strictly before q in a level-by-level, left-to-right visit. */
  predicate Before(p: Path, q: Path)
  {
    |p| < |q| || (|p| == |q| && LexLess(p, q))
  }

  lemma {:induction false} LexIrreflexive(p: Path)
    ensures !LexLess(p, p)
    decreases p
  {
    if |p| > 0 {
      LexIrreflexive(p[1..]);
    }
  }

  lemma {:induction false} LexTransitive(p: Path, q: Path, r: Path)
    requires LexLess(p, q) && LexLess(q, r)
    ensures LexLess(p, r)
    decreases p
  {
    if p[0] == q[0] && q[0] == r[0] {
      LexTransitive(p[1..], q[1..], r[1..]);
    }
  }

  lemma {:induction false} LexTotal(p: Path, q: Path)
    requires |p| == |q| && p != q
    ensures LexLess(p, q) || LexLess(q, p)
    decreases p
  {
    if p[0] == q[0] {
      assert p == [p[0]] + p[1..] && q == [q[0]] + q[1..];
      LexTotal(p[1..], q[1..]);
    }
  }

  /** Extending two lexicographically ordered sequences of equal length keeps their order. */
  lemma {:induction false} LexExtend(p: Path, q: Path, s: Path, u: Path)
    requires |p| == |q| && LexLess(p, q)
    ensures LexLess(p + s, q + u)
    decreases p
  {
    assert (p + s)[0] == p[0] && (q + u)[0] == q[0];
    if p[0] == q[0] {
      assert (p + s)[1..] == p[1..] + s && (q + u)[1..] == q[1..] + u;
      LexExtend(p[1..], q[1..], s, u);
    }
  }

  lemma {:induction false} LexSiblings(p: Path, i: nat, j: nat)
    requires i < j
    ensures LexLess(p + [i], p + [j])
    decreases p
  {
    if p != [] {
      assert (p + [i])[0] == p[0] && (p + [j])[0] == p[0];
      assert (p + [i])[1..] == p[1..] + [i] && (p + [j])[1..] == p[1..] + [j];
      LexSiblings(p[1..], i, j);
    }
  }

  lemma BeforeIrreflexive(p: Path)
    ensures !Before(p, p)
  {
    LexIrreflexive(p);
  }

  lemma BeforeTransitive(p: Path, q: Path, r: Path)
    requires Before(p, q) && Before(q, r)
    ensures Before(p, r)
  {
    if |p| == |q| == |r| {
      LexTransitive(p, q, r);
    }
  }

  lemma BeforeTotal(p: Path, q: Path)
    requires p != q
    ensures Before(p, q) || Before(q, p)
  {
    if |p| == |q| {
      LexTotal(p, q);
    }
  }

  lemma BeforeAsymmetric(p: Path, q: Path)
    requires Before(p, q)
    ensures !Before(q, p)
  {
    if Before(q, p) {
      BeforeTransitive(p, q, p);
      BeforeIrreflexive(p);
    }
  }
}
