/**
 * Breadth-first traversal, as the hierarchy asks of its tree library with
 * { strategy: 'breadth' }: a queue starts with the start node; the node at the
 * head is visited and its children are appended to the back of the queue.
 */
module Traversal {
  import opened Wrappers
  import opened Trees

  /** A queued node together with the path that leads to it from the start node. */
  datatype Entry = Entry(path: Path, node: Node)

  function Nodes(q: seq<Entry>): seq<Node>
  {
    seq(|q|, i requires 0 <= i < |q| => q[i].node)
  }

  /** The entries of e's children, left to right. */
  function ChildEntries(e: Entry): seq<Entry>
  {
    seq(|e.node.children|, i requires 0 <= i < |e.node.children| => Entry(e.path + [i], e.node.children[i]))
  }

  /** The total number of nodes still to be visited from queue q. */
  function Pending(q: seq<Entry>): nat
  {
    ForestSize(Nodes(q))
  }

  lemma DequeueShrinks(q: seq<Entry>)
    requires q != []
    ensures Pending(q[1..] + ChildEntries(q[0])) < Pending(q)
  {
    assert Nodes(q[1..] + ChildEntries(q[0])) == Nodes(q[1..]) + q[0].node.children;
    ForestSizeAppend(Nodes(q[1..]), q[0].node.children);
    assert Nodes(q)[0] == q[0].node && Nodes(q)[1..] == Nodes(q[1..]);
    assert ForestSize(Nodes(q)) == Size(q[0].node) + ForestSize(Nodes(q[1..]));
  }

  /** The order in which a breadth-first walk visits the entries of queue q and
      everything below them. */
  function Order(q: seq<Entry>): seq<Entry>
    decreases Pending(q)
  {
    if q == [] then []
    else
      DequeueShrinks(q);
      [q[0]] + Order(q[1..] + ChildEntries(q[0]))
  }

  /** The breadth-first visit of the tree rooted at start. */
  function Visit(start: Node): seq<Entry>
  {
    Order([Entry([], start)])
  }

  // ---------------------------------------------------------------------
  // Every visited entry is a node of the tree, at the path it records

  ghost predicate Located(t: Node, e: Entry)
  {
    ValidPath(t, e.path) && At(t, e.path) == e.node
  }

  lemma ChildEntriesLocated(t: Node, e: Entry)
    requires Located(t, e)
    ensures forall c :: c in ChildEntries(e) ==> Located(t, c)
  {
    forall c | c in ChildEntries(e) ensures Located(t, c) {
      var i :| 0 <= i < |ChildEntries(e)| && ChildEntries(e)[i] == c;
      AtSnoc(t, e.path, i);
    }
  }

  lemma {:induction false} OrderLocated(t: Node, q: seq<Entry>)
    requires forall e :: e in q ==> Located(t, e)
    ensures forall e :: e in Order(q) ==> Located(t, e)
    decreases Pending(q)
  {
    if q != [] {
      var q' := q[1..] + ChildEntries(q[0]);
      ChildEntriesLocated(t, q[0]);
      DequeueShrinks(q);
      OrderLocated(t, q');
    }
  }

  lemma VisitLocated(t: Node)
    ensures forall e :: e in Visit(t) ==> Located(t, e)
  {
    OrderLocated(t, [Entry([], t)]);
  }

  // ---------------------------------------------------------------------
  // Every node below a queued entry is visited

  lemma {:induction false} OrderComplete(q: seq<Entry>, k: nat, r: Path)
    requires k < |q| && ValidPath(q[k].node, r)
    ensures exists i :: 0 <= i < |Order(q)| && Order(q)[i].path == q[k].path + r
    decreases Pending(q)
  {
    var q' := q[1..] + ChildEntries(q[0]);
    DequeueShrinks(q);
    assert Order(q) == [q[0]] + Order(q');
    if k == 0 && r == [] {
      assert Order(q)[0].path == q[k].path + r;
    } else {
      var k', r' := if k == 0 then |q| - 1 + r[0] else k - 1, if k == 0 then r[1..] else r;
      assert q'[k'].path + r' == q[k].path + r by {
        if k == 0 {
          assert q'[k'] == ChildEntries(q[0])[r[0]];
          assert q[0].path + [r[0]] + r[1..] == q[0].path + r by { assert r == [r[0]] + r[1..]; }
        }
      }
      OrderComplete(q', k', r');
      var i :| 0 <= i < |Order(q')| && Order(q')[i].path == q'[k'].path + r';
      assert Order(q)[i + 1] == Order(q')[i];
    }
  }

  lemma VisitComplete(t: Node, p: Path)
    requires ValidPath(t, p)
    ensures exists i :: 0 <= i < |Visit(t)| && Visit(t)[i].path == p
  {
    var q := [Entry([], t)];
    OrderComplete(q, 0, p);
    assert q[0].path + p == p;
    var i :| 0 <= i < |Order(q)| && Order(q)[i].path == p;
    assert Visit(t)[i].path == p;
  }

  // ---------------------------------------------------------------------
  // Entries are visited level by level, left to right

  predicate Sorted(s: seq<Entry>)
  {
    forall i, j :: 0 <= i < j < |s| ==> Before(s[i].path, s[j].path)
  }

  /** The shape a breadth-first queue keeps: sorted, no entry more than one level
      below the head, and every entry one level below the head hangs under a node
      to the left of the head. */
  ghost predicate QueueShape(q: seq<Entry>)
  {
    Sorted(q) &&
    (q != [] ==>
      (forall j :: 0 <= j < |q| ==> |q[j].path| <= |q[0].path| + 1) &&
      (forall j :: 0 <= j < |q| && |q[j].path| == |q[0].path| + 1 ==>
         LexLess(q[j].path[..|q[0].path|], q[0].path)))
  }

  lemma ChildEntriesSorted(e: Entry)
    ensures Sorted(ChildEntries(e))
  {
    var c := ChildEntries(e);
    forall i, j | 0 <= i < j < |c| ensures Before(c[i].path, c[j].path) {
      LexSiblings(e.path, i, j);
    }
  }

  lemma SortedConcat(a: seq<Entry>, b: seq<Entry>)
    requires Sorted(a) && Sorted(b)
    requires forall x, y :: x in a && y in b ==> Before(x.path, y.path)
    ensures Sorted(a + b)
  {
    var s := a + b;
    forall i, j | 0 <= i < j < |s| ensures Before(s[i].path, s[j].path) {
      if j < |a| {
        assert s[i] == a[i] && s[j] == a[j];
      } else if i >= |a| {
        assert s[i] == b[i - |a|] && s[j] == b[j - |a|];
      } else {
        assert s[i] in a && s[j] in b;
      }
    }
  }

  /** Whatever waits behind the head comes before the head's children. */
  lemma RestBeforeChildren(q: seq<Entry>)
    requires q != [] && QueueShape(q)
    ensures forall x, c :: x in q[1..] && c in ChildEntries(q[0]) ==> Before(x.path, c.path)
  {
    var L := |q[0].path|;
    var rest, cs := q[1..], ChildEntries(q[0]);
    forall x, c | x in rest && c in cs ensures Before(x.path, c.path) {
      var j :| 0 <= j < |rest| && rest[j] == x;
      assert q[j + 1] == x;
      var i :| 0 <= i < |cs| && cs[i] == c;
      assert |x.path| <= L + 1;
      if |x.path| == L + 1 {
        assert LexLess(x.path[..L], q[0].path);
        LexExtend(x.path[..L], q[0].path, x.path[L..], [i]);
        assert x.path == x.path[..L] + x.path[L..];
      }
    }
  }

  /** After a dequeue, entries one level below the new head hang to its left. */
  lemma DequeueDeepEntries(q: seq<Entry>)
    requires q != [] && QueueShape(q)
    requires q[1..] + ChildEntries(q[0]) != []
    ensures var q' := q[1..] + ChildEntries(q[0]);
      (forall j :: 0 <= j < |q'| ==> |q'[j].path| <= |q'[0].path| + 1) &&
      (forall j :: 0 <= j < |q'| && |q'[j].path| == |q'[0].path| + 1 ==>
         LexLess(q'[j].path[..|q'[0].path|], q'[0].path))
  {
    var L := |q[0].path|;
    var rest, cs := q[1..], ChildEntries(q[0]);
    var q' := rest + cs;
    var L' := |q'[0].path|;
    forall j | 0 <= j < |q'| ensures |q'[j].path| <= L + 1 && (j >= |rest| ==> |q'[j].path| == L + 1) {
      if j < |rest| {
        assert q'[j] == q[j + 1];
      } else {
        assert q'[j] == cs[j - |rest|];
      }
    }
    if rest != [] {
      assert q'[0] == q[1];
      assert Before(q[0].path, q[1].path);
    }
    if rest != [] && |rest[0].path| == L {
      forall j | 0 <= j < |q'| && |q'[j].path| == L' + 1
        ensures LexLess(q'[j].path[..L'], q'[0].path)
      {
        assert Before(q[0].path, q[1].path);
        if j < |rest| {
          assert q'[j] == q[j + 1];
          LexTransitive(q'[j].path[..L], q[0].path, q'[0].path);
        } else {
          assert q'[j] == cs[j - |rest|];
          assert q'[j].path[..L] == q[0].path;
        }
      }
    }
  }

  /** Without its head a sorted sequence stays sorted, and the head comes first. */
  lemma SortedTail(s: seq<Entry>)
    requires s != [] && Sorted(s)
    ensures Sorted(s[1..])
    ensures forall e :: e in s[1..] ==> Before(s[0].path, e.path)
  {
    var t := s[1..];
    forall i, j | 0 <= i < j < |t| ensures Before(t[i].path, t[j].path) {
      assert t[i] == s[i + 1] && t[j] == s[j + 1];
    }
    forall e | e in t ensures Before(s[0].path, e.path) {
      var k :| 0 <= k < |t| && t[k] == e;
      assert s[k + 1] == e;
    }
  }

  /** Dequeuing the head and enqueuing its children keeps the queue's shape. */
  lemma DequeueShape(q: seq<Entry>)
    requires q != [] && QueueShape(q)
    ensures QueueShape(q[1..] + ChildEntries(q[0]))
    ensures forall e :: e in q[1..] + ChildEntries(q[0]) ==> Before(q[0].path, e.path)
  {
    var rest, cs := q[1..], ChildEntries(q[0]);
    var q' := rest + cs;
    ChildEntriesSorted(q[0]);
    RestBeforeChildren(q);
    SortedTail(q);
    SortedConcat(rest, cs);
    if q' != [] {
      DequeueDeepEntries(q);
    }
    forall e: Entry | e in q' ensures Before(q[0].path, e.path) {
      if e !in rest {
        assert e in cs;
        var k :| 0 <= k < |cs| && cs[k] == e;
      }
    }
  }

  lemma {:induction false} OrderSorted(q: seq<Entry>)
    requires QueueShape(q)
    ensures Sorted(Order(q))
    ensures q != [] ==> forall e :: e in Order(q) ==> e.path == q[0].path || Before(q[0].path, e.path)
    decreases Pending(q)
  {
    if q != [] {
      var q' := q[1..] + ChildEntries(q[0]);
      DequeueShrinks(q);
      DequeueShape(q);
      OrderSorted(q');
      var s := Order(q);
      assert s == [q[0]] + Order(q');
      forall e | e in Order(q') ensures Before(q[0].path, e.path) {
        assert q' != [];
        assert q'[0] in q';
        if e.path != q'[0].path {
          BeforeTransitive(q[0].path, q'[0].path, e.path);
        }
      }
      forall i, j | 0 <= i < j < |s| ensures Before(s[i].path, s[j].path) {
        if i == 0 {
          assert s[j] in Order(q');
        } else {
          assert s[i] == Order(q')[i - 1] && s[j] == Order(q')[j - 1];
        }
      }
    }
  }

  /** The visit goes level by level and, within a level, left to right. */
  lemma VisitSorted(t: Node)
    ensures Sorted(Visit(t))
  {
    OrderSorted([Entry([], t)]);
  }

  /** No node is visited twice: distinct positions of the walk hold distinct paths. */
  lemma VisitedOnce(t: Node, i: nat, j: nat)
    requires i < j < |Visit(t)|
    ensures Visit(t)[i].path != Visit(t)[j].path
  {
    VisitSorted(t);
    BeforeIrreflexive(Visit(t)[i].path);
  }

  // ---------------------------------------------------------------------
  // The visit meets every name as often as the tree holds it

  function VisitedNames(s: seq<Entry>): seq<string>
  {
    seq(|s|, i requires 0 <= i < |s| => s[i].node.name)
  }

  lemma {:induction false} OrderCensus(q: seq<Entry>)
    ensures multiset(VisitedNames(Order(q))) == ForestCensus(Nodes(q))
    decreases Pending(q)
  {
    if q != [] {
      var q' := q[1..] + ChildEntries(q[0]);
      DequeueShrinks(q);
      OrderCensus(q');
      assert VisitedNames(Order(q)) == [q[0].node.name] + VisitedNames(Order(q'));
      assert Nodes(q') == Nodes(q[1..]) + q[0].node.children;
      ForestCensusAppend(Nodes(q[1..]), q[0].node.children);
      assert Nodes(q)[0] == q[0].node && Nodes(q)[1..] == Nodes(q[1..]);
      var n, fr, fc := multiset{q[0].node.name}, ForestCensus(Nodes(q[1..])), ForestCensus(q[0].node.children);
      assert multiset(VisitedNames(Order(q))) == n + (fr + fc);
      assert ForestCensus(Nodes(q)) == (n + fc) + fr;
    }
  }

  lemma VisitCensus(t: Node)
    ensures multiset(VisitedNames(Visit(t))) == Census(t)
  {
    OrderCensus([Entry([], t)]);
    assert Nodes([Entry([], t)]) == [t];
    assert [t][1..] == [];
  }
}
