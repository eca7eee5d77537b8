/**
 * The hierarchy the repository's tests use, as far as the tests reveal it,
 * and the answers the tests expect from it.
 */
module Scenarios {
  import opened Wrappers
  import opened Trees
  import opened Traversal
  import opened Search
  import opened Mutation

  function Leaf(name: string): Node
  {
    Node(name, [])
  }

  /** Animalia > Chordate > Mammal > Primate, with the two primate families below. */
  function Animals(): Node
  {
    Node("Animalia", [Node("Chordate", [Node("Mammal", [Primates()])])])
  }

  function Hominidae(): Node
  {
    Node("Hominidae", [Node("Homo", [Node("Sapiens", [Leaf("Human")])])])
  }

  function Pongidae(): Node
  {
    Node("Pongidae", [Node("Pan", [Node("Troglodytes", [Leaf("Chimpanzee")])])])
  }

  function Primates(): Node
  {
    Node("Primate", [Hominidae(), Pongidae()])
  }

  lemma ChildEntriesNone(p: Path, n: string)
    ensures ChildEntries(Entry(p, Node(n, []))) == []
  {
  }

  lemma ChildEntriesOne(p: Path, n: string, c: Node)
    ensures ChildEntries(Entry(p, Node(n, [c]))) == [Entry(p + [0], c)]
  {
  }

  lemma ChildEntriesTwo(p: Path, n: string, c: Node, d: Node)
    ensures ChildEntries(Entry(p, Node(n, [c, d]))) == [Entry(p + [0], c), Entry(p + [1], d)]
  {
  }

  /** The walk from a node with a single child visits the node, then walks from the child. */
  lemma VisitChain(p: Path, n: string, c: Node)
    ensures Order([Entry(p, Node(n, [c]))]) == [Entry(p, Node(n, [c]))] + Order([Entry(p + [0], c)])
  {
    ChildEntriesOne(p, n, c);
    assert [Entry(p, Node(n, [c]))][1..] + [Entry(p + [0], c)] == [Entry(p + [0], c)];
  }

  lemma Dequeue(q: seq<Entry>, next: seq<Entry>)
    requires q != [] && q[1..] + ChildEntries(q[0]) == next
    ensures Order(q) == [q[0]] + Order(next)
  {
  }

  /** The entries the walk from the primates at p visits, in the order the
      queue hands them out. */
  function PrimateEntries(p: Path): seq<Entry>
  {
    var homo, pan := Hominidae().children[0], Pongidae().children[0];
    var sapiens, troglodytes := homo.children[0], pan.children[0];
    [Entry(p, Primates()),
     Entry(p + [0], Hominidae()), Entry(p + [1], Pongidae()),
     Entry(p + [0] + [0], homo), Entry(p + [1] + [0], pan),
     Entry(p + [0] + [0] + [0], sapiens), Entry(p + [1] + [0] + [0], troglodytes),
     Entry(p + [0] + [0] + [0] + [0], Leaf("Human")), Entry(p + [1] + [0] + [0] + [0], Leaf("Chimpanzee"))]
  }

  /** The first levels: Primate, the families, the genera. */
  lemma PrimatesUpper(p: Path)
    ensures var w := PrimateEntries(p);
      Order([w[0]]) == w[..5] + Order([w[5], w[6]])
  {
    var w := PrimateEntries(p);
    ChildEntriesTwo(p, "Primate", w[1].node, w[2].node);
    Dequeue([w[0]], [w[1], w[2]]);
    ChildEntriesOne(w[1].path, "Hominidae", w[3].node);
    Dequeue([w[1], w[2]], [w[2], w[3]]);
    ChildEntriesOne(w[2].path, "Pongidae", w[4].node);
    Dequeue([w[2], w[3]], [w[3], w[4]]);
    ChildEntriesOne(w[3].path, "Homo", w[5].node);
    Dequeue([w[3], w[4]], [w[4], w[5]]);
    ChildEntriesOne(w[4].path, "Pan", w[6].node);
    Dequeue([w[4], w[5]], [w[5], w[6]]);
    assert w[..5] == [w[0], w[1], w[2], w[3], w[4]];
  }

  /** The lower levels: the species and their members. */
  lemma PrimatesLower(p: Path)
    ensures var w := PrimateEntries(p);
      Order([w[5], w[6]]) == w[5..]
  {
    var w := PrimateEntries(p);
    ChildEntriesOne(w[5].path, "Sapiens", w[7].node);
    Dequeue([w[5], w[6]], [w[6], w[7]]);
    ChildEntriesOne(w[6].path, "Troglodytes", w[8].node);
    Dequeue([w[6], w[7]], [w[7], w[8]]);
    ChildEntriesNone(w[7].path, "Human");
    Dequeue([w[7], w[8]], [w[8]]);
    ChildEntriesNone(w[8].path, "Chimpanzee");
    Dequeue([w[8]], []);
    assert w[5..] == [w[5], w[6], w[7], w[8]];
  }

  /** The breadth-first walk of the primates, from wherever they hang: level by
      level, left to right; Human is the eighth node visited. */
  lemma PrimatesWalk(p: Path)
    ensures var s := Order([Entry(p, Primates())]);
      VisitedNames(s) ==
        ["Primate", "Hominidae", "Pongidae", "Homo", "Pan", "Sapiens", "Troglodytes", "Human", "Chimpanzee"] &&
      s[3].path == p + [0, 0] && s[7].path == p + [0, 0, 0, 0]
  {
    var w := PrimateEntries(p);
    PrimatesUpper(p);
    PrimatesLower(p);
    assert w[..5] + w[5..] == w;
    assert VisitedNames(w) ==
      ["Primate", "Hominidae", "Pongidae", "Homo", "Pan", "Sapiens", "Troglodytes", "Human", "Chimpanzee"];
    assert p + [0] + [0] == p + [0, 0];
    assert p + [0] + [0] + [0] + [0] == p + [0, 0, 0, 0];
  }

  /** Dropping the entries named x from entries none of which is named x keeps them all. */
  lemma {:induction false} UnnamedKeepsAll(s: seq<Entry>, x: string)
    requires forall i :: 0 <= i < |s| ==> s[i].node.name != x
    ensures Unnamed(s, x) == s
  {
    if s != [] {
      UnnamedKeepsAll(s[1..], x);
    }
  }

  lemma VisitedNamesAppend(a: seq<Entry>, b: seq<Entry>)
    ensures VisitedNames(a + b) == VisitedNames(a) + VisitedNames(b)
  {
  }

  /** From Animalia the walk goes down the chain of single children to Primate. */
  lemma AnimalsChain()
    ensures Visit(Animals()) ==
      [Entry([], Animals()), Entry([0], Animals().children[0]), Entry([0, 0], Animals().children[0].children[0])] +
      Order([Entry([0, 0, 0], Primates())])
  {
    var mammal := Node("Mammal", [Primates()]);
    var chordate := Node("Chordate", [mammal]);
    assert Animals() == Node("Animalia", [chordate]);
    var p1, p2, p3: Path := [] + [0], [] + [0] + [0], [] + [0] + [0] + [0];
    assert p1 == [0] && p2 == [0, 0] && p3 == [0, 0, 0];
    VisitChain([], "Animalia", chordate);
    VisitChain(p1, "Chordate", mammal);
    VisitChain(p2, "Mammal", Primates());
  }

  /** The walk from Animalia: down the chain to Primate, then the primates. */
  lemma AnimalsWalk()
    ensures var s := Visit(Animals());
      VisitedNames(s) ==
        ["Animalia", "Chordate", "Mammal", "Primate", "Hominidae", "Pongidae", "Homo", "Pan",
         "Sapiens", "Troglodytes", "Human", "Chimpanzee"] &&
      s[3].path == [0, 0, 0] && s[10].path == HumanPath()
  {
    AnimalsChain();
    var top := [Entry([], Animals()), Entry([0], Animals().children[0]),
                Entry([0, 0], Animals().children[0].children[0])];
    TopNames(top);
    var rest := Order([Entry([0, 0, 0], Primates())]);
    PrimatesWalk([0, 0, 0]);
    Glue(top, rest);
  }

  lemma TopNames(top: seq<Entry>)
    requires top == [Entry([], Animals()), Entry([0], Animals().children[0]),
                Entry([0, 0], Animals().children[0].children[0])]
    ensures VisitedNames(top) == ["Animalia", "Chordate", "Mammal"]
  {
  }

  lemma Glue(top: seq<Entry>, rest: seq<Entry>)
    requires VisitedNames(top) == ["Animalia", "Chordate", "Mammal"]
    requires VisitedNames(rest) ==
        ["Primate", "Hominidae", "Pongidae", "Homo", "Pan", "Sapiens", "Troglodytes", "Human", "Chimpanzee"]
    requires rest[0].path == [0, 0, 0] + [] && rest[7].path == [0, 0, 0] + [0, 0, 0, 0]
    ensures VisitedNames(top + rest) ==
        ["Animalia", "Chordate", "Mammal", "Primate", "Hominidae", "Pongidae", "Homo", "Pan",
         "Sapiens", "Troglodytes", "Human", "Chimpanzee"]
    ensures (top + rest)[3].path == [0, 0, 0] && (top + rest)[10].path == HumanPath()
  {
    VisitedNamesAppend(top, rest);
    assert [0, 0, 0] + [0, 0, 0, 0] == HumanPath();
  }

  /** The path of the test's Human: seven steps down, always through the first child. */
  function HumanPath(): Path
  {
    [0, 0, 0, 0, 0, 0, 0]
  }

  /** The first entry named x sits at index k when the k-th name is the first x. */
  lemma FirstNamedAt(s: seq<Entry>, x: string, k: nat)
    requires k < |s| && VisitedNames(s)[k] == x
    requires forall j :: 0 <= j < k ==> VisitedNames(s)[j] != x
    ensures FirstNamed(s, x) == Some(k)
  {
    var r := FirstNamed(s, x);
    assert s[k].node.name == x;
    assert forall j :: 0 <= j < |s| ==> VisitedNames(s)[j] == s[j].node.name;
    assert r.Some? && r.value <= k;
    assert s[r.value].node.name == x;
  }

  /** findNodeObj('Primate') and findNodeObj('Human') from the root. */
  lemma FindPrimate()
    ensures FindNode("Primate", Animals()) == Some([0, 0, 0])
  {
    AnimalsWalk();
    FirstNamedAt(Visit(Animals()), "Primate", 3);
  }

  lemma FindHuman()
    ensures FindNode("Human", Animals()) == Some(HumanPath())
  {
    AnimalsWalk();
    FirstNamedAt(Visit(Animals()), "Human", 10);
  }

  lemma NoOtherPrimate(s: seq<Entry>)
    requires VisitedNames(s) ==
      ["Hominidae", "Pongidae", "Homo", "Pan", "Sapiens", "Troglodytes", "Human", "Chimpanzee"]
    ensures forall i :: 0 <= i < |s| ==> s[i].node.name != "Primate"
  {
    forall i | 0 <= i < |s| ensures s[i].node.name != "Primate" {
      assert s[i].node.name == VisitedNames(s)[i];
    }
  }

  /** The walk from t visits t first. */
  lemma VisitHead(t: Node)
    ensures Visit(t) != [] && Visit(t)[0] == Entry([], t)
  {
    var e := Entry([], t);
    assert Order([e]) == [e] + Order([e][1..] + ChildEntries(e));
  }

  lemma UnnamedSkipsHead(s: seq<Entry>, x: string)
    requires s != [] && s[0].node.name == x
    requires forall i :: 1 <= i < |s| ==> s[i].node.name != x
    ensures Unnamed(s, x) == s[1..]
  {
    assert forall i :: 0 <= i < |s[1..]| ==> s[1..][i] == s[i + 1];
    UnnamedKeepsAll(s[1..], x);
  }

  /** When no node below the matched one repeats its name, the descendants are
      the rest of the walk from the matched node. */
  lemma DescendantsOfUniqueName(x: string, start: Node, p: Path, sub: Node)
    requires FindNode(x, start) == Some(p) && At(start, p) == sub
    requires forall i :: 1 <= i < |Visit(sub)| ==> Visit(sub)[i].node.name != x
    ensures DescendantNames(x, start) == VisitedNames(Visit(sub)[1..])
  {
    VisitHead(sub);
    UnnamedSkipsHead(Visit(sub), x);
    assert DescendantEntries(x, start) == Visit(sub)[1..];
  }

  /** getAllDescendantNodesAsArray('Primate'): the two families, then the genera,
      the species and their members, level by level. */
  lemma PrimateDescendants()
    ensures FindNode("Primate", Animals()).Some?
    ensures DescendantNames("Primate", Animals()) ==
      ["Hominidae", "Pongidae", "Homo", "Pan", "Sapiens", "Troglodytes", "Human", "Chimpanzee"]
  {
    FindPrimate();
    assert At(Animals(), [0, 0, 0]) == Primates();
    var s := Visit(Primates());
    PrimatesWalk([]);
    assert VisitedNames(s[1..]) == VisitedNames(s)[1..];
    NoOtherPrimate(s[1..]);
    assert forall i :: 1 <= i < |s| ==> s[i] == s[1..][i - 1];
    DescendantsOfUniqueName("Primate", Animals(), [0, 0, 0], Primates());
  }

  lemma FindDescendantAt(a: string, d: string, start: Node, pa: Path, sub: Node, pd: Path)
    requires FindNode(a, start) == Some(pa) && At(start, pa) == sub
    requires FindNode(d, sub) == Some(pd)
    ensures FindDescendant(a, d, start) == Found(At(sub, pd))
  {
  }

  /** Homo is the fourth node of the walk from Primate. */
  lemma FindHomo()
    ensures FindNode("Homo", Primates()) == Some([0, 0])
  {
    PrimatesWalk([]);
    var s := Visit(Primates());
    FirstNamedAt(s, "Homo", 3);
    assert [] + [0, 0] == [0, 0];
  }

  /** findDescendantNodeByName('Primate', 'Homo'): Homo is found below Primate. */
  lemma HomoUnderPrimate()
    ensures FindDescendant("Primate", "Homo", Animals()) == Found(Hominidae().children[0])
  {
    FindPrimate();
    assert At(Animals(), [0, 0, 0]) == Primates();
    FindHomo();
    FindDescendantAt("Primate", "Homo", Animals(), [0, 0, 0], Primates(), [0, 0]);
    assert At(Primates(), [0, 0]) == Hominidae().children[0];
  }

  /** getNamesOfNodePath(Human): the names from the root down to Human. */
  lemma HumanLineage()
    ensures ValidPath(Animals(), HumanPath())
    ensures PathNames(Animals(), HumanPath()) ==
      ["Animalia", "Chordate", "Mammal", "Primate", "Hominidae", "Homo", "Sapiens", "Human"]
  {
  }

  function Mutants(): Node
  {
    Node("Mutants", [Leaf("Alpha Mutants"), Leaf("Omega Mutants")])
  }

  /** A name the walk never meets names no node. */
  lemma UnvisitedName(t: Node, x: string)
    requires x !in VisitedNames(Visit(t))
    ensures !Occurs(t, x)
  {
    VisitCensus(t);
    CensusPaths(t, x);
  }

  /** No node of the test tree is called Mutants. */
  lemma MutantsFresh()
    ensures !Occurs(Animals(), "Mutants")
  {
    AnimalsWalk();
    var names := VisitedNames(Visit(Animals()));
    forall i | 0 <= i < |names| ensures names[i] != "Mutants" {
    }
    UnvisitedName(Animals(), "Mutants");
  }

  lemma HumanIsLeaf()
    ensures ValidPath(Animals(), HumanPath()) && At(Animals(), HumanPath()) == Leaf("Human")
  {
  }

  /** The add and delete tests: Mutants, attached under Human, is found there;
      once it is dropped the tree is the old one, so Mutants is gone and Human's
      lineage reads as before. */
  lemma MutantsComeAndGo()
    ensures ValidPath(Animals(), HumanPath())
    ensures var t := AddChild(Animals(), HumanPath(), Mutants());
      FindNode("Mutants", t) == Some(HumanPath() + [0]) &&
      Drop(t, HumanPath() + [0]) == Animals() &&
      FindNode("Mutants", Drop(t, HumanPath() + [0])) == None
  {
    var t, p, c := Animals(), HumanPath(), Mutants();
    HumanIsLeaf();
    MutantsFresh();
    AddFreshFinds(t, p, c);
    DropUndoesAdd(t, p, c);
    FindNodeMissing(c.name, t);
  }
}
