/**
 * The nested object that the constructor, reparse and getNewNode hand to the
 * tree library's parse: a name and, optionally, an array of child objects.
 */
module Structures {
  import opened Wrappers
  import opened Trees

  /** An object without a children array, or one with it. */
  datatype Structure =
    | Bare(name: string)
    | WithChildren(name: string, children: seq<Structure>)

  /** treeModel.parse: a node for s and, in order, a node for each child object. */
  function Parse(s: Structure): (r: Node)
    ensures r.name == s.name
    decreases s
  {
    match s
    case Bare(name) => Node(name, [])
    case WithChildren(name, cs) => Node(name, seq(|cs|, i requires 0 <= i < |cs| => Parse(cs[i])))
  }

  /** The nested object a node's model holds: every node lists its children. */
  function Unparse(t: Node): (s: Structure)
    ensures s.WithChildren? && s.name == t.name && |s.children| == |t.children|
    decreases t
  {
    WithChildren(t.name, seq(|t.children|, i requires 0 <= i < |t.children| => Unparse(t.children[i])))
  }

  /** s with every missing children array replaced by an empty one. */
  function Normalize(s: Structure): Structure
    decreases s
  {
    match s
    case Bare(name) => WithChildren(name, [])
    case WithChildren(name, cs) => WithChildren(name, seq(|cs|, i requires 0 <= i < |cs| => Normalize(cs[i])))
  }

  /** Parsing a tree's own nested object rebuilds the tree. */
  lemma {:induction false} ParseUnparse(t: Node)
    ensures Parse(Unparse(t)) == t
    decreases t
  {
    var cs := Unparse(t).children;
    forall i | 0 <= i < |t.children| ensures Parse(cs[i]) == t.children[i] {
      ParseUnparse(t.children[i]);
    }
    assert Parse(Unparse(t)).children == t.children;
  }

  /** Parsing keeps names, child order and the whole shape: reading the tree
      back gives the input, up to missing children arrays. */
  lemma {:induction false} UnparseParse(s: Structure)
    ensures Unparse(Parse(s)) == Normalize(s)
    decreases s
  {
    match s
    case Bare(_) =>
    case WithChildren(_, cs) =>
      var t := Parse(s);
      forall i | 0 <= i < |cs| ensures Unparse(t.children[i]) == Normalize(cs[i]) {
        UnparseParse(cs[i]);
      }
      assert Unparse(t).children == Normalize(s).children;
  }

  /** Two inputs give the same tree exactly when they agree up to missing children arrays. */
  lemma ParseIdentifies(s: Structure, s': Structure)
    ensures Parse(s) == Parse(s') <==> Normalize(s) == Normalize(s')
  {
    UnparseParse(s);
    UnparseParse(s');
    if Normalize(s) == Normalize(s') {
      ParseUnparse(Parse(s));
      ParseUnparse(Parse(s'));
    }
  }
}
