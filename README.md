# hierarchy-model in Dafny

This project models the `Hierarchy` class of hierarchy-model. A `Hierarchy` owns one
tree of named nodes, for example a taxonomy or a reporting line. It parses the tree
from a nested `{ name, children }` object. It can search the tree by name
breadth-first, look up a descendant inside an ancestor's subtree, list the names
below a node, and return the root-to-node path. It can also attach a subtree under
a node or drop a subtree. A small pure helper decides which organizations a user
belongs to.

The tree library the class delegates to (`parse`, `first`, `all`, `getPath`,
`addChild`, `drop`) is modelled by what the class asks of it. Breadth-first means
the `{ strategy: 'breadth' }` option. The predicates are the ones the class passes.

Modules:

- `Wrappers`: `Option`, for an absent value (`undefined`, a missing field).
- `Trees`: `Node(name, children)`, the index paths that address nodes, the multiset
  of names in a tree (`Census`), and the level-then-left-to-right order on paths
  (`Before`).
- `Traversal`: the breadth-first walk as a recursive queue function `Order`, and
  `Visit(start)` built on it. Termination rests on the number of nodes still queued.
  The walk is proved to visit entries in strictly increasing `Before` order, to meet
  every node, and to meet each name exactly as often as the tree holds it.
- `Search`: `_findNode`, `findDescendantNodeByName`, `getAllDescendantNodesAsArray`
  and the node path, as functions of the tree they search.
- `Mutation`: `addChild` and `drop` on index paths, and what each preserves.
- `Structures`: the nested input object and the parse that builds a tree from it.
- `Organizations`: `_getOrganizationsForUser`.
- `HierarchyModel`: the class `Hierarchy` with its one mutable field `root`. Its
  read-only methods are proved against the functions in `Search`. `reparse`,
  `addNodeAsChildOfNode` and `deleteNodeFromHierarchy` reassign `root`.
- `Scenarios`: a stand-in tree consistent with the assertions at test/test.js:22-38 and
  :75, with the answers those assertions expect proved about it.

A JS node object is represented by its path of child indices from the root: `[]` is
the root, and `[1, 0]` is the first child of the root's second child. A missing
`startNode` is `None` and means the root, as the default parameter does. JS results
`undefined` and `false` become `None`, `DescendantMissing` and `AncestorMissing`.

`source/hierarchy.js` and `distribution/hierarchy.js` have the same logic; the
second is the compiled form of the first. Each operation is modelled once, and the
table cites both files.

## Model

| member | source | states |
|---|---|---|
| Structures.Parse | source/hierarchy.js:43 | The parsed tree's root carries the input object's name. |
| Structures.UnparseParse | source/hierarchy.js:51-53 | Reading the parsed tree back gives the input object, with each missing children array read as empty. Names and child order are kept at every level. |
| Structures.ParseUnparse | source/hierarchy.js:214-216 | Parsing a tree's own nested object rebuilds that same tree. |
| Structures.ParseIdentifies | distribution/hierarchy.js:59-62 | Two input objects give the same tree exactly when they agree up to missing children arrays. |
| HierarchyModel.Hierarchy.constructor | source/hierarchy.js:18-45 | `root` is the tree parsed from `paramsObj.hierarchy`, and it reads back as that object. |
| HierarchyModel.Hierarchy.Reparse | distribution/hierarchy.js:59-62 | `root` is replaced wholesale by the tree parsed from the new object. |
| HierarchyModel.Hierarchy.GetNewNode | distribution/hierarchy.js:267-270 | Returns a detached tree with the object's name and shape, child order kept. The hierarchy is not modified. |
| Traversal.DequeueShrinks | source/hierarchy.js:56 | Dequeuing a node and enqueuing its children lowers the number of nodes still to visit, so the walk terminates. |
| Traversal.VisitSorted | source/hierarchy.js:56 | The breadth-first walk visits the nodes strictly level by level, and left to right within a level. |
| Traversal.VisitComplete | source/hierarchy.js:55-59 | Every node of the start node's subtree is visited. |
| Traversal.VisitLocated | distribution/hierarchy.js:64-71 | Every visited entry is a node of the subtree, at the path the entry records. |
| Traversal.VisitCensus | source/hierarchy.js:132-136 | The walk meets each name exactly as often as the subtree holds it. |
| Traversal.VisitedOnce | source/hierarchy.js:56 | No node is visited twice: two positions of the walk hold different paths. |
| Search.FirstNamed | source/hierarchy.js:56-58 | Gives the position of the first entry whose name matches, with no match before it; gives None exactly when no entry matches. |
| Search.FindNode | distribution/hierarchy.js:64-71 | A found path addresses a node of the subtree that carries the requested name. |
| Search.FindNodeMissing | source/hierarchy.js:55-59 | `_findNode` returns undefined exactly when no node of the subtree carries the name. |
| Search.FindNodeIsFirst | source/hierarchy.js:55 | `_findNode` returns p if and only if p is the first node carrying the name in level-then-left-to-right order. Both directions are proved, so ties between duplicate names are settled. |
| Search.FindNodeFirst | source/hierarchy.js:57 | A found node carries the name, and no node before it in breadth-first order does. |
| Search.FindStartName | source/hierarchy.js:56 | The start node is visited first, so searching for its own name returns it. |
| HierarchyModel.Hierarchy.FindNodeObj | source/hierarchy.js:98-100 | Returns None exactly when the start node's subtree lacks the name. Otherwise it returns the path, below the start node, of the first breadth-first node with that name. |
| HierarchyModel.Hierarchy.FindNodeInHierarchy | source/hierarchy.js:84-91 | Returns undefined exactly when the subtree lacks the name. Otherwise it returns the model of the first breadth-first match, whose name is the query. |
| Search.FindDescendant | distribution/hierarchy.js:132-146 | Gives `false` exactly when the ancestor is missing. A found descendant carries the requested name. |
| Search.FindDescendantSpec | source/hierarchy.js:114-120 | Once the first ancestor is fixed, the result is undefined exactly when its subtree lacks the descendant name. Otherwise the result is the first breadth-first match inside that subtree. |
| Search.FindDescendantSelf | distribution/hierarchy.js:139 | The ancestor belongs to its own search scope: asking for its own name returns the ancestor. |
| HierarchyModel.Hierarchy.FindDescendantNodeByName | source/hierarchy.js:108-121 | The three outcomes, from the start node: `false` exactly for a missing ancestor. Once the first ancestor is fixed, `undefined` exactly when its subtree lacks the descendant name, and otherwise the model of the first breadth-first match inside that subtree. |
| Search.Unnamed | source/hierarchy.js:132-134 | The filter keeps exactly the entries whose name differs from the query. |
| Search.UnnamedSorted | distribution/hierarchy.js:160-162 | Filtering keeps breadth-first order. |
| Search.UnnamedCensus | source/hierarchy.js:133 | Filtering removes every occurrence of the query name and nothing else. |
| Search.DescendantNames | source/hierarchy.js:128-139 | The list never holds the query name. As a multiset it equals the matched subtree's names with every copy of the query name removed, so same-named descendants go too. |
| Search.DescendantEntriesSpec | distribution/hierarchy.js:155-168 | The names reported are, position by position, those of these nodes. The nodes are in breadth-first order. Each is a node of the matched subtree whose name differs from the query, and every such node is reported. |
| Search.DescendantNamesOfLeaf | source/hierarchy.js:126-136 | A matched node whose subtree carries no other name, a node without children among them, yields an empty list, not undefined. |
| HierarchyModel.Hierarchy.GetAllDescendantNodesAsArray | source/hierarchy.js:128-131 | The result names, in breadth-first order, every node of the first match's subtree whose name differs from the query, each once. No entry is the query name. The named node must exist. |
| Search.PathNodes | source/hierarchy.js:177-179 | The path has depth + 1 nodes, starting at the root and ending at the node. |
| Search.PathNodesAncestors | distribution/hierarchy.js:219-222 | The i-th entry of the path is the ancestor at depth i. |
| Search.PathNames | source/hierarchy.js:187-191 | The names run from the root's name to the node's name over depth + 1 entries. |
| Search.PathNamesSnoc | distribution/hierarchy.js:231-236 | A child's path names are its parent's path names followed by the child's name. |
| HierarchyModel.Hierarchy.GetPathOfNode | source/hierarchy.js:173-179 | Returns the nodes from the root to the node, inclusive, each the ancestor at its depth. |
| HierarchyModel.Hierarchy.GetNamesOfNodePath | source/hierarchy.js:182-191 | Returns the names from the root's to the node's, one per level. |
| Mutation.AddChild | source/hierarchy.js:169 | Attaching under any node keeps the root's name. |
| Mutation.AddChildAt | source/hierarchy.js:159-170 | The parent's children become its old children followed by the child, and the child sits unchanged at the new last index. |
| Mutation.AddChildPreserves | distribution/hierarchy.js:204-210 | Every old node keeps its path and its name. A node that is not the parent or one of its ancestors keeps its whole subtree. |
| Mutation.AddChildKeepsPaths | source/hierarchy.js:165-170 | The root-to-node names of every old node are unchanged. |
| Mutation.AddChildPath | source/hierarchy.js:169 | The new child's path names are the parent's path names followed by the child's name. |
| Mutation.AddChildCensus | source/hierarchy.js:165-170 | The tree gains exactly the names of the attached subtree. |
| Mutation.OutsideNewChild | distribution/hierarchy.js:209 | A node of the extended tree outside the attached subtree was already there, at the same path and with the same name. |
| Mutation.SearchHitsNewSubtree | test/test.js:50-62 | When the old tree lacks the child's name, the first node with that name after the append is the child itself. |
| Mutation.AddFreshFinds | test/test.js:62 | Searching for a freshly attached child's name returns the child's path. |
| HierarchyModel.Hierarchy.AddNodeAsChildOfNode | source/hierarchy.js:165-170 | `root` becomes the old tree with the child appended. The result addresses the child. The child's path names extend the parent's, and the tree gains exactly the child's names. |
| Mutation.Drop | source/hierarchy.js:199 | Detaching a non-root node keeps the root's name. |
| Mutation.DropAtParent | source/hierarchy.js:193-200 | The parent loses exactly that child; the other children keep their order. |
| Mutation.DropKeepsOthers | distribution/hierarchy.js:245-248 | A node beside the dropped subtree keeps its path and its whole subtree. |
| Mutation.DropKeepsAncestors | source/hierarchy.js:198 | The ancestors of the dropped node keep their paths and names. |
| Mutation.DropCensus | source/hierarchy.js:194 | The tree loses exactly the names of the dropped subtree. |
| Mutation.DropRemovesNames | test/test.js:61-68 | A name all of whose nodes lay in the dropped subtree is no longer found from the root. |
| Mutation.DropUndoesAdd | test/test.js:71-78 | Dropping the child that was just attached gives back the old tree. |
| HierarchyModel.Hierarchy.DeleteNodeFromHierarchy | source/hierarchy.js:193-200 | Returns the node's subtree as a standalone root, where a search for its own name finds it. `root` loses exactly that subtree; dropping the root leaves `root` as it was. |
| HierarchyModel.AddThenDrop | test/test.js:50-63 | Attaching a subtree with a fresh name, finding it by that name and dropping it returns the subtree and restores the tree. |
| Organizations.OrganizationsForUser | source/hierarchy.js:61-77 | The result is empty exactly for a missing user or an explicitly empty list. Each entry is the profile's organization, one of its organizations, or the global group. |
| Organizations.PluralIsCopied | distribution/hierarchy.js:83-86 | A profile with only the plural field yields that list. |
| Organizations.GlobalGroupFallback | distribution/hierarchy.js:87-90 | A user without organization information belongs to the global group alone. |
| Organizations.SingularTakesPrecedence | distribution/hierarchy.js:78-82 | A non-empty singular organization wins whatever the plural field holds. |
| Scenarios.FindPrimate | test/test.js:21-25 | In the stand-in tree, the first Primate is the fourth node of the walk. |
| Scenarios.HomoUnderPrimate | test/test.js:27-32 | Looking for Homo under Primate finds Homo. |
| Scenarios.PrimateDescendants | test/test.js:35-40 | The names below Primate are `Hominidae, Pongidae, Homo, Pan, Sapiens, Troglodytes, Human, Chimpanzee`, in that order. |
| Scenarios.FindHuman | test/test.js:51 | In the stand-in tree, Human is found at the end of the chain of first children. |
| Scenarios.HumanLineage | test/test.js:71-78 | Human's path names are `Animalia, Chordate, Mammal, Primate, Hominidae, Homo, Sapiens, Human`. |
| Scenarios.MutantsComeAndGo | test/test.js:50-69 | Mutants, attached under Human, is found there. Dropping it restores the tree, and Mutants is then not found. |

## Left out

- Logging: the winston logger and every `logger.debug` call only produce output.
- `getTopiaryAsString`, and the test assertions on character offsets in its text. The layout comes from the `topiary` library.
- `walkNodes`: it hands an arbitrary callback to the library's default walk, whose order this code does not fix.
- Configuration: the `childrenPropertyName` indirection, the JSON clone of the tree-model configuration, the `process.env` write and the `config` package. Children are a plain field.
- `getTreeModel`: it returns the library object itself.
- A node's model payload beyond `name` and children: the class never reads it.
- The compiler's helpers `_createClass` and `_classCallCheck`.
- Object identity and aliasing: a node is its path from the current root. A `startNode` or `node` from another tree, and references that stay live across edits, are not modelled.
- Cycles and double parents: `addNodeAsChildOfNode` takes the child as a value, so the child cannot be an ancestor of the parent or have another parent. The code checks neither.
- Malformed input to `parse`: `Structure` is typed, so the library's failure on a missing or ill-shaped object is not modelled.
- JS truthiness: only the cases the code distinguishes are modelled. A falsy user is `None`. An empty string counts as no singular organization. An array, even an empty one, counts as a plural field.
- `_GLOBAL_GROUP` is read at source/hierarchy.js:73 and distribution/hierarchy.js:89 but declared nowhere, so that read throws a ReferenceError unless the host defines such a global. The model makes it the parameter `globalGroup`, so `GlobalGroupFallback` holds only under that host assumption.
- HierarchyModel.Hierarchy.GetAllDescendantNodesAsArray: requires the named node to exist, because the code then calls `all` on undefined and throws.
- HierarchyModel.Hierarchy.DeleteNodeFromHierarchy: dropping the current root follows the library. The root stays a root, `root` is left unchanged rather than cleared.
- The doc comment of `getAllDescendantNodesAsArray` promises undefined when there are no descendants. The code returns an empty list, and the model follows the code.
- Scenarios: the test's configuration file is not part of this model. The tree there is a stand-in, the smallest one consistent with the test's assertions on Primate and Human. It has no `Domestica` node, which test/test.js:44-45 looks up in the real tree, and its child indices, which the tests never fix, are its own.
