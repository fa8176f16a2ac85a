# Resource matching of abbreviation trees

A Dafny model of the resource-matching post-processor of an abbreviation parser
(`lib/parser/processor/resourceMatcher.js`). The post-processor picks a syntax, then walks
the parsed abbreviation tree depth first. For every child of a node it asks the resource
lookup for the child's resource:

- a plain string is wrapped as a `snippet` element and attached to the child;
- a *reference* to another abbreviation is parsed under the same syntax, and the child is
  replaced by the top-level nodes of that parse. Before the splice:
  - the child's repeat count goes to every implicitly repeated node of the parse, when
    the child repeats more than once;
  - the child's own children are appended to the parse's deepest child;
  - the child's attributes are written onto every top-level node, the child's values winning;
- any other result (an element descriptor, or nothing) is attached unchanged.

The children are iterated over a copy taken before the loop (`_.clone(node.children)`),
because references rewrite the live list while it is walked.

## Structure

- `abbreviation_tree.dfy`, module `AbbreviationTree`: the node datatype (`Node`: name,
  ordered attributes, repeat count, implicit-repeat mark, attached resource, children) and
  specifications of the `AbbreviationNode` helpers the processor calls. `attribute(name, value)`
  is `SetAttribute`: overwrite the first attribute of that name, else append.
  `findAll` plus the repeat loop is `TransferRepeat`. `deepestChild()` is `DeepestChild`:
  follow the last child down. `addChild` in a loop is `Graft`, and `replace` is `Splice`.
  `Labels` lists a forest's nodes in pre-order, each without its children but with their
  number. It is the independent description that the repeat-transfer and graft lemmas are
  stated against.
- `resource_matcher.dfy`, module `ResourceMatcher`: the specification functions `Expand`,
  `ResolveChild`, `ResolveForest` and `Resolve`. The imperative methods are proved equal to
  them: `MatchResources` is the snapshot loop with its live list and splices, `ExpandReference`
  is lines 36-68, `AddChildren` is the `addChild` loop, `CopyAttributes` is the nested
  attribute loops, and `Postprocess` is the entry point. The file also holds the lemmas about
  the specification.
- `matcher_scenarios.dfy`, module `MatcherScenarios`: four small trees worked through.

The resource lookup (`resources.getMatchedResource`), the parser (`parser.parse`) and the
default syntax (`emmet.defaultSyntax()`) are parameters. The lookup's result is
`Text(s)`, `Found(element)` or `Absent`. An element is `Snippet`, `Reference(data)` or
an opaque `Other`. `elements.is(r, 'reference')` is `Found(Reference(_))`.

Nodes are values. The source recurses into the replaced child at line 73. The child's
children were already appended to the deepest child at line 57, and they are the same
objects. So that recursion resolves those children in their new place. The model
therefore resolves the child's children first and then grafts the resolved list. The nodes
of the parsed subtree are not in the snapshot and are never revisited. They stay as the
parser returned them, up to the repeat, graft and attribute changes. This is what the code
does. A description that has the walk continue into the spliced nodes does not match the
code; the model follows the code. When the subtree's root has no children, there is no
deepest child: the child's children are dropped, and the child is replaced by nothing. When
there is a single childless top-level node, that node is the deepest child and receives
the children.

## Model

| member | source | states |
|---|---|---|
| `ResourceMatcher.MatchResources` | lib/parser/processor/resourceMatcher.js:25-75 | iterating over the copy while splicing into the live list yields exactly `Resolve`: each child's replacement, in sibling order |
| `ResourceMatcher.SpliceStep` | lib/parser/processor/resourceMatcher.js:28-68 | the child being processed is still at the tracked position of the live list; writing the child back, or splicing in its replacement, extends the resolved prefix by that child's result |
| `ResourceMatcher.ResolveForestAppend` | lib/parser/processor/resourceMatcher.js:28-74 | matching a list of siblings is matching each part of it in turn: results are concatenated in order |
| `ResourceMatcher.EachChildOnce` | lib/parser/processor/resourceMatcher.js:26-28 | every child present on entry is processed exactly once; its result stands between the results of its left and right siblings |
| `ResourceMatcher.NonReferenceInPlace` | lib/parser/processor/resourceMatcher.js:29-71 | a child whose resource is not a reference stays at its position as one node: name, attributes and repeat fields kept, children resolved. A string is attached as a `snippet` element, anything else as found; the siblings' results are untouched |
| `ResourceMatcher.ReferenceSplicedInPlace` | lib/parser/processor/resourceMatcher.js:32-68 | a referencing child is replaced, at the index it occupied, by the expansion of the reference parsed under the same syntax; the other siblings keep their relative order |
| `ResourceMatcher.ExpandReference` | lib/parser/processor/resourceMatcher.js:36-68 | the repeat transfer, graft and attribute copy, run as statements with the `addChild` loop and the attribute loops, compute `Expand` |
| `ResourceMatcher.AddChildren` | lib/parser/processor/resourceMatcher.js:56-58 | appending each child in turn leaves the target's existing children first, then all of the given ones in their original order |
| `ResourceMatcher.CopyAttributes` | lib/parser/processor/resourceMatcher.js:62-66 | writing every attribute of the child onto every top-level node, in order, yields each node with the merged attribute list and nothing else changed |
| `ResourceMatcher.ExpandTopLevel` | lib/parser/processor/resourceMatcher.js:42-68 | the replacement has one node per top-level subtree node, in order, with the same name and resource. It takes the child's repeat count and loses its implicit mark exactly when the child repeats more than once and the node had an implicit repeat; otherwise its repeat fields are unchanged. Its attribute values are the child's where the child has the name, and its own elsewhere |
| `ResourceMatcher.ExpandPreOrder` | lib/parser/processor/resourceMatcher.js:42-59 | with no top-level subtree node the replacement is empty (the child's children are lost). Otherwise, in pre-order, the subtree's nodes come first, with the repeat rule applied at every depth. The child's resolved children come last, all of them and in order |
| `ResourceMatcher.ExpandKeepsRepeat` | lib/parser/processor/resourceMatcher.js:54-66 | grafting and attribute copy leave every node's repeat count and implicit mark as they were, and add exactly the grafted nodes |
| `ResourceMatcher.ExpandEndsWithKids` | lib/parser/processor/resourceMatcher.js:54-66 | after grafting and attribute copy the grafted children are the last nodes in pre-order, unchanged: attributes reach only the top level |
| `ResourceMatcher.NoReferenceRemains` | lib/parser/processor/resourceMatcher.js:25-75 | when nested parses carry no reference, no node below the matched node carries one: every reference met is expanded away |
| `ResourceMatcher.AbsentLookupClears` | lib/parser/processor/resourceMatcher.js:69-73 | with a lookup that finds nothing, matching keeps the structure and only clears the resources below the node |
| `ResourceMatcher.ClearResourcesIdempotent` | lib/parser/processor/resourceMatcher.js:69-70 | clearing the resources a second time changes nothing |
| `ResourceMatcher.AbsentLookupIdempotent` | lib/parser/processor/resourceMatcher.js:25-75 | with a lookup that finds nothing, matching an already matched tree leaves it unchanged |
| `ResourceMatcher.OneSyntaxThroughout` | lib/parser/processor/resourceMatcher.js:29-73 | the result depends on the lookup and the parser only at the one syntax passed down: every lookup, nested parse and recursive call uses it |
| `ResourceMatcher.Postprocess` | lib/parser/processor/resourceMatcher.js:78-81 | the post-processor matches the whole tree under `options.syntax` when that is present and non-empty, else under the default syntax |
| `AbbreviationTree.SetAttribute` | lib/parser/processor/resourceMatcher.js:64 | after `attribute(name, value)` the name reads `value`. Every other name reads as before. An existing name is overwritten in place, keeping the order of names; a new name is appended |
| `AbbreviationTree.MergeAttributesValue` | lib/parser/processor/resourceMatcher.js:62-66 | after writing the child's attributes in order, a name the child has carries the child's last value for it; every other name keeps the node's own value |
| `AbbreviationTree.LastValueOfMember` | lib/parser/processor/resourceMatcher.js:63-64 | every attribute name of the child is defined on the node after the copy |
| `AbbreviationTree.InheritSpec` | lib/parser/processor/resourceMatcher.js:62-66 | each top-level node keeps its children and all fields but its attributes; its attributes follow the caller-wins merge |
| `AbbreviationTree.InheritLabels` | lib/parser/processor/resourceMatcher.js:62-66 | attribute copy changes nothing but attributes, at any depth and in the same pre-order positions |
| `AbbreviationTree.TransferRepeatLabels` | lib/parser/processor/resourceMatcher.js:43-50 | in pre-order, the transferred forest is the old one with each implicitly repeated node given the count and unmarked |
| `AbbreviationTree.TransferRepeatSpec` | lib/parser/processor/resourceMatcher.js:43-50 | node by node in pre-order: a node found by `findAll` gets `repeatCount = count` and `hasImplicitRepeat = false`; no other node and no other field changes |
| `AbbreviationTree.TransferRepeatTop` | lib/parser/processor/resourceMatcher.js:43-50 | the same rule for the top-level nodes, by position |
| `AbbreviationTree.DeepestChild` | lib/parser/processor/resourceMatcher.js:54-55 | there is no deepest child exactly when the subtree has no top-level node |
| `AbbreviationTree.DeepestIsLastLeaf` | lib/parser/processor/resourceMatcher.js:54 | the deepest child, reached by following last children, is a leaf and the last node in pre-order |
| `AbbreviationTree.ReplaceDeepestLabels` | lib/parser/processor/resourceMatcher.js:56-57 | putting a node in the deepest child's place changes only the last node in pre-order |
| `AbbreviationTree.GraftSpec` | lib/parser/processor/resourceMatcher.js:54-59 | with a deepest child, the grafted forest in pre-order is the old one followed by all the child's children in order, and the deepest node now has exactly those children. Without one, nothing is grafted; the forest stays empty |
| `AbbreviationTree.GraftTop` | lib/parser/processor/resourceMatcher.js:54-59 | grafting keeps every top-level node except for its number of children |
| `AbbreviationTree.GraftLastChildren` | lib/parser/processor/resourceMatcher.js:56-58 | the grafted nodes are, in order, the last nodes below the last top-level node |
| `AbbreviationTree.Splice` | lib/parser/processor/resourceMatcher.js:68 | `replace` puts the items at the index of the replaced node; the nodes before and after it keep their order |
| `AbbreviationTree.NoReferenceTransfer` | lib/parser/processor/resourceMatcher.js:47-50 | repeat transfer introduces no reference resource |
| `AbbreviationTree.NoReferenceGraft` | lib/parser/processor/resourceMatcher.js:56-58 | grafting reference-free nodes onto a reference-free forest leaves it reference-free |
| `AbbreviationTree.NoReferenceInherit` | lib/parser/processor/resourceMatcher.js:62-66 | attribute copy introduces no reference resource |
| `MatcherScenarios.RepeatIsInherited` | lib/parser/processor/resourceMatcher.js:42-51 | `menu*3` referring to `ul>li` with an implicitly repeated `li`: the spliced `li` repeats three times and is unmarked, and `ul` is untouched |
| `MatcherScenarios.CallerAttributeWins` | lib/parser/processor/resourceMatcher.js:62-66 | a caller `class="x"` overwrites the referenced top node's `class="y"` |
| `MatcherScenarios.GraftUnderDeepest` | lib/parser/processor/resourceMatcher.js:54-59 | a child `g` of a node referring to `a>b` ends up under `b`, not under `a` |
| `MatcherScenarios.ChildlessReferenceReceivesChildren` | lib/parser/processor/resourceMatcher.js:54-59 | a node referring to a single childless element hands its children to that element |

## Left out

- The module-definition shim and the `require` wiring (lines 5-16): loader plumbing.
- `resources.getMatchedResource`, `elements.create` / `elements.is` and `parser.parse` are
  parameters of the model; their own code is not part of this model. The lookup is a
  function of the node's value and the syntax. A lookup that inspects a node's parent or
  its position in the tree is not modelled.
- `emmet.defaultSyntax()` is a parameter (global configuration).
- The `AbbreviationNode` helpers (`findAll`, `deepestChild`, `addChild`, `attributeList`,
  `attribute`, `replace`, `data`) live outside this file and are not part of this model.
  Each is given the small specification stated above. Any name normalisation inside
  `attribute` is not modelled, and `attributeList()` is taken to be the node's own
  attribute list.
- Object identity, aliasing and parent back-pointers: nodes are values. The in-place
  updates of the found implicitly repeated nodes (lines 47-50) are modelled as one
  structural pass, `TransferRepeat`, over the subtree. Finding a node in its parent's list
  by identity (`replace`) is modelled by tracking its position in the live list.
- `Postprocess` returns the matched tree instead of mutating its argument.
- Failures of the lookup or of the parser propagate unchanged in the source, which has no
  handling logic for them; the model's lookup and parser are total.
- Repeat counts are unbounded integers; the source's numbers never overflow at these sizes.
