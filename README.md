# AMII preferred-character tree and character gatekeeper, in Dafny

This project models two pieces of the AMII IDE plugin:

- **The checkbox tree of the settings panel** (`PreferredCharacterTree`). Intentions (an id, a category path and a family name) are:
  - sorted by category path, whose segments are compared ignoring case, and then by family;
  - built into a tree of category nodes with one leaf per intention;
  - marked from a status map, where a category is checked when one of its children is;
  - read back into that map;
  - written to, or compared with, the settings store.
  
  Nodes can be looked up among direct children and recursively.
- **The character gatekeeper** (`CharacterGatekeeper`). It splits the preference string into a set of lower-cased ids and answers three questions about a possibly missing list of characters. It replaces its two fields when the configuration changes.

Files:

- `item_order.dfy`: intentions, the comparator, and the sort.
- `tree_nodes.dfy`: nodes, node text, the leaf traversal, and the two lookups as functions.
- `check_state.dfy`: marking, recording, and the dirty check, as functions.
- `tree_builder.dfy`: the builder and where it places each intention.
- `preferred_character_tree.dfy`: the settings store and the panel as classes. Their methods loop over children and update the status map, the root and the store.
- `character_gatekeeper.dfy`: the gatekeeper.
- `optional.dfy`: a value or nothing, standing in for `null`.

Tree nodes are values. A node, like the widget's node class, may hold children even when it carries an intention. Every traversal stops at an intention node.

The builder's `findChild` matches any child by its text, and an intention node's text is its family name. So when an intention's family equals a later intention's category segment, at the level where that segment is looked up, the later intention is inserted beneath the first one's leaf. No traversal ever reaches it there. `TreeBuilder.CollisionHidesItem` shows a two-intention instance. The placement lemmas assume that no such pair exists (`NoCollision`).

## Model

| member | source | states |
|---|---|---|
| ItemOrder.CopyAndSort | src/main/java/io/unthrottled/amii/config/ui/PreferredCharacterTree.java:57-69 | The result is a new list holding the same intentions with the same multiplicities. It is ordered by category path (lexicographic, segments compared ignoring case) and then by family name. |
| ItemOrder.CopyAndSortStable | src/main/java/io/unthrottled/amii/config/ui/PreferredCharacterTree.java:57-69 | The sort is stable: for every intention, the intentions tied with it (same case-folded category and same family) appear in the result in the order they had in the input. |
| ItemOrder.StrLtIrreflexive | src/main/java/io/unthrottled/amii/config/ui/PreferredCharacterTree.java:66 | No family name sorts before itself. |
| ItemOrder.StrLtTransitive | src/main/java/io/unthrottled/amii/config/ui/PreferredCharacterTree.java:66 | The string order is transitive. |
| ItemOrder.StrLtTotal | src/main/java/io/unthrottled/amii/config/ui/PreferredCharacterTree.java:66 | Of two different strings, one sorts before the other. |
| ItemOrder.PathLtIrreflexive | src/main/java/io/unthrottled/amii/config/ui/PreferredCharacterTree.java:62 | No category path sorts before itself. |
| ItemOrder.PathLtTransitive | src/main/java/io/unthrottled/amii/config/ui/PreferredCharacterTree.java:62 | The lexicographic path order is transitive. |
| ItemOrder.PathLtTotal | src/main/java/io/unthrottled/amii/config/ui/PreferredCharacterTree.java:62 | Of two different paths, one sorts before the other. |
| ItemOrder.ItemLtAsymmetric | src/main/java/io/unthrottled/amii/config/ui/PreferredCharacterTree.java:59-67 | The comparator never puts two intentions each before the other. |
| ItemOrder.NotAfterTransitive | src/main/java/io/unthrottled/amii/config/ui/PreferredCharacterTree.java:59-67 | "Not after" is transitive, so the comparator is a strict weak order, as sorting needs. |
| TreeNodes.NodeText | src/main/java/io/unthrottled/amii/config/ui/PreferredCharacterTree.java:102-113 | A category node's text is its label, an intention node's text is its family name, and the root's text is "???". |
| TreeNodes.Leaves | src/main/java/io/unthrottled/amii/config/ui/PreferredCharacterTree.java:115-144 | Every node the recursive visits act on carries an intention, and an intention node is the only node they act on beneath itself. |
| TreeNodes.LeavesOf | src/main/java/io/unthrottled/amii/config/ui/PreferredCharacterTree.java:138-144 | Visiting each child in turn acts only on intention nodes, and on every child that is one. |
| TreeNodes.LastMatch | src/main/java/io/unthrottled/amii/config/ui/PreferredCharacterTree.java:71-80 | A result is a position among the children, and the child there has the name as its text. |
| TreeNodes.LastMatchIsLast | src/main/java/io/unthrottled/amii/config/ui/PreferredCharacterTree.java:71-80 | There is no result iff no child's text is the name. A result has no matching child after it. |
| TreeNodes.FirstNamedIsFirst | src/main/java/io/unthrottled/amii/config/ui/PreferredCharacterTree.java:82-100 | A result is an intention node named as asked with no such node before it. There is no result iff no such node exists. |
| CheckState.Marked | src/main/java/io/unthrottled/amii/config/ui/PreferredCharacterTree.java:263-280 | Marking keeps each node's user object and number of children. |
| CheckState.MarkedIsOrOfLeaves | src/main/java/io/unthrottled/amii/config/ui/PreferredCharacterTree.java:263-280 | After marking, a node is checked iff some leaf beneath it has a status entry holding true. |
| CheckState.MarkedLeaves | src/main/java/io/unthrottled/amii/config/ui/PreferredCharacterTree.java:264-270 | The marked tree has the same leaves in the same order. Each is checked iff its status entry exists and holds true. |
| CheckState.Record | src/main/java/io/unthrottled/amii/config/ui/PreferredCharacterTree.java:287-296 | Recording keeps every key, and every new key is the intention of a reached leaf. |
| CheckState.RecordKeepsOthers | src/main/java/io/unthrottled/amii/config/ui/PreferredCharacterTree.java:287-296 | Recording leaves the entry of any intention without a leaf untouched, whether present or absent. |
| CheckState.RecordWritesLeaf | src/main/java/io/unthrottled/amii/config/ui/PreferredCharacterTree.java:287-296 | After recording, an intention's entry holds the check mark of its last leaf. |
| CheckState.RecordDomain | src/main/java/io/unthrottled/amii/config/ui/PreferredCharacterTree.java:287-296 | The recorded map's keys are the old keys plus the intentions of the leaves. |
| CheckState.ApplyThenNotModified | src/main/java/io/unthrottled/amii/config/ui/PreferredCharacterTree.java:115-136 | Right after the leaves are written to the store, none differs from it, provided no intention has two leaves. |
| CheckState.RebuildKeepsCheckState | src/main/java/io/unthrottled/amii/config/ui/PreferredCharacterTree.java:208-211 | In the tree rebuilt after recording, a leaf gets the earlier tree's mark for its intention if it had a leaf there. Otherwise it gets the old status entry. |
| TreeBuilder.InsertAt | src/main/java/io/unthrottled/amii/config/ui/PreferredCharacterTree.java:232-242 | A walk that finds no matching child appends exactly one child and keeps the others in place. A walk that finds a match changes only the matched child. |
| TreeBuilder.BuildTree | src/main/java/io/unthrottled/amii/config/ui/PreferredCharacterTree.java:228-243 | The built tree's root carries no user object. |
| TreeBuilder.BuildTreeDistinctLabels | src/main/java/io/unthrottled/amii/config/ui/PreferredCharacterTree.java:233-241 | Under every node, no category child shares its text with an earlier sibling: an existing category is reused, never duplicated. |
| TreeBuilder.InsertAtPaths | src/main/java/io/unthrottled/amii/config/ui/PreferredCharacterTree.java:232-242 | When the walk meets no intention node named like a segment, inserting adds exactly one leaf at the intention's path. It adds it after the leaves already there, and no other path changes. |
| TreeBuilder.BuildTreePlacesEachItem | src/main/java/io/unthrottled/amii/config/ui/PreferredCharacterTree.java:231-243 | At each category path the tree holds exactly the input intentions with that category, once per occurrence, in input order. |
| TreeBuilder.BuildTreeLeafPaths | src/main/java/io/unthrottled/amii/config/ui/PreferredCharacterTree.java:231-243 | Every leaf is an input intention whose ancestors' labels are its category. Every input intention has such a leaf. |
| TreeBuilder.BuildTreeIntentionsIn | src/main/java/io/unthrottled/amii/config/ui/PreferredCharacterTree.java:228-243 | Every intention node of the built tree carries one of the input intentions, whatever collisions occur. |
| TreeBuilder.LeavesIntentionsIn | src/main/java/io/unthrottled/amii/config/ui/PreferredCharacterTree.java:115-144 | When every intention node of a tree carries a known intention, so does every node the recursive visits act on. |
| TreeBuilder.NodePathsFollowLeaves | src/main/java/io/unthrottled/amii/config/ui/PreferredCharacterTree.java:138-144 | The path listing and the leaf traversal visit the same intentions in the same order. |
| TreeBuilder.CollisionHidesItem | src/main/java/io/unthrottled/amii/config/ui/PreferredCharacterTree.java:71-80 | For intentions a (category c, family x) and b (category c/x), the built tree is the category c holding a's node, with b's node as the only child of a's node. Only a is reachable. |
| CharacterTree.FindChild | src/main/java/io/unthrottled/amii/config/ui/PreferredCharacterTree.java:71-80 | The loop returns the last child whose text is the name, or nothing. |
| CharacterTree.FindChildRecursively | src/main/java/io/unthrottled/amii/config/ui/PreferredCharacterTree.java:82-100 | The loop returns the first intention node named as asked in depth-first order, or nothing. |
| CharacterTree.ApplyNode | src/main/java/io/unthrottled/amii/config/ui/PreferredCharacterTree.java:115-123 | The store afterwards is the old store with each reached leaf's mark written in order, and nothing else changes. |
| CharacterTree.IsModifiedNode | src/main/java/io/unthrottled/amii/config/ui/PreferredCharacterTree.java:125-136 | The answer is true iff some reached leaf's mark differs from the store's enabled state, where a missing entry reads as enabled. |
| CharacterTree.ResetThenNotModified | src/main/java/io/unthrottled/amii/config/ui/PreferredCharacterTree.java:213-226 | Right after reset() the panel reports no modification, for every intention list, also when a collision hides intentions. |
| CharacterTree.PreferredCharacterTree.constructor | src/main/java/io/unthrottled/amii/config/ui/PreferredCharacterTree.java:174 | The panel starts with an empty root and an empty status map. |
| CharacterTree.PreferredCharacterTree.ResetCheckMark | src/main/java/io/unthrottled/amii/config/ui/PreferredCharacterTree.java:263-280 | The loop computes the marked tree, and the returned flag is the node's new mark. |
| CharacterTree.PreferredCharacterTree.RefreshCheckStatus | src/main/java/io/unthrottled/amii/config/ui/PreferredCharacterTree.java:287-296 | The status map afterwards is the old map with every reached leaf's mark recorded. |
| CharacterTree.PreferredCharacterTree.Rebuild | src/main/java/io/unthrottled/amii/config/ui/PreferredCharacterTree.java:228-249 | The root becomes the tree built from the intentions in the given order, marked from the status map. |
| CharacterTree.PreferredCharacterTree.Filter | src/main/java/io/unthrottled/amii/config/ui/PreferredCharacterTree.java:208-211 | The current marks are recorded first. Then the root becomes the marked tree of the sorted intentions. |
| CharacterTree.PreferredCharacterTree.Reset | src/main/java/io/unthrottled/amii/config/ui/PreferredCharacterTree.java:213-226 | Afterwards the status map's keys are exactly the store's intentions, each holding its enabled state. The root is the marked tree of all of them, sorted. |
| CharacterTree.PreferredCharacterTree.SelectIntention | src/main/java/io/unthrottled/amii/config/ui/PreferredCharacterTree.java:251-257 | The node to select is the first intention node with the family name, or nothing. |
| CharacterTree.PreferredCharacterTree.Apply | src/main/java/io/unthrottled/amii/config/ui/PreferredCharacterTree.java:282-285 | The store receives the whole tree's leaf marks, and nothing else changes. |
| CharacterTree.PreferredCharacterTree.IsModified | src/main/java/io/unthrottled/amii/config/ui/PreferredCharacterTree.java:298-300 | The answer is true iff some leaf of the tree differs from the store. |
| Gatekeeper.Split | src/main/kotlin/io/unthrottled/amii/services/CharacterGatekeeper.kt:24 | There is always at least one segment, and no segment contains the delimiter. |
| Gatekeeper.JoinSplit | src/main/kotlin/io/unthrottled/amii/services/CharacterGatekeeper.kt:24 | Joining the split segments with the delimiter gives the preference string back. |
| Gatekeeper.SplitJoin | src/main/kotlin/io/unthrottled/amii/services/CharacterGatekeeper.kt:24 | Splitting a join of delimiter-free segments gives exactly those segments. |
| Gatekeeper.ExtractAllowedCharacters | src/main/kotlin/io/unthrottled/amii/services/CharacterGatekeeper.kt:23-27 | Every non-empty segment's lowercase form is an id. Every id is the lowercase form of a non-empty segment. |
| Gatekeeper.ExtractFromSegments | src/main/kotlin/io/unthrottled/amii/services/CharacterGatekeeper.kt:23-27 | For a string made of delimiter-free segments, the ids are exactly the lowercased non-empty segments. |
| Gatekeeper.NoEmptyId | src/main/kotlin/io/unthrottled/amii/services/CharacterGatekeeper.kt:25-26 | The empty string is never an id. |
| Gatekeeper.IdsAreLowercase | src/main/kotlin/io/unthrottled/amii/services/CharacterGatekeeper.kt:26 | Every id is unchanged by lowercasing. |
| Gatekeeper.AnyHasId | src/main/kotlin/io/unthrottled/amii/services/CharacterGatekeeper.kt:41 | True iff some character's id is in the set. |
| Gatekeeper.AnyHasGender | src/main/kotlin/io/unthrottled/amii/services/CharacterGatekeeper.kt:45 | True iff some character has the gender. |
| Gatekeeper.CharacterGatekeeper.constructor | src/main/kotlin/io/unthrottled/amii/services/CharacterGatekeeper.kt:20-21 | Both fields are read from the configuration. |
| Gatekeeper.CharacterGatekeeper.OnConfigChanged | src/main/kotlin/io/unthrottled/amii/services/CharacterGatekeeper.kt:32-35 | Both fields are replaced from the new configuration, computed as at construction. Nothing else changes. |
| Gatekeeper.CharacterGatekeeper.HasPreferredGender | src/main/kotlin/io/unthrottled/amii/services/CharacterGatekeeper.kt:43-45 | True whenever the preference is Yes, even for a missing list. Otherwise true iff some character has the preferred gender, so false for a missing list. |
| Gatekeeper.CharacterGatekeeper.HasPreferredCharacter | src/main/kotlin/io/unthrottled/amii/services/CharacterGatekeeper.kt:39-41 | With no preferred ids, equals HasPreferredGender. Otherwise true iff some character's id is preferred, so false for a missing list. |
| Gatekeeper.CharacterGatekeeper.IsPreferred | src/main/kotlin/io/unthrottled/amii/services/CharacterGatekeeper.kt:47-48 | True iff the character's id, compared exactly, is the lowercase form of some non-empty segment of the preference string last read. |
| Gatekeeper.NotLowercaseNeverPreferred | src/main/kotlin/io/unthrottled/amii/services/CharacterGatekeeper.kt:47-48 | The id comparison is exact, so a character whose id lowercasing would change is never preferred. |

## Left out

- The Swing widget is not modelled: the cell renderer, the scroll pane and toolbar, the selection listener, focus, expansion and the selection of a path. `SelectIntention` returns the node to select rather than selecting it.
- The filter component, its expansion monitor and the abstract `filterModel` are not modelled. `Filter` takes the intentions to show as a list.
- `reset()` waits while the intention manager has active requests. That polling wait is not modelled.
- `IntentionManagerSettings` is modelled as an object holding the intention list and a map of enabled flags. A missing entry reads as enabled. The real store's persistence and defaults are not part of this model.
- Tree-model change events (`insertNodeInto`, `setRoot`, `nodeChanged`) are modelled only by their effect on the tree's shape.
- Nodes are values, not shared mutable objects. The model does not capture in-place updates of check marks seen through other references to a node, or the builder's cursor aliasing into the tree under construction. The builder's inner walk is the recursive function `TreeBuilder.InsertAt`, which rebuilds the path it walks.
- `CheckedTreeNode` is not part of this model. A new node is taken to start checked. Marking stops at intention nodes, so a node placed beneath an intention node by a collision keeps the mark it was created with, and the widget still shows it with that mark.
- Intention identity (`IntentionActionMetaData` as a map key) is modelled by an explicit id field.
- `ArrayUtil` is not part of this model. Its comparison of string arrays compares segments with `compareToIgnoreCase`; the model folds case for ASCII letters only (`ItemOrder.CategoryKey`), so the non-ASCII case folding of `compareToIgnoreCase` is not captured.
- The string order compares characters as code points. Java compares UTF-16 code units, which can differ outside the Basic Multilingual Plane.
- The gatekeeper's message-bus subscription, service lookup and `Disposable` lifecycle are not modelled. The listener is the method `OnConfigChanged`.
- Unicode lowercasing is a function parameter. The lemmas that depend on it assume what they need of it: it keeps non-empty strings non-empty, and applying it twice is the same as applying it once.
- `Config` and `Config.DEFAULT_DELIMITER` are not part of this model. The delimiter is a single-character parameter.
- `Gender` is modelled as `Yes` or a named gender. Its other constants are not part of this model.
- `TreeBuilder.BuildTreePlacesEachItem` and `TreeBuilder.BuildTreeLeafPaths` hold only for intention lists without the collision described above. `TreeBuilder.CollisionHidesItem` states what happens otherwise.
- build.gradle.kts is build configuration and is not modelled.
