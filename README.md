# filament-tree-view: the tree reorder engine, in Dafny

This project models the core of filament-tree-view, a Filament plugin for editing hierarchical records as a drag-and-drop tree, and proves properties of the model. The core has four parts:

- **Server move processor** (`InteractsWithTree`).
  - `reorderTree` takes a batch of client moves.
  - `processSingleMove` applies each one to the tree table: it finds the node, stores its new parent pointer (the client's root marker `-1` becomes the model's root value), closes the gap in the old sibling group and splices the node into the new group.
  - Sibling `order` values are renumbered 1..N in `ORDER BY order, id` sequence.
  - `buildNestedArray` builds the displayed forest.
  - `isExpanded`/`toggleExpanded` keep the per-record expand flags.
- **Client drag engine** (the `FilamentTree` class of `filament-tree.js`).
  - It decides which drop operations are blocked: a drop onto the item itself or into its own subtree, and a combine that would nest the rendered items past `maxDepth`.
  - It turns an accepted drop into a move record.
  - It applies the move to the rendered tree at once (`applyMoveToDOM`, `updateItemDepth`, `cleanupEmptyContainers`).
  - In manual mode it queues moves until `saveChanges`/`cancelChanges`. In autoSave mode it sends each move at once.
- **`TextField`**. The fluent setters record the column's settings. `render` turns an array record into the column's HTML: truncation, size, colour and weight classes, and dimming.
- **Locale selection** (the tree page's `Translatable` concern).
  - initial locale on mount;
  - the locale the tree shows;
  - the header's locale switcher;
  - the events that changing the locale dispatches.

Layout:

| file | module | what |
|---|---|---|
| `php_values.dfy` | `PhpValues` | PHP values (`Null`, `Bool`, `Int`, `Str`), truthiness, `(string)` casts, PHP 8 loose `==`, typed-parameter coercion, decimal rendering and parsing, SQL key matching |
| `sibling_order.dfy` | `SiblingOrder` | the table as `map<key, Row(parent, order)>`, `find`, the sorted sibling query, dense renumbering, `firstWhere`/`reject` and the `$newOrder` splice |
| `move_semantics.dfy` | `MoveSemantics` | pure semantics of one move and of a batch, in two variants: as written, and corrected (see Findings) |
| `interacts_with_tree.dfy` | `InteractsWithTree` | class `TreeComponent` whose methods, with their loops, are proved against `MoveSemantics`; `buildNestedArray` |
| `tree_dom.dfy` | `TreeDom` | the rendered tree as nested values, its well-formedness, the DOM edits of a move and what each preserves |
| `drag_engine.dfy` | `DragEngine` | option defaults, blocking rules, move records, class `FilamentTree` with the change queue |
| `text_field.dfy` | `TextFields` | `render` as functions, class `TextField` with the setters |
| `translatable.dfy` | `TreeLocales` | class `TreePageLocale` with `activeLocale` and its operations |

Modelling choices:

- Ids are `Value`s, so integer and string keys stay apart. The source compares them with `===` in some places and with `==` in others.
- Database queries and `save()` are operations on the `rows` map, plus a log of saved keys (`saved`).
- Livewire calls are appends to an event log (`events`, `dispatched`) or to a list of sent batches (`sent`).
- The hitbox library's choice of drop operation is an input to `onDrop`.
- User closures in `TextField` are opaque handles. Their results come from a `Calls` value. The escaping function `e()` is a parameter.
- The configuration values a component reads are constructor parameters:
  - the model's parent-key default ("root value");
  - whether key columns are integers;
  - `isDefaultExpanded`;
  - the translatable locales.

## Model

| member | source | states |
|---|---|---|
| InteractsWithTree.TreeComponent.IsRootValue | src/Concerns/InteractsWithTree.php:78-84 | with a null root value, exactly null, false, 0 and "" count as root; with an integer root value, exactly that int, every integer-numeric string denoting it (so -1 and "-1" alike), the boolean of its truthiness and, for 0, null; the root value itself always does |
| InteractsWithTree.TreeComponent.BuildNestedArray | src/Concerns/InteractsWithTree.php:86-107 | the recursive builder returns the branch `Branch` describes |
| InteractsWithTree.BranchLevel | src/Concerns/InteractsWithTree.php:92-104 | a branch holds exactly the records of its level (root-valued parent at the top, loosely equal parent id below), each with the next level down as children |
| InteractsWithTree.BranchLinked | src/Concerns/InteractsWithTree.php:94-101 | at every depth of the built forest, each child's parent pointer matches its parent's id |
| InteractsWithTree.TreeComponent.ReorderTree | src/Concerns/InteractsWithTree.php:109-120 | an empty batch changes nothing and dispatches nothing; otherwise the table becomes what running the moves in order gives, and `tree-reordered` is dispatched once exactly when every move completed. Corrected variant; agrees with the as-written code for integer keys unless some move's new parent is the string "-1" (`RunCorrectedAgreesForIntKeys`; see Findings) |
| InteractsWithTree.TreeComponent.ProcessSingleMove | src/Concerns/InteractsWithTree.php:122-155 | the table and outcome become what `MoveSemantics.Step` gives for the move, `UndefinedKey` with nothing changed when `nodeId` is missing; events and expand flags are untouched. Corrected variant; agrees with the as-written code for integer keys unless the new parent is the string "-1" (`CorrectedAgreesForIntKeys`; see Findings) |
| InteractsWithTree.TreeComponent.ReorderSiblings | src/Concerns/InteractsWithTree.php:157-188 | the table becomes the old group renumbered in sort order (`RenumberGroup`). Corrected variant; agrees with the as-written code for integer keys (`ReorderSiblingsAgreesForIntKeys`) |
| InteractsWithTree.TreeComponent.Renumber | src/Concerns/InteractsWithTree.php:180-187 | each key of the list gets its position plus one as order; exactly the keys whose order changed are saved, in order |
| InteractsWithTree.TreeComponent.ReorderSiblingsWithInsert | src/Concerns/InteractsWithTree.php:190-250 | the table and outcome become what `MoveSemantics.InsertStep` gives. Corrected variant; agrees with the as-written code whenever the parent id is an int (`InsertAgreesForIntKeys`) |
| InteractsWithTree.BuildNewOrder | src/Concerns/InteractsWithTree.php:213-240 | the appends build `$newOrder` exactly as `SiblingOrder.NewOrder` defines it |
| InteractsWithTree.SpliceAround | src/Concerns/InteractsWithTree.php:228-238 | the loop emits each sibling, with the moved entry just before or after each sibling strictly equal to the reference |
| InteractsWithTree.TreeComponent.RenumberItemsLoop | src/Concerns/InteractsWithTree.php:242-249 | the records before the first missing entry are renumbered 1, 2, ...; the missing entry ends the move with a write to null |
| InteractsWithTree.TreeComponent.SaveParent | src/Concerns/InteractsWithTree.php:145-146 | only the node's parent column changes, and the node is saved once |
| InteractsWithTree.TreeComponent.SaveOrder | src/Concerns/InteractsWithTree.php:244-247 | only the record's order column changes, and the record is saved once |
| InteractsWithTree.TreeComponent.ToggleExpanded | src/Concerns/InteractsWithTree.php:252-256 | the stored flags become the old ones with this record's entry set to the negation of its old effective flag, and nothing else is added or changed; so its effective flag flips and no other record's changes; table and logs untouched |
| InteractsWithTree.TreeComponent.IsExpanded | src/Concerns/InteractsWithTree.php:258-264 | the stored flag for the record when there is one, otherwise the tree's default |
| SiblingOrder.Find | src/Concerns/InteractsWithTree.php:130 | `find` returns a key the database matches with the id, and returns nothing only when no key matches |
| SiblingOrder.SortedKeys | src/Concerns/InteractsWithTree.php:178 | every key of the group exactly once, each strictly before the next under `ORDER BY order, id` |
| SiblingOrder.DenseRenumbering | src/Concerns/InteractsWithTree.php:178-187 | after renumbering a group in sort order, position i holds order i + 1; no other record and no parent pointer changes |
| SiblingOrder.RenumberingKeepsOrder | src/Concerns/InteractsWithTree.php:178-187 | two group members keep their relative order |
| SiblingOrder.WritesAreChanges | src/Concerns/InteractsWithTree.php:182-185 | a record is saved exactly when its order differed from its new position |
| SiblingOrder.RenumberedAt | src/Concerns/InteractsWithTree.php:180-187 | renumbering a list of distinct keys sets exactly those keys' orders to their positions plus one |
| SiblingOrder.FirstWhere | src/Concerns/InteractsWithTree.php:213 | the first element loosely equal to the id; none only when no element is |
| SiblingOrder.Reject | src/Concerns/InteractsWithTree.php:214 | exactly the elements not strictly equal to the id |
| SiblingOrder.RejectOne | src/Concerns/InteractsWithTree.php:214 | removing an element that occurs once keeps the others in order |
| SiblingOrder.NewOrderAppends | src/Concerns/InteractsWithTree.php:218-226 | with position `inside`, a falsy reference, or a reference not among the other siblings, the node goes last and the others keep their order |
| SiblingOrder.NewOrderNextToReference | src/Concerns/InteractsWithTree.php:222-238 | with `before`/`after` and a reference found among the other siblings, the node lands immediately before/after it and the others keep their order |
| SiblingOrder.NewOrderPlacesNextTo | src/Concerns/InteractsWithTree.php:222-238 | the `before`/`after` result is a permutation of the siblings with the node next to the reference |
| SiblingOrder.NewOrderPlacesLast | src/Concerns/InteractsWithTree.php:218-226 | the appending result is a permutation of the siblings with the node last |
| SiblingOrder.NewOrderFromSiblings | src/Concerns/InteractsWithTree.php:216-240 | every record in `$newOrder` is one of the siblings |
| SiblingOrder.NewOrderKeepsMissingNode | src/Concerns/InteractsWithTree.php:213-240 | a node that is not among the siblings still leaves a null entry in `$newOrder`, for every position the client sends |
| SiblingOrder.NewOrderFindsNode | src/Concerns/InteractsWithTree.php:213-240 | a node among the siblings leaves no null entry |
| SiblingOrder.IntKeysLooseIsStrict | src/Concerns/InteractsWithTree.php:213-214 | for integer keys, `firstWhere`'s loose match and `reject`'s strict match agree |
| SiblingOrder.StrKeysLooseIsStrict | src/Concerns/InteractsWithTree.php:213-214 | for string keys compared with a non-numeric string, loose and strict matches agree |
| MoveSemantics.Run | src/Concerns/InteractsWithTree.php:115-117 | the moves in order, stopping at the first that fails; no key is added or lost |
| MoveSemantics.RunSplit | src/Concerns/InteractsWithTree.php:115-117 | a batch runs as its first part followed, if that completed, by the rest (each move once, in order) |
| MoveSemantics.Step | src/Concerns/InteractsWithTree.php:122-155 | one move; the table keeps its keys |
| MoveSemantics.StepWithoutNodeId | src/Concerns/InteractsWithTree.php:124 | a move without a `nodeId` key raises (`UndefinedKey`) before the query and changes nothing |
| MoveSemantics.RunStopsAtMissingNodeId | src/Concerns/InteractsWithTree.php:109-124 | a batch runs the moves before the first one without `nodeId`; if they completed, it ends there with `UndefinedKey` and no later move is applied |
| MoveSemantics.CompletedRunHadNodeIds | src/Concerns/InteractsWithTree.php:109-124 | a batch that completes (and so dispatches `tree-reordered`) had a `nodeId` in every move |
| MoveSemantics.StepMissingNode | src/Concerns/InteractsWithTree.php:130-134 | a move that has a `nodeId` the query does not find leaves table and log unchanged and completes |
| MoveSemantics.StepStoresParent | src/Concerns/InteractsWithTree.php:124-146 | a found node is saved first, with the stored parent for the requested one (null means -1; -1 means the root value); no other record's parent changes |
| MoveSemantics.StepReachesInsert | src/Concerns/InteractsWithTree.php:124-154 | when all ids bind, the move reaches the insert step with only the node's parent changed |
| MoveSemantics.LeftOldGroupCompletes | src/Concerns/InteractsWithTree.php:148-151 | leaving the old group completes when the old parent binds, and keeps every parent pointer |
| MoveSemantics.RenumberGroup | src/Concerns/InteractsWithTree.php:157-188 | closing a group's gaps keeps the table's keys |
| MoveSemantics.RenumberItems | src/Concerns/InteractsWithTree.php:242-249 | the renumbering keeps the table's keys and fails with the write to null exactly when `$newOrder` holds a null entry |
| MoveSemantics.InsertStep | src/Concerns/InteractsWithTree.php:190-250 | the insert keeps the table's keys, and it fails, always with the write to null, exactly when `$newOrder` holds a null entry |
| MoveSemantics.InsertNextToReference | src/Concerns/InteractsWithTree.php:222-249 | the group ends with the node immediately before/after the reference, the others in their order, orders 1..N; no other record changes; completes |
| MoveSemantics.InsertAppends | src/Concerns/InteractsWithTree.php:218-226 | the group ends with the node last, the others in their order, orders 1..N; completes |
| MoveSemantics.InsertOfMissingNode | src/Concerns/InteractsWithTree.php:213-249 | an insert into a group that does not hold the node fails with a write to null |
| MoveSemantics.InsertOfPresentNode | src/Concerns/InteractsWithTree.php:213-249 | an insert into the group that holds the node completes |
| MoveSemantics.RootStringAsWrittenFails | src/Concerns/InteractsWithTree.php:145 | as written, the client's string "-1" with root value null is stored as parent -1 and the move ends in a write to null |
| MoveSemantics.RootStringCorrectedCompletes | src/Concerns/InteractsWithTree.php:145 | corrected, the same move completes with the node at the root |
| MoveSemantics.RootInsertOfMissingNode | src/Concerns/InteractsWithTree.php:200-249 | as written, an insert at the root of a node stored under -1 writes to null |
| MoveSemantics.RootInsertOfPresentNode | src/Concerns/InteractsWithTree.php:200-249 | an insert at the root of a node stored under null completes |
| MoveSemantics.TextKeysAsWrittenFail | src/Concerns/InteractsWithTree.php:149-154 | as written, moving a record with a non-numeric text key always ends in a TypeError |
| MoveSemantics.TextKeysCorrectedComplete | src/Concerns/InteractsWithTree.php:149-154 | corrected, such a move completes and stores the requested parent |
| MoveSemantics.TextInsertOfPresentNode | src/Concerns/InteractsWithTree.php:190-249 | corrected, a text-keyed insert into the group holding the node completes and keeps parents |
| MoveSemantics.InsertPlacesGroup | src/Concerns/InteractsWithTree.php:213-249 | an insert of a record into its own group completes; the group is listed exactly by `$newOrder`, numbered 1..N along it; no parent pointer and no record outside the group changes |
| MoveSemantics.StepMovesNode | src/Concerns/InteractsWithTree.php:122-155 | a well-formed move of a present record completes; the record's parent becomes the requested one and no other parent changes; its new group is exactly `$newOrder` (`NewOrder` of that group), numbered 1..N; the group it left is numbered 1..N; records outside both groups are untouched |
| MoveSemantics.StepKeepsAllDense | src/Concerns/InteractsWithTree.php:122-155 | one well-formed move on a table whose sibling groups are all numbered 1..N completes and leaves every group numbered 1..N |
| MoveSemantics.RunKeepsAllDense | src/Concerns/InteractsWithTree.php:109-120 | a batch of well-formed moves on such a table completes, and every sibling group is still numbered 1..N afterwards |
| MoveSemantics.CorrectedAgreesForIntKeys | src/Concerns/InteractsWithTree.php:122-155 | for integer keys, the corrected move equals the as-written one unless the parent is the string "-1" |
| MoveSemantics.ReorderSiblingsAgreesForIntKeys | src/Concerns/InteractsWithTree.php:157-188 | for integer keys, the corrected renumbering of a group equals the as-written one |
| MoveSemantics.InsertAgreesForIntKeys | src/Concerns/InteractsWithTree.php:190-250 | for an integer parent id, the corrected insert equals the as-written one |
| MoveSemantics.RunCorrectedAgreesForIntKeys | src/Concerns/InteractsWithTree.php:115-117 | the same for a whole batch |
| DragEngine.MaxDepthAsWritten | resources/js/filament-tree.js:47 | the `??` default always yields a limit |
| DragEngine.MaxDepthCorrected | resources/js/filament-tree.js:40-47 | no limit exactly for an explicit null; otherwise as written |
| DragEngine.NullMaxDepthIsTen | resources/js/filament-tree.js:47 | as written, an explicit null becomes 10 |
| DragEngine.AutoSaveOption | resources/js/filament-tree.js:49 | autoSave is on unless the option is explicitly false |
| DragEngine.FilamentTree.constructor | resources/js/filament-tree.js:44-59 | option defaults, empty queue, all flags false |
| TreeDom.IsDescendantOf | resources/js/filament-tree.js:88-97 | a reported descendant's id is in the ancestor's subtree, and every id of that subtree other than the ancestor's own is reported |
| TreeDom.DescendantsLeaveWithSource | resources/js/filament-tree.js:88-97 | `isDescendantOf` reports exactly the items that leave with the dragged item, other than the item itself |
| DragEngine.FilamentTree.GetSubtreeDepth | resources/js/filament-tree.js:103-118 | the fold computes `SubtreeDepth`, the greatest level any descendant reaches (0 without children) |
| TreeDom.SubtreeDepth | resources/js/filament-tree.js:103-118 | some item of the subtree sits exactly that many levels below the item |
| TreeDom.SubtreeDepthIsHeight | resources/js/filament-tree.js:103-118 | no item of the subtree sits deeper than `SubtreeDepth`, so it is the subtree's height |
| DragEngine.Blocking | resources/js/filament-tree.js:172-193 | nothing is blocked without a dragged element; both reorders are blocked exactly when the target is in the dragged subtree, a combine is then blocked too, and without a depth limit only then |
| DragEngine.NoSourceBlocksNothing | resources/js/filament-tree.js:175-179 | without a dragged element nothing is blocked |
| DragEngine.ReorderBlockedIff | resources/js/filament-tree.js:182-193 | a reorder is blocked iff the target is in the dragged subtree; the depth limit plays no part |
| DragEngine.CombineBlockedIff | resources/js/filament-tree.js:182-191 | a combine is blocked iff the target is in the dragged subtree, or a limit is set and the moved subtree would hold an item at depth at least the limit |
| DragEngine.AcceptedCanApply | resources/js/filament-tree.js:237-240 | an accepted drop is one the DOM update can carry out |
| DragEngine.DropMove | resources/js/filament-tree.js:242-271 | the record names the dragged item (so `nodeId` is always present); `inside`, the target as parent and no reference exactly for a combine; `before`/`after` with the target as reference and the target's container (or `-1`) as parent for the reorders |
| DragEngine.DropMoveDescribesDrop | resources/js/filament-tree.js:242-271 | the record names the dragged item; for a combine the target is the new parent and the item's container; for a reorder the target is the reference and the item's neighbour on the side the position names, with the new container's id (or the root marker) as parent |
| DragEngine.AcceptedCombineRespectsMaxDepth | resources/js/filament-tree.js:186-191 | after an accepted combine under a limit, every moved rendered item's depth is below it |
| DragEngine.EndReference | resources/js/filament-tree.js:328-330 | never empty: the last root item's id when it has a non-empty one, otherwise `-1` |
| DragEngine.EndMove | resources/js/filament-tree.js:332-337 | names the dragged item and the integer root marker as parent; otherwise the record of a reorder after the last root item |
| DragEngine.EndMoveDescribesDrop | resources/js/filament-tree.js:328-357 | the drop-at-end record is `(-1, after, last root id)`, and the item becomes the last root item, right after the old one |
| DragEngine.EndReferenceEmpty | resources/js/filament-tree.js:330 | with no root item the reference is "-1" |
| TreeDom.DropAtEndOutcome | resources/js/filament-tree.js:346-347 | dropping on the end zone is an applicable reorder after the last root item, leaving the item last at the root |
| DragEngine.FilamentTree.OnDrop | resources/js/filament-tree.js:231-293 | an unaccepted drop changes nothing; manual mode queues exactly the drop's record, raises the flag and applies the move; autoSave with Livewire applies and sends `[record]`; autoSave without Livewire does nothing |
| DragEngine.FilamentTree.OnDropAtEnd | resources/js/filament-tree.js:324-363 | the same three modes with the end-zone record and a reorder after the last root item |
| DragEngine.FilamentTree.DragStarted | resources/js/filament-tree.js:430-432 | sets the dragging flag only |
| DragEngine.FilamentTree.DragEnded | resources/js/filament-tree.js:433-435 | clears the dragging flag only |
| DragEngine.FilamentTree.ApplyMoveToDOM | resources/js/filament-tree.js:454-502 | the tree becomes `ApplyMove` of the old tree, is well formed, has no empty container and shows the same items |
| TreeDom.ApplyMoveValid | resources/js/filament-tree.js:454-502 | after the move: unique ids, each depth one more than the enclosing item's, each parent attribute naming the enclosing item, the same items, no empty container |
| TreeDom.ApplyMoveAttributes | resources/js/filament-tree.js:473-497 | the item takes the target's depth plus one and the target's id (combine), or the target's depth and `parentId \|\| '-1'` (reorder); items outside the subtree keep depth and parent; only the dragged item's parent attribute changes |
| TreeDom.CombineOutcome | resources/js/filament-tree.js:457-475 | after a combine the item's container is the target, and it is the target's last child |
| TreeDom.ReorderOutcome | resources/js/filament-tree.js:477-497 | after a reorder the item is in the target's container, immediately before/after it |
| DragEngine.FilamentTree.UpdateItemDepth | resources/js/filament-tree.js:507-518 | the item takes the depth and each descendant its parent's plus one; ids and parent attributes unchanged |
| TreeDom.WithDepthFacts | resources/js/filament-tree.js:507-518 | re-stamping makes depths consistent from the new depth and changes nothing else |
| DragEngine.FilamentTree.CleanupItem | resources/js/filament-tree.js:523-531 | below one item, empty containers are removed and all items and attributes kept |
| DragEngine.FilamentTree.CleanupContainers | resources/js/filament-tree.js:523-531 | no empty container remains; the same items with the same attributes |
| TreeDom.PruneCleans | resources/js/filament-tree.js:523-531 | pruning leaves no empty container and is the identity on a tree that has none |
| TreeDom.PruneKeepsPlaces | resources/js/filament-tree.js:523-531 | pruning keeps neighbours and containers |
| DragEngine.FilamentTree.SaveChanges | resources/js/filament-tree.js:551-564 | manual mode with a queue and Livewire sends the whole queue in order as one batch and clears queue and flag; otherwise nothing changes |
| DragEngine.FilamentTree.CancelChanges | resources/js/filament-tree.js:569-582 | manual mode clears queue and flag and refreshes once with Livewire; autoSave does nothing |
| TextFields.TextField.constructor | src/Fields/TextField.php:11-23 | every setting starts unset |
| TextFields.TextField.Color | src/Fields/TextField.php:29-34 | sets the colour only, returns the field |
| TextFields.TextField.Size | src/Fields/TextField.php:39-44 | sets the size only, returns the field |
| TextFields.TextField.Limit | src/Fields/TextField.php:49-54 | sets the character limit only, returns the field |
| TextFields.TextField.Weight | src/Fields/TextField.php:60-65 | sets the weight only, returns the field |
| TextFields.TextField.DimWhen | src/Fields/TextField.php:73-79 | sets the dim field and value only (`false` when the value is omitted), returns the field |
| TextFields.TextField.DimWhenInactive | src/Fields/TextField.php:85-88 | the same settings as `dimWhen(field, false)`, with `is_active` as the field when none is given |
| TextFields.TextField.FormatStateUsing | src/Fields/TextField.php:96-101 | sets the formatter only, returns the field |
| TextFields.GetFieldState | src/Fields/TextField.php:207-212 | for an array record, the entry under the field's name when the record has that key, otherwise null |
| TextFields.FormattedSpec | src/Fields/TextField.php:112-117 | without a formatter the state cast to string; with one, its result cast to string |
| TextFields.Prefix | src/Fields/TextField.php:121 | `substr` from 0 is a prefix, of the requested length when that is non-negative |
| TextFields.Truncate | src/Fields/TextField.php:120-122 | the text, or a prefix of it followed by `...`, no longer than the limit plus three |
| TextFields.TruncateSpec | src/Fields/TextField.php:120-122 | a positive limit below the text length keeps exactly that many bytes and adds `...`; no limit, 0, or a short text leaves it unchanged |
| TextFields.SizeClassSpec | src/Fields/TextField.php:128-139 | unset or unknown sizes give `text-sm`; known sizes map one-to-one |
| TextFields.ClassesTruthy | src/Fields/TextField.php:128-139 | the size class is never filtered out |
| TextFields.UnknownColorLikeNone | src/Fields/TextField.php:141-156 | an unknown colour renders as if none were set |
| TextFields.UnknownWeightLikeNone | src/Fields/TextField.php:158-181 | an unknown weight renders as if none were set |
| TextFields.EveryFontWeightKnown | src/Fields/TextField.php:169-180 | every enum case has a weight class |
| TextFields.EnumWeightAsString | src/Fields/TextField.php:165-167 | an enum weight renders as its string value does |
| TextFields.Render | src/Fields/TextField.php:106-202 | the output is always a span, never the bare text: the class list, the opacity style exactly when the record's dim field value is identical to the dim value, around the escaped, possibly truncated text |
| TextFields.ClassStringLeads | src/Fields/TextField.php:184-191 | the class string starts with the size class, so it is truthy and the span branch is always taken |
| TreeLocales.MountedLocale | src/Resources/Pages/TreePage/Concerns/Translatable.php:17-24 | an empty locale (null, "", "0") becomes the first available one when there is one; otherwise it is kept |
| TreeLocales.TreePageLocale.MountTranslatable | src/Resources/Pages/TreePage/Concerns/Translatable.php:17-24 | the locale becomes `MountedLocale` of the old one |
| TreeLocales.MountShowsFirstLocale | src/Resources/Pages/TreePage/Concerns/Translatable.php:17-46 | after mounting from an empty locale with locales available, the tree shows the first locale |
| TreeLocales.ActiveTreeLocale | src/Resources/Pages/TreePage/Concerns/Translatable.php:39-46 | the active locale iff it is loosely in the list, otherwise null |
| TreeLocales.TreePageLocale.GetActiveTreeLocale | src/Resources/Pages/TreePage/Concerns/Translatable.php:39-46 | the page's active locale when it is set and loosely in the locale list, otherwise null |
| TreeLocales.ListedLocaleShown | src/Resources/Pages/TreePage/Concerns/Translatable.php:41-45 | a locale literally in the list is shown |
| TreeLocales.NonNumericLocales | src/Resources/Pages/TreePage/Concerns/Translatable.php:41-45 | for a non-numeric locale code, loose membership is plain membership |
| TreeLocales.SwitcherIffSeveralLocales | src/Resources/Pages/TreePage/Concerns/Translatable.php:53-86 | the switcher appears iff more than one locale exists, once, before the parent's actions in order, defaulting to the active locale or the first |
| TreeLocales.TreePageLocale.GetHeaderActions | src/Resources/Pages/TreePage/Concerns/Translatable.php:53-86 | the page's actions are `HeaderActions` of its state |
| TreeLocales.TreePageLocale.SwitchLocaleAction | src/Resources/Pages/TreePage/Concerns/Translatable.php:78-82 | sets the chosen locale and dispatches `$refresh` once |
| TreeLocales.TreePageLocale.UpdatedActiveLocale | src/Resources/Pages/TreePage/Concerns/Translatable.php:91-95 | dispatches `tree-locale-updated` once |
| TreeLocales.TreePageLocale.SetActiveLocale | src/Resources/Pages/TreePage/Concerns/Translatable.php:100-104 | sets the locale and dispatches `tree-locale-updated` exactly once |

## Left out

- The rendered DOM is modelled on values (a sequence of nested items) rather than as an arena of mutable nodes. The model does not capture element identity or aliasing, or the order of the JS steps within `applyMoveToDOM` (move, then re-stamp); only the resulting tree is stated.
- Drop-indicator drawing, `reinit` and listener registration, the `setTimeout` in the monitor, and `updateButtonStates` are presentation and event plumbing. `needsReinit` is kept as a flag.
- The hitbox library (`attachInstruction`/`extractInstruction`) is an input operation, not modelled.
- `parseInt(dataset.depth) || 0` is modelled as the stored depth. The rendered depth is always an integer, so the NaN fallback is not modelled.
- DragEngine.FilamentTree.constructor: requires a well-formed rendered tree (unique ids, consistent depths and parent attributes), which the server's template produces. That template is not part of this model.
- DragEngine.EndReference: the `'-1'` for an empty tree cannot occur under `OnDropAtEnd`, because the dragged item is always a rendered item. It is stated for the function alone (`EndReferenceEmpty`).
- Livewire transport (`call`, `$refresh`, `dispatch`) is appends to logs. Eloquent queries and `save()` are map operations. A Livewire round trip that re-renders the tree is not modelled.
- InteractsWithTree.TreeComponent.BuildNestedArray: nesting is bounded by a `fuel` parameter, and children below that depth are left empty. For a cyclic parent relation the PHP would recurse without end.
- TextFields.GetFieldState: only the array branch is modelled. The Eloquent-model branch with its translation lookup and the Livewire locale lookup (`getActiveLocale`) are foreign calls.
- TextFields.DataGet: only plain keys are modelled. `data_get`'s dot-path and wildcard syntax is not.
- Strings are byte strings, one `char` per byte. Multibyte characters and `e()`'s escaping are not modelled; `e` is a parameter.
- The `FontWeight` enum's backing values come from Filament, which is not part of this model. They are taken to be the nine lower-case names of the weight table.
- PHP array-key coercion (`"1"` and `1` naming the same entry of a lookup table) is not modelled for the size, colour and weight tables. Their keys are non-numeric, so it does not arise there.
- DragEngine.FilamentTree.constructor: uses the corrected `maxDepth` default (an explicit null means unlimited), not the as-written `??`; see Findings.
- InteractsWithTree.TreeComponent: the component runs the corrected move semantics; see Findings.
- MoveSemantics.StepMovesNode: stated for an integer-keyed table with root value null, positive keys and parent ids, and well-formed moves (parent the root marker or a positive id, position `before`/`after`/`inside`, a reference that binds to `?int`). Other tables, such as ones with a parent id 0 or with text keys, are covered by the per-step lemmas only.
- MoveSemantics.StepKeepsAllDense: the same scope as `StepMovesNode`.
- MoveSemantics.RunKeepsAllDense: the same scope as `StepMovesNode`.
- A missing `nodeId` key is modelled as the outcome `UndefinedKey`, which ends the batch; the earlier moves' saves stay, since `reorderTree` runs no transaction. How Livewire reports the exception to the browser is not modelled.
- The rendered tree holds the children of expanded items only (resources/views/tree-node.blade.php:142), so `getSubtreeDepth` and the `maxDepth` block see rendered descendants only. Combining a collapsed item can therefore nest its stored descendants past `maxDepth`; the server does not check depth. The model's tree is the rendered one and does not hold the collapsed children.
- SiblingOrder.SortedKeys: ties in `order` between text keys are broken by byte order (`StrLess`), which is the database's order under a binary collation only; other collations are not modelled.
- TreeLocales.TreePageLocale.SwitchLocaleAction: the form's validation (`required`, options restricted to the locales) is not modelled; any string is accepted.
- The switcher's labels, icon and the `strtoupper` option captions are presentation.
- `getTranslatableLocales` (read from `config('app.locales')`) is a constructor parameter.
- PhpValues.ToIntParam: only plain decimal integer strings bind to an `int` parameter; every other string is a TypeError. PHP 8 also binds strings with surrounding whitespace and integral float strings such as "1.0". It binds leading-numeric strings such as "9b2f" with a warning, which Laravel raises as an exception; the model treats those as the same error outcome. Decimal strings of any length bind in the model, whereas PHP raises a TypeError for one beyond `PHP_INT_MAX`; ints are unbounded throughout.
- PhpValues.LooseEq: only plain decimal integer strings count as numeric strings; whitespace, float and exponent notation are compared as non-numeric.
- `resolveActions`, `getTreeRecord` and the other Filament action glue of InteractsWithTree.php are framework plumbing and are not modelled.

## Findings

| source | as written | input that shows it | evidently intended | confidence | as-written member | corrected member |
|---|---|---|---|---|---|---|
| src/Concerns/InteractsWithTree.php:145 | only the integer -1 is translated to the root value, but a reorder among root items sends the string "-1" (resources/js/filament-tree.js:255,264) | integer keys, root value null, move `{nodeId: 1, newParentId: "-1", position: "after", referenceId: 2}` for a root node 1: the node is stored under -1, is missing from the root group, and `$item->order` is written on null | "-1" from the client also means the root | not executed | MoveSemantics.RootStringAsWrittenFails | MoveSemantics.RootStringCorrectedCompletes |
| resources/js/filament-tree.js:47 | `options.maxDepth ?? 10` replaces an explicit null by 10, although line 40 documents null as unlimited and line 189 tests for null | `new FilamentTree(cb, {maxDepth: null})` limits nesting to 10 | null means no depth limit | not executed | DragEngine.NullMaxDepthIsTen | DragEngine.MaxDepthCorrected |
| src/Concerns/InteractsWithTree.php:157,190 | `reorderSiblings(?int)` and `reorderSiblingsWithInsert(int, int, string, ?int)` coerce ids to int, so a text (UUID) key is a TypeError | text-keyed table, any move of the record `"b3e1c2f0-7d6a-4f1e-9c3b-2a5d8e4f6a10"`: TypeError where its id is bound to `int $nodeId` | text keys are passed through as strings | not executed | MoveSemantics.TextKeysAsWrittenFail | MoveSemantics.TextKeysCorrectedComplete |
