# Xiaomu editing core: verification project

Xiaomu stores a document as a tree of nodes; inline nodes hold marked text runs
and inline atoms anchored at UTF-8 byte offsets. Transactions edit the tree step
by step, record how positions move and generate their own undo. This project
models that core, the display projection and IME geometry that sit on it, and
the token level of the Markdown codec, and proves what they are for: undo is
exact, mapped positions follow the document, tables have one layout, validation
accepts exactly the trees, and what the writers print the readers read back.

Two abstractions carry most of the proofs. Inline content is flattened to one
sequence of items, bytes with their marks and atoms (`Flat`), so that a caret is
an index, an edit is a splice and mapping is index arithmetic. A run of steps is
a function from one working state to the next (`Apply`), which the class that
updates its store in place (`Engine.ApplyContext`) is proved to compute.

| files | what they model |
|---|---|
| `Text`, `Marks`, `Content` | UTF-8 text, canonical mark sets, normalized runs and placements |
| `InlineEdit`, `Flat`, `InlineLaws` | piece-based editing, the flattened items, edits and maps as one splice |
| `InputMarks`, `InputRules` | mark inheritance at an exact gap, and over stored payloads |
| `Mapping`, `CaretMapping`, `ThereAndBack`, `GapMapping` | position maps, over steps, whole runs and undo |
| `Steps`, `Inverse`, `InlineUndo` | the steps and the inverses of text and mark edits |
| `Structure` | splitting and joining content, attaching and detaching atoms |
| `Nodes`, `Tree`, `WorkingStore` | node validation, the tree invariant, the working store |
| `Apply`, `Searches`, `Engine` | every step as a function, the searches, the class doing it in place |
| `Undo`, `UndoTree`, `UndoAtoms`, `UndoRun`, `TreeSteps`, `History` | undo and redo of steps and runs, steps that keep the tree |
| `StepEffects`, `StepErrors`, `PayloadLaws` | when each step is accepted, what it leaves, which error it reports, what runs keep |
| `Snapshot`, `Grammar`, `Documents` | whole-document validation, the grammar it accepts, validated transactions |
| `Tiling`, `TableGrid`, `TableReading`, `TableQueries` | table occupancy, the filler, the attributes it reads and its queries |
| `TableRestore` | the parent record that guards a table restore |
| `AtomDisplay`, `ImeGeometry`, `LayoutText` | display projection, preedit byte maps, styled layout |
| `MarkdownSyntax`, `MarkdownGrammar`, `MarkdownBlocks` | escapes, link targets and images, their grammar, and the lines that open blocks |
| `MarkdownFence`, `MarkdownFenceRules` | fenced code, and which lines belong to it |
| `MarkdownInline`, `MarkdownScanner` | the inline scanner as a value and as the object that updates itself |
| `MarkdownInlineRules`, `MarkdownUnclosed` | each turn of it over the bytes around, and unclosed delimiters |
| `MarkdownLaws`, `MarkdownRuns`, `MarkdownPrinted`, `MarkdownRoundTrip`, `MarkdownEmphasis`, `MarkdownRunLaws`, `MarkdownCode` | what every scan keeps, what is printed, and which printed runs scan back |
| `Wrappers`, `Numbers` | results, errors, minimum, maximum and difference |

Text is a sequence of bytes; a `Str` is valid UTF-8, and slicing off a character
boundary is a failed precondition, as it is a panic in Rust. Identities are
numbers below 2^64, and every allocation checks that bound.

## Model

| member | source | states |
|---|---|---|
| Marks.NewMarkSet | crates/xiaomu-core/src/document/marks.rs:74-94 | succeeds exactly when no two marks of one kind differ, and then returns the canonical set with the same members |
| Marks.MarkSetExtensional | crates/xiaomu-core/src/document/marks.rs:53-94 | a canonical mark set is determined by its members |
| Content.NormalizeRuns | crates/xiaomu-core/src/document/content.rs:148-166 | merging yields the one canonical run list with the same marked bytes |
| Content.CanonicalRunsUnique | crates/xiaomu-core/src/document/content.rs:148-166 | two canonical run lists with the same marks on every byte are equal |
| Content.ValidateOffset | crates/xiaomu-core/src/document/content.rs:120-145 | the walk over runs gives the verdict of the concatenated text, bounds before boundaries |
| Content.WithAtoms | crates/xiaomu-core/src/document/content.rs:37-59 | fails exactly on a bad anchor or a repeated atom, otherwise normalizes runs and orders placements stably by offset |
| Content.AtomCountAt | crates/xiaomu-core/src/document/content.rs:83-89 | counts the placements anchored at the offset |
| Flat.FlattenInjective | crates/xiaomu-core/src/document/content.rs:27-59 | well-formed contents with the same flattened items are the same content |
| Flat.CaretSplitsItems | crates/xiaomu-core/src/document/content.rs:81-89 | a caret splits the flattened items at its index |
| Flat.CaretOrder | crates/xiaomu-core/src/inline_mapping.rs:22-28 | caret order is index order, and a caret is determined by its index |
| InlineEdit.SplitPieces | crates/xiaomu-core/src/transaction/inline.rs:57-101 | cuts pieces at both ends of the range without changing the marked text |
| InlineEdit.SplicePieces | crates/xiaomu-core/src/transaction/inline.rs:168-225 | the pieces spell the text with the range replaced by the given text and marks |
| InlineEdit.Rebuild | crates/xiaomu-core/src/transaction/inline.rs:104-112 | pieces become the canonical content carrying the same marked text and placements |
| InlineEdit.ReplaceText | crates/xiaomu-core/src/transaction/inline.rs:148-165 | same content or same failure as the splice of the character sequence; no atom may touch the closed range |
| InlineEdit.ChangeMarks | crates/xiaomu-core/src/transaction/inline.rs:232-281 | adding or removing a mark changes the marks of exactly the characters in the range |
| InlineEdit.MapPlacements | crates/xiaomu-core/src/transaction/inline_atom.rs:61-104 | fails exactly when an atom lies inside the replaced region; otherwise moves the placements from the seam on |
| InlineEdit.ReplaceInlineText | crates/xiaomu-core/src/transaction/inline_atom.rs:30-59 | same content or same failure as the splice at the seam |
| InlineLaws.ReplacementIsSplice | crates/xiaomu-core/src/transaction/inline_atom.rs:30-104 | every accepted mixed replacement is one splice of the flattened items |
| InlineLaws.EditAndMapCommute | crates/xiaomu-core/src/inline_mapping.rs:114-182 | on every valid caret and either bias the map equals the index map of that splice and lands on a valid caret |
| InlineLaws.MappingKeepsOrder | crates/xiaomu-core/src/inline_mapping.rs:114-182 | mapping never reorders two carets |
| InlineLaws.AtomsKeepTheirGaps | crates/xiaomu-core/src/inline_mapping.rs:114-182 | each atom keeps its before-gap under End and its after-gap under Start |
| InputMarks.FindInheritedMarks | crates/xiaomu-core/src/document/input_marks.rs:66-138 | the loops over runs and atoms compute the specified inheritance, errors included |
| InputMarks.InheritanceIsNearest | crates/xiaomu-core/src/document/input_marks.rs:66-138 | inheritance is the nearest contributing item to the left, else to the right, else no marks |
| InputMarks.InheritanceWithoutAtoms | crates/xiaomu-core/src/transaction/inverse.rs:71-82 | without atoms it is the rule that replacements use |
| InputRules.TypedTextTakes | crates/xiaomu-core/src/document/input_marks.rs:66-138 | over the stored payloads: typed text takes the marks of the last item before the gap that is text, a hard break or a marked extension atom, else of the first such item after it, else none |
| InputRules.TypedTextFails | crates/xiaomu-core/src/document/input_marks.rs:66-138 | there is no answer exactly off the gaps, with a missing atom before the caret at its boundary, or at the start of the text when a missing atom after it is reached |
| Mapping.MapInlinePointThroughAll | crates/xiaomu-core/src/inline_mapping.rs:206-221 | mapping over a change is the composition of its step maps, stopping at a deletion |
| Inverse.SpansWithin | crates/xiaomu-core/src/transaction/inverse.rs:27-68 | the same-mark stretches of the range, tiling it |
| Inverse.BuildReplaceTextInverse | crates/xiaomu-core/src/transaction/inverse.rs:93-146 | the pushed steps are the replacement back, then strips, then marks span by span |
| Inverse.BuildReplaceInlineTextInverse | crates/xiaomu-core/src/transaction/inverse.rs:156-210 | the same for a replacement at a seam |
| InlineUndo.UndoTextReplace | crates/xiaomu-core/src/transaction/inverse.rs:93-146 | the inverse of an accepted text replacement is accepted and restores the identical runs and placements |
| InlineUndo.UndoInlineReplace | crates/xiaomu-core/src/transaction/inverse.rs:148-210 | so is the inverse of a mixed replacement at any seam ordinal, with the marks inherited after the edit |
| InlineUndo.UndoMarkChange | crates/xiaomu-core/src/transaction/inverse.rs:216-263 | so is the inverse of adding or removing a mark |
| Structure.SplitContent | crates/xiaomu-core/src/transaction/apply/structure.rs:211-249 | the two halves of the content at a gap, or the specified failure |
| Structure.SplitIsCut | crates/xiaomu-core/src/transaction/apply/structure.rs:211-249 | a split cuts the flattened items at the caret's index |
| Structure.SplitMapIsIndex | crates/xiaomu-core/src/inline_mapping.rs:70-98 | a split sends each caret to the half holding it, at its index there |
| Structure.JoinMapIsIndex | crates/xiaomu-core/src/inline_mapping.rs:99-113 | a join puts the second content's carets after the first's items |
| Structure.SplitThenJoinIsIdentity | crates/xiaomu-core/src/inline_mapping.rs:70-113 | mapping over a split and the join undoing it returns every valid caret, for every pair of biases |
| Structure.AtomInsertMapIsIndex | crates/xiaomu-core/src/inline_mapping.rs:28-50 | inserting an atom maps carets as inserting one item |
| Structure.AtomRemoveMapIsIndex | crates/xiaomu-core/src/inline_mapping.rs:51-69 | removing an atom maps carets as removing one item |
| CaretMapping.StepFollows | crates/xiaomu-core/src/mapping.rs:256-360 | every step maps each valid caret to the caret its neighbours moved to, given as node and item index for all seventeen steps, and loses one exactly when it removed its node |
| CaretMapping.TextPointIsFirstCaret | crates/xiaomu-core/src/mapping.rs:256-360 | a text point maps as the caret before the atoms at its byte, except exactly where a replacement past a seam starts there, under End |
| CaretMapping.RunFollows | crates/xiaomu-core/src/inline_mapping.rs:206-221 | the same over any run on trees: lost exactly when a step removes the node the caret has reached |
| CaretMapping.TextRulesAgree | crates/xiaomu-core/src/mapping.rs:524-560 | where no atom is in reach the text rule and the seam rule map a caret alike |
| ThereAndBack.CaretThereAndBack | crates/xiaomu-core/src/inline_mapping.rs:114-182 | over a replacement and the one putting it back a caret returns if and only if its index is outside the replaced stretch |
| ThereAndBack.OutsideReturns | crates/xiaomu-core/src/inline_mapping.rs:114-182 | carets at or before the edited gap return under Start, carets at or after the end boundary under End |
| ThereAndBack.TextMapsThereAndBack | crates/xiaomu-core/src/mapping.rs:524-560 | the same if-and-only-if for the text-only step's maps |
| ThereAndBack.StepThereAndBack | crates/xiaomu-core/src/transaction/inverse.rs:93-210 | an applied text step followed by its whole inverse restores the state, and maps a caret back exactly when it is outside the replaced stretch |
| WorkingStore.NodeStore.ReplaceNodeMut | crates/xiaomu-core/src/document/store.rs:89-98 | replaces a stored payload, fails on a missing identity, changes nothing else |
| WorkingStore.NodeStore.InsertNodeMut | crates/xiaomu-core/src/document/store.rs:100-111 | inserts a payload under a fresh identity, fails on a used one |
| WorkingStore.NodeStore.RemoveNodesMut | crates/xiaomu-core/src/document/store.rs:114-118 | drops the given identities and nothing else |
| WorkingStore.NodeStore.ExchangeMut | crates/xiaomu-core/src/document/store.rs:127-149 | exchanges expected payloads for replacements when the guard holds, and otherwise changes nothing |
| WorkingStore.ExchangeBack | crates/xiaomu-core/src/document/store.rs:127-149 | after an exchange the swapped one passes its guard and restores the store |
| Searches.FindParent | crates/xiaomu-core/src/transaction/apply.rs:408-422 | the breadth-first search finds the one structural parent, or fails when there is none |
| Searches.CollectSubtree | crates/xiaomu-core/src/transaction/apply.rs:424-449 | collects exactly the node and its descendants over child and atom edges |
| Searches.FindInlineAtomParent | crates/xiaomu-core/src/transaction/apply/atom.rs:177-205 | finds the owning node, the placement and its ordinal |
| Engine.ApplyContext.AllocateNode | crates/xiaomu-core/src/transaction/apply.rs:43-57 | stores the node under the next identity and advances it, checked against exhaustion |
| Engine.ApplyContext.ApplyReplaceText | crates/xiaomu-core/src/transaction/apply.rs:214-235 | in place: same maps, inverse, state or failure as the specified step |
| Engine.ApplyContext.ApplyMarkChange | crates/xiaomu-core/src/transaction/apply.rs:237-257 | in place: same maps, inverse, state or failure as the specified step |
| Engine.ApplyContext.ApplyReplaceInlineText | crates/xiaomu-core/src/transaction/apply/atom.rs:22-52 | in place: same maps, inverse, state or failure as the specified step |
| Engine.ApplyContext.ApplySetInlineAtomMarks | crates/xiaomu-core/src/transaction/apply.rs:266-286 | in place: same inverse, state or failure as the specified step |
| Engine.ApplyContext.ApplySetNodeAttrs | crates/xiaomu-core/src/transaction/apply.rs:288-305 | in place: same inverse, state or failure as the specified step |
| Engine.ApplyContext.ApplySetNodeKind | crates/xiaomu-core/src/transaction/apply.rs:307-337 | in place: same inverse, state or failure; only the parent's acceptance of the kind is checked |
| Engine.ApplyContext.ApplyInsertNode | crates/xiaomu-core/src/transaction/apply.rs:339-367 | in place: same maps, inverse, state or failure as the specified step |
| Engine.ApplyContext.ApplyRemoveNode | crates/xiaomu-core/src/transaction/apply.rs:369-406 | in place: removes exactly the subtree and its one reference, recording the payloads |
| Engine.ApplyContext.ApplyRestoreSubtree | crates/xiaomu-core/src/transaction/apply/subtree_restore.rs:13-76 | in place: puts the payloads back and raises the allocator, or fails without effect on the specified checks |
| Engine.ApplyContext.ApplyInsertInlineAtom | crates/xiaomu-core/src/transaction/apply/atom.rs:54-77 | in place: same maps, inverse, state or failure as the specified step |
| Engine.ApplyContext.ApplyRemoveInlineAtom | crates/xiaomu-core/src/transaction/apply/atom.rs:79-117 | in place: same maps, inverse, state or failure as the specified step |
| Engine.ApplyContext.ApplyRestoreInlineAtom | crates/xiaomu-core/src/transaction/apply/atom.rs:119-149 | in place: same maps, inverse, state or failure as the specified step |
| Engine.ApplyContext.SplitInlineNode | crates/xiaomu-core/src/transaction/apply/structure.rs:53-123 | in place: both halves stored as siblings, the tail fresh or the named one returning |
| Engine.ApplyContext.ApplyJoinNodes | crates/xiaomu-core/src/transaction/apply/structure.rs:125-208 | in place: the next sibling's content appended and the sibling gone, its payload recorded |
| Engine.RunSteps | crates/xiaomu-core/src/transaction/apply.rs:463-498 | the step loop computes the specified run, with inverse groups reversed and flattened, and keeps the tree |
| StepEffects.StepAccepted | crates/xiaomu-core/src/transaction/apply.rs:88-205 | any step is accepted if and only if the state meets its condition, said over payloads, gaps and child lists |
| StepEffects.AttrsAreSet | crates/xiaomu-core/src/transaction/apply.rs:288-305 | accepted exactly when the node with the new attributes is valid, and then that node is stored and nothing else changes |
| StepEffects.AtomMarksAreSet | crates/xiaomu-core/src/transaction/apply.rs:266-286 | accepted exactly on stored atoms, and then only their marks change, to the given ones |
| StepEffects.KindIsSet | crates/xiaomu-core/src/transaction/apply.rs:307-337 | accepted exactly below a parent allowing the kind and when valid, and then only the kind changes |
| StepEffects.TextIsReplaced | crates/xiaomu-core/src/transaction/apply.rs:214-235 | accepted exactly on character boundaries with no atom in the closed range, and then the items of the range are replaced by the text with the marks before it |
| StepEffects.InlineTextIsReplaced | crates/xiaomu-core/src/transaction/apply/atom.rs:22-52 | accepted exactly at a gap with nothing but text up to the end, and then the items after the gap are replaced by the text with the inherited marks |
| StepEffects.MarksAreChanged | crates/xiaomu-core/src/transaction/apply.rs:237-257 | accepted exactly on character boundaries, and then exactly the characters of the range gain or lose the mark |
| StepEffects.NodeIsInserted | crates/xiaomu-core/src/transaction/apply.rs:339-367 | the new node has the given payload under the next identity and stands at the index, and nothing else changes |
| StepEffects.NodeIsRemoved | crates/xiaomu-core/src/transaction/apply.rs:369-406 | accepted exactly on children; the one reference goes and everything reachable from the node |
| StepEffects.SubtreeIsRestored | crates/xiaomu-core/src/transaction/apply/subtree_restore.rs:13-76 | accepted exactly on unused, different, nameable identities holding the root; the payloads are stored and the allocator is just past the largest |
| StepEffects.AtomIsInserted | crates/xiaomu-core/src/transaction/apply/atom.rs:54-77 | accepted exactly at gaps; the atom has the given payload and is one more item there |
| StepEffects.AtomIsRestored | crates/xiaomu-core/src/transaction/apply/atom.rs:119-149 | the saved payload returns as one more item at the gap |
| StepEffects.AtomIsRemoved | crates/xiaomu-core/src/transaction/apply/atom.rs:79-117 | accepted exactly on placed atoms; the node and its one item go |
| StepEffects.InlineNodeIsSplit | crates/xiaomu-core/src/transaction/apply/structure.rs:53-123 | the items after the gap go to a next sibling with the node's own kind and attributes under the next identity |
| StepEffects.NodeIsSplit | crates/xiaomu-core/src/transaction/apply/structure.rs:15-32 | the same for content without atoms, which it requires |
| StepEffects.JoinedNodeIsRestored | crates/xiaomu-core/src/transaction/apply/structure.rs:41-123 | accepted exactly when the saved node holds the items after the gap, and then it is the next sibling again |
| StepEffects.NodesAreJoined | crates/xiaomu-core/src/transaction/apply/structure.rs:125-208 | accepted exactly on neighbouring inline siblings; the second's items follow the first's and the second goes |
| StepErrors.StepRefusal | crates/xiaomu-core/src/transaction/apply.rs:88-205 | a refused step reports the error of the first condition it breaks |
| PayloadLaws.StepKeepsPayload | crates/xiaomu-core/src/transaction/apply.rs:88-205 | a node that stays keeps its identity, kind, attributes, fallback and marks, except for what a step naming it sets |
| PayloadLaws.RunKeepsPayload | crates/xiaomu-core/src/transaction/apply.rs:463-498 | over any run on trees a node that stays has the kind, attributes and marks that the last step naming it gave it |
| UndoTree.UndoInsertNode | crates/xiaomu-core/src/transaction/apply.rs:339-367 | undo of an inserted leaf restores store and root exactly |
| UndoTree.UndoRemoveNode | crates/xiaomu-core/src/transaction/apply.rs:369-406 | undo of a removal puts every payload of the subtree back at the recorded index |
| UndoTree.UndoSetKind | crates/xiaomu-core/src/transaction/apply.rs:307-337 | undo of a kind change succeeds if and only if the parent allows the replaced kind |
| UndoAtoms.UndoInsertAtom | crates/xiaomu-core/src/transaction/apply/atom.rs:54-77 | undo of an inserted atom restores the state exactly |
| UndoAtoms.UndoRemoveAtom | crates/xiaomu-core/src/transaction/apply/atom.rs:79-117 | undo of a removed atom restores it at its recorded gap |
| UndoAtoms.UndoSplit | crates/xiaomu-core/src/transaction/apply/structure.rs:53-123 | undo of a split joins the halves back into the same node |
| UndoAtoms.UndoJoin | crates/xiaomu-core/src/transaction/apply/structure.rs:125-208 | undo of a join brings the absorbed node back with its content |
| UndoRun.UndoRestoreSubtree | crates/xiaomu-core/src/transaction/apply/subtree_restore.rs:13-76 | undo of a subtree restore removes exactly what was restored |
| UndoRun.UndoStep | crates/xiaomu-core/src/transaction/step.rs:407-436 | undo of any step succeeds and restores the state if and only if the step is reversible |
| UndoRun.UndoesRun | crates/xiaomu-core/src/transaction/apply.rs:463-498 | replaying the reversed inverse groups of a run restores store and root if and only if every step was reversible |
| UndoRun.RunsKeepIds | crates/xiaomu-core/src/transaction/apply.rs:43-57 | the allocator never goes down and the root stays |
| TreeSteps.StepKeepsTree | crates/xiaomu-core/src/transaction/apply.rs:88-205 | a step leaves a tree if and only if an inserted node refers to nothing and a restored payload is itself a tree |
| TreeSteps.RunKeepsTree | crates/xiaomu-core/src/transaction/apply.rs:463-498 | a run that applies visits trees only if and only if each of its steps is self-contained |
| History.InverseIsSound | crates/xiaomu-core/src/transaction/mod.rs:79-91 | every generated inverse step is well typed and self-contained |
| History.UndoThenRedo | crates/xiaomu-core/src/transaction/mod.rs:79-91 | undo's own inverse is accepted and gives the applied state back |
| History.UndoCanBeRefused | crates/xiaomu-core/src/transaction/apply.rs:307-337 | a concrete run over trees whose inverse is refused |
| Snapshot.ValidateTree | crates/xiaomu-core/src/document/snapshot.rs:200-289 | passes if and only if the store is a tree below a document root, fully reached, with allowed kinds, valid nodes and tables within the caps; always terminates |
| Snapshot.CheckNode | crates/xiaomu-core/src/document/snapshot.rs:200-269 | one node's own checks, charging its table to the shared budget |
| Grammar.ValidNodes | crates/xiaomu-core/src/document/node.rs:66-122 | a node is valid exactly when its content is one its kind holds and its cell, check-box or hard-break attributes are stated; otherwise the first rule broken names the error |
| Grammar.ChildRule | crates/xiaomu-core/src/document/store.rs:273-311 | the parent rule, turned round: where each kind may stand |
| Grammar.DocumentRule | crates/xiaomu-core/src/document/snapshot.rs:200-289 | a store passes if and only if it is reached from a document root by one reference each, every node and edge stands, no cell is empty, tables tile, and the totals stay under the three caps |
| Documents.ParentOfNode | crates/xiaomu-core/src/document/snapshot.rs:130-158 | the one node referring to the identity; none exactly for the root and unknown identities |
| Documents.ApplySteps | crates/xiaomu-core/src/transaction/apply.rs:463-498 | returns the specified run when its result validates, and fails otherwise |
| Documents.TransactionUndo | crates/xiaomu-core/src/transaction/mod.rs:79-91 | an accepted transaction's undo is accepted if and only if each kind change replaced a kind its parent allowed, and then restores store and root exactly with the allocator no lower |
| Documents.TransactionRedo | crates/xiaomu-core/src/transaction/mod.rs:79-91 | redo of the undo is accepted and gives the applied snapshot back |
| Documents.ValidUndoCanBeRefused | crates/xiaomu-core/src/transaction/apply.rs:307-337 | an accepted transaction between valid documents whose undo is refused |
| Tiling.TilingIsUnique | crates/xiaomu-core/src/document/table_grid.rs:258-356 | cells of given spans and rows tile a rectangle in at most one way |
| Tiling.WidthIsForced | crates/xiaomu-core/src/document/table_grid.rs:258-356 | whatever width they tile is the summed width of the first row |
| TableGrid.TableGridBudget.Reserve | crates/xiaomu-core/src/document/table_grid.rs:400-431 | grants a table exactly when the exact totals stay under all three caps; a refusal leaves the totals as they were |
| TableGrid.FromStore | crates/xiaomu-core/src/document/table_grid.rs:258-356 | succeeds if and only if rows and cells are readable, fit the budget and tile a rectangle, and records that tiling |
| TableReading.GeometryRead | crates/xiaomu-core/src/document/table_attrs.rs:66-156 | cell geometry is readable exactly when each span is missing or a positive integer and widths are missing, null or one non-negative integer a column; each span is then its own attribute, one when missing |
| TableReading.GridReadsCells | crates/xiaomu-core/src/document/table_grid.rs:258-382 | a built grid lists the rows' children in reading order, each once, spanning what its raw rowspan and colspan say |
| TableReading.AcceptableMeans | crates/xiaomu-core/src/document/table_grid.rs:258-356 | the acceptance condition over stored rows, raw attributes and the three caps as numbers |
| TableQueries.GridIsTheOnlyTiling | crates/xiaomu-core/src/document/table_grid.rs:258-356 | any tiling by the same cells has the grid's width and columns |
| TableQueries.SlotNamesOwner | crates/xiaomu-core/src/document/table_grid.rs:184-190 | each slot names the one cell covering it |
| TableQueries.CellAt | crates/xiaomu-core/src/document/table_grid.rs:184-190 | the cell at a place, none exactly outside the table |
| TableQueries.OriginsInOrder | crates/xiaomu-core/src/document/table_grid.rs:200-203 | cells are listed by origin, row by row from left to right |
| TableQueries.PlacementBy | crates/xiaomu-core/src/document/table_grid.rs:192-198 | binary search finds every cell of the table and no other |
| TableQueries.MeetingOwns | crates/xiaomu-core/src/document/table_grid.rs:125-136 | two rectangles intersect exactly when they share a place |
| TableQueries.UniqueCellsIn | crates/xiaomu-core/src/document/table_grid.rs:229-241 | exactly the cells owning a place of the rectangle, once each in origin order; an error out of bounds |
| TableQueries.IsClosedRect | crates/xiaomu-core/src/document/table_grid.rs:243-256 | holds exactly when the in-bounds rectangle is a union of whole cells |
| TableQueries.RectBetween | crates/xiaomu-core/src/document/table_grid.rs:214-227 | the least rectangle holding both cells |
| GapMapping.InsertionFollows | crates/xiaomu-core/src/mapping.rs:361-482 | every child keeps its before-gap (End) and after-gap (Start) over an insertion |
| GapMapping.RemovalFollows | crates/xiaomu-core/src/mapping.rs:361-482 | every surviving child keeps its gaps; gaps of removed parents are deleted |
| GapMapping.ReparentFollows | crates/xiaomu-core/src/mapping.rs:361-482 | every other child keeps its gaps, within one parent or between two |
| GapMapping.MergeFollows | crates/xiaomu-core/src/mapping.rs:361-482 | every child keeps its gaps over a cell merge |
| GapMapping.RestoreCellFollows | crates/xiaomu-core/src/mapping.rs:361-482 | a child keeps its gaps over a cell restore if and only if children return, or it is not next to the restored position in the survivor |
| GapMapping.RestoreUndoesMerge | crates/xiaomu-core/src/mapping.rs:361-482 | restoring a merged cell gives the child lists back |
| GapMapping.StepGapsFollow | crates/xiaomu-core/src/mapping.rs:361-482 | over every step of the engine the gaps around a surviving child map to its gaps in the new document |
| TableRestore.ExpectedParents | crates/xiaomu-core/src/transaction/table_restore.rs:38-47 | succeeds exactly on a tree below the table holding the payloads, with the edges of the payloads and their ancestors |
| TableRestore.ExpectedParentsAfterExchange | crates/xiaomu-core/src/transaction/table_restore.rs:49-66 | the same record for the overlaid store |
| TableRestore.RecordedUnique | crates/xiaomu-core/src/transaction/table_restore.rs:68-108 | a tree has one such record |
| TableRestore.PayloadChain | crates/xiaomu-core/src/transaction/table_restore.rs:68-108 | from every recorded payload the edges lead to the table in finitely many steps |
| TableRestore.CaptureIsPredictive | crates/xiaomu-core/src/transaction/table_restore.rs:49-66 | the record captured before an exchange equals the record of the exchanged store |
| AtomDisplay.Build | crates/xiaomu-gpui/src/inline_atom_display.rs:88-164 | a projection with the renderings spliced in at the placements, each the renderer's text or the fallback when that is empty, with the atom's marks; none exactly without inline content or on a misplaced atom |
| AtomDisplay.DisplayOffsetFor | crates/xiaomu-gpui/src/inline_atom_display.rs:195-225 | the prefix-sum formula is the byte offset plus the preceding renderings, defined exactly on valid carets |
| AtomDisplay.DisplayIncreases | crates/xiaomu-gpui/src/inline_atom_display.rs:195-225 | strictly increasing over carets |
| AtomDisplay.PointForBoundary | crates/xiaomu-gpui/src/inline_atom_display.rs:231-275 | defined exactly on character boundaries outside renderings, and then the caret displayed there |
| AtomDisplay.DisplayInjective | crates/xiaomu-gpui/src/inline_atom_display.rs:231-275 | the caret displayed at a byte is the only one |
| AtomDisplay.PointForHit | crates/xiaomu-gpui/src/inline_atom_display.rs:295-316 | inside a rendering the nearer gap, ties going after; elsewhere the boundary's caret |
| ImeGeometry.CompositionLayoutRange | crates/xiaomu-gpui/src/block_view/ime_geometry.rs:62-87 | the displayed range of the composition's base text |
| ImeGeometry.EveryInputIsLaidOut | crates/xiaomu-gpui/src/block_view/ime_geometry.rs:89-136 | every character boundary of the platform text has a place in the layout |
| ImeGeometry.InputByteToLayout | crates/xiaomu-gpui/src/block_view/ime_geometry.rs:89-136 | computes the specified place, preedit and projected text included |
| ImeGeometry.IdleShows | crates/xiaomu-gpui/src/block_view/ime_geometry.rs:121-135 | with no composition: the offset plus the renderings before the focused gap when the focus is at that byte, before the first atom there otherwise, nothing off a boundary |
| ImeGeometry.ComposedRange | crates/xiaomu-gpui/src/block_view/ime_geometry.rs:62-87 | the composed range in display bytes, from the captured gap to the first gap at its end |
| ImeGeometry.ComposedShows | crates/xiaomu-gpui/src/block_view/ime_geometry.rs:97-120 | while composing: text before as shown anyway, the preedit from the captured gap on, text after moved by the difference |
| ImeGeometry.LayoutByteToInput | crates/xiaomu-gpui/src/block_view/ime_geometry.rs:138-170 | undoes the input map on every character boundary of the platform text, composing or not, and gives the offset of the atom hit, or of the caret shown, on every other byte |
| LayoutText.PushStyledText | crates/xiaomu-gpui/src/block_view/display.rs:44-72 | appends exactly the marked characters of the range |
| LayoutText.ProjectAtomDisplay | crates/xiaomu-gpui/src/block_view/display.rs:17-42 | the segments carry the display with each byte's marks, and their text is the display string |
| LayoutText.CharShown | crates/xiaomu-gpui/src/block_view/display.rs:17-42 | each character is shown after the renderings at and before it, with its own marks |
| LayoutText.AtomShown | crates/xiaomu-gpui/src/block_view/display.rs:17-42 | each rendering is shown after the text and renderings before it, with its atom's marks |
| LayoutText.SplicePreedit | crates/xiaomu-gpui/src/block_view/display.rs:74-100 | display prefix, preedit, display suffix, every style kept |
| LayoutText.LayoutAtomSpans | crates/xiaomu-gpui/src/block_view/ime_geometry.rs:179-213 | exactly the chips the composition does not overlap, in order, those after it moved by what it adds, each range still holding its rendered bytes |
| MarkdownSyntax.EscapeInto | crates/xiaomu-codec-markdown/src/escape.rs:47-56 | the escaped text for any of the three escape sets |
| MarkdownSyntax.ReadEscapes | crates/xiaomu-codec-markdown/src/syntax.rs:100-119 | the unescaped text, character by character |
| MarkdownSyntax.UnescapeEscape | crates/xiaomu-codec-markdown/src/escape.rs:47-56 | unescaping an escaped text gives it back |
| MarkdownSyntax.FindUnescaped | crates/xiaomu-codec-markdown/src/syntax.rs:17-31 | the first unescaped needle, none exactly when there is none |
| MarkdownSyntax.ReadTarget | crates/xiaomu-codec-markdown/src/syntax.rs:37-98 | the specified destination, title and consumed length, ending after a closing parenthesis |
| MarkdownSyntax.ReadImage | crates/xiaomu-codec-markdown/src/syntax.rs:4-15 | the specified alt, destination and title of a whole line |
| MarkdownSyntax.TargetRoundTrip | crates/xiaomu-codec-markdown/src/escape.rs:29-45 | a printed target followed by anything reads back, consuming exactly its bytes, if and only if it is wrapped or holds no tab or line feed |
| MarkdownSyntax.ImageRoundTrip | crates/xiaomu-codec-markdown/src/serialize.rs:182-192 | a printed image reads back its alt, destination and title under the same condition |
| MarkdownGrammar.TargetGrammar | crates/xiaomu-codec-markdown/src/syntax.rs:37-98 | a target is read if and only if the text starts with one the grammar spells, and then its unescaped parts and exactly its length |
| MarkdownGrammar.ImageGrammar | crates/xiaomu-codec-markdown/src/syntax.rs:4-15 | a line is read as an image if and only if the grammar spells it whole |
| MarkdownBlocks.EscapedOpens | crates/xiaomu-codec-markdown/src/escape.rs:1-23 | an escaped text line is read as a block if and only if it starts with one to nine digits and a closing parenthesis before a space or the end |
| MarkdownBlocks.EscapedUnderlines | crates/xiaomu-codec-markdown/src/parse.rs:488-490 | below a paragraph's first line an escaped line is refused as an underline if and only if it is three or more equals signs |
| MarkdownScanner.InlineScanner.RunAll | crates/xiaomu-codec-markdown/src/inline.rs:118-163 | the scanning loop computes the specified run, stays on character boundaries and within its segments |
| MarkdownScanner.InlineScanner.ScanCode | crates/xiaomu-codec-markdown/src/inline.rs:165-202 | in place: the specified code span or literal backticks |
| MarkdownScanner.InlineScanner.ScanEmphasis | crates/xiaomu-codec-markdown/src/inline.rs:204-255 | in place: the specified closing, opening or literal delimiter |
| MarkdownScanner.InlineScanner.CloseLink | crates/xiaomu-codec-markdown/src/inline.rs:257-302 | in place: the specified link, literal bracket or error |
| MarkdownScanner.InlineScanner.ScanAutoLink | crates/xiaomu-codec-markdown/src/inline.rs:304-333 | in place: the specified autolink or literal bracket |
| MarkdownScanner.InlineScanner.FinishScan | crates/xiaomu-codec-markdown/src/inline.rs:335-379 | unclosed tokens spliced back in the specified order, then the runs with text and their mark sets |
| MarkdownScanner.ScanText | crates/xiaomu-codec-markdown/src/inline.rs:54-70 | the whole scan |
| MarkdownScanner.StepOnBoundary | crates/xiaomu-codec-markdown/src/inline.rs:118-163 | every step moves from a character boundary to a character boundary |
| MarkdownLaws.StepGrows | crates/xiaomu-codec-markdown/src/inline.rs:118-333 | a step only appends text, segments and marks |
| MarkdownInlineRules.CodeSpanRule | crates/xiaomu-codec-markdown/src/inline.rs:165-202 | backticks close at the first later run of exactly their length, and one space goes from both ends when something else stands between |
| MarkdownInlineRules.CloseRule | crates/xiaomu-codec-markdown/src/inline.rs:204-255 | after a visible byte a delimiter closes the latest open one of its kind and marks what came since |
| MarkdownInlineRules.OpenRule | crates/xiaomu-codec-markdown/src/inline.rs:204-255 | one that closes nothing opens before a visible byte and is text elsewhere |
| MarkdownInlineRules.LinkRule | crates/xiaomu-codec-markdown/src/inline.rs:257-302 | a bracket before a readable target links the text since the innermost open bracket, and is refused when there is none |
| MarkdownInlineRules.AutoLinkRule | crates/xiaomu-codec-markdown/src/inline.rs:304-333 | an angle bracket up to the first closing one is a link exactly when a scheme stands before a colon inside |
| MarkdownUnclosed.FinishMeans | crates/xiaomu-codec-markdown/src/inline.rs:335-380 | the finished runs are the segments with their unclosed delimiters in front, the later ones first |
| MarkdownUnclosed.UnclosedComeBackTurned | crates/xiaomu-codec-markdown/src/inline.rs:335-380 | opening delimiters that are never closed come back before the text in the opposite order |
| MarkdownUnclosed.TurnedIsSame | crates/xiaomu-codec-markdown/src/inline.rs:335-380 | that is the written order if and only if there is one, or a bold one before an italic one |
| MarkdownRoundTrip.EscapedTextRoundTrip | crates/xiaomu-codec-markdown/src/escape.rs:14-23 | an escaped text scans to itself, unmarked, within one unit of work a byte |
| MarkdownRuns.LongestBacktickRun | crates/xiaomu-codec-markdown/src/escape.rs:69-81 | the counting loop computes the specified longest run |
| MarkdownRuns.LongestIsLongest | crates/xiaomu-codec-markdown/src/escape.rs:58-67 | no run of backticks in the text is longer |
| MarkdownPrinted.FencesAreShortest | crates/xiaomu-codec-markdown/src/escape.rs:58-81 | a fence is the shortest run of two backticks for code, three for blocks, or more that the text does not hold |
| MarkdownPrinted.PaddedWhenNeeded | crates/xiaomu-codec-markdown/src/serialize.rs:409-467 | code is padded exactly when a backtick would touch its fence or the reader would take spaces away |
| MarkdownPrinted.RefusedRuns | crates/xiaomu-codec-markdown/src/serialize.rs:409-467 | the runs refused are underlined ones, text styles, and code with a line feed or marks other than a link |
| MarkdownCode.RunRoundTrip | crates/xiaomu-codec-markdown/src/serialize.rs:409-467 | a printed run, with its marks and link, scans back to the same text and marks if and only if it survives; the budget stops none while a bound computed from its printed length is left |
| MarkdownFence.StripIndent | crates/xiaomu-codec-markdown/src/parse.rs:575-591 | drops leading blanks until the given columns are used up, a tab counting four |
| MarkdownFence.ReadFence | crates/xiaomu-codec-markdown/src/parse.rs:177-224 | the specified language, body and position after the closing fence, or the error |
| MarkdownFenceRules.LinesOfSource | crates/xiaomu-codec-markdown/src/parse.rs:47-56 | the lines of a source are those it terminates and what is left, if anything, each without its carriage return |
| MarkdownFenceRules.FenceRule | crates/xiaomu-codec-markdown/src/parse.rs:177-224 | a fence is read if and only if its info is one word and a later line closes it within the work; otherwise the error says which failed |
| MarkdownFenceRules.FenceRead | crates/xiaomu-codec-markdown/src/parse.rs:177-224 | its body is the stripped lines before the first closing one |
| MarkdownFenceRules.InfoRule | crates/xiaomu-codec-markdown/src/parse.rs:181-183 | good info is text without backticks and without white-space characters, by code point |
| MarkdownFenceRules.StripsColumns | crates/xiaomu-codec-markdown/src/parse.rs:575-591 | what is stripped is the least stretch of leading blanks that uses up the columns |
| MarkdownFence.TicksInLines | crates/xiaomu-codec-markdown/src/escape.rs:64-81 | a line of backticks is never longer than the body's longest run, so none closes the fence |
| MarkdownFence.FenceRoundTrip | crates/xiaomu-codec-markdown/src/serialize.rs:229-245 | a printed block followed by anything reads back and nothing more is consumed, if and only if its language is one word and its body is whole lines |

## Findings

Properties the code does not have on all inputs. Each has a condition proved
to be exact and, where the condition is about a whole run, a concrete input.

- Undo can be refused. `SetNodeKind` checks the parent but not the children, so
  a later kind change may be undone into a kind its parent refuses:
  `Documents.ValidUndoCanBeRefused` inserts a list item below the document and
  turns it into a quote. `Documents.TransactionUndo` proves that undo is
  accepted if and only if every kind change replaced a kind its parent allowed.
- Carets inside a replaced stretch do not come back from undo:
  `ThereAndBack.StepThereAndBack` says exactly which do. At the end of a deleted
  stretch the Start reading is lost as well, at its beginning the End reading.
- A cell restore that moves no child claims the gaps next to its position in the
  surviving cell: `GapMapping.RestoreCellFollows`.
- A bare link or image destination holding a tab or a line feed is read only up
  to it: `MarkdownSyntax.TargetRoundTrip`, `MarkdownSyntax.ImageRoundTrip`.
- An emphasised run that starts or ends with white space does not scan back to
  itself, and neither does one whose link destination is unreadable:
  `MarkdownCode.RunRoundTrip`. The writer catches both by scanning its output.
- Escaping does not keep every line from being read as structure: `1) x` comes
  back as an ordered list and a second line `===` is refused. The exact lines are
  in `MarkdownBlocks.EscapedOpens` and `MarkdownBlocks.EscapedUnderlines`;
  `MarkdownBlocks.EscapedListStaysList` is an input.
- Delimiters that are never closed do not come back in their order: `~~**a` scans
  to `**~~a`. `MarkdownUnclosed.UnclosedComeBackTurned` and
  `MarkdownUnclosed.TurnedIsSame` say when they do.
- A text point and the caret before the atoms at its byte map apart where a
  replacement past a seam starts at that byte: `CaretMapping.TextPointIsFirstCaret`.
- A fenced body comes back with a final line feed added and with each carriage
  return before a line feed removed: `MarkdownFence.FenceRoundTrip`.

## Left out

- Revision counters, lineage and `Arc` sharing: values with equality replace them.
- Failures to allocate memory: collections are mathematical values.
- Table axis, rectangle, span and tree steps, document replacement and forests: `Apply` covers the seventeen text, mark, payload, atom, leaf, subtree, split and join steps.
- Selection mapping and cursor affinity: affinity is carried unchanged.
- Link marks beyond destination and title, text styles, attribute values and renderer output: opaque values with equality, or parameters.
- Error payloads and messages: errors are categories, told apart for steps and nodes (`StepErrors.StepRefusal`, `Grammar.ValidNodes`); a table's or a whole document's refusal is not told apart by cause (`TableGrid.FromStore`, `Snapshot.ValidateTree`, `Documents.ApplySteps`).
- Searches on stores that are not trees: `find_parent` need not terminate there, so `Searches.FindParent` asks for a tree, which `TreeSteps.RunKeepsTree` gives for every run of self-contained steps.
- Steps that leave a state that is not a tree: the run laws cover runs of self-contained steps, and `TreeSteps.StepKeepsTree` shows that exactly the others leave the trees.
- Unstable sorts and `Ordering` details: sorts are stable insertion sorts with the same keys.
- Three branches of `validate_tree` that the checks before them rule out: asserted to be unreachable.
- `TableRestore.CaptureIsPredictive`: assumes that the exchanged store is a tree below the table, as the guard it serves does.
- Indentation of nested Markdown blocks, lists, quotes, headings and paragraphs; a whole document's Markdown is not round-tripped.
- `MarkdownCode.RunRoundTrip`: one run at a time; delimiters of neighbouring runs can meet, which the writer checks by scanning its own output.
- `MarkdownFence.ReadFence`: the reader's node insertion and its node budget.
- Painting, shaping, fonts, focus, sessions, clipboard formats, persistence and command routing.
