# Teaching-assistant application portal — a Dafny model

The portal lists teaching-assistant positions and lets a student apply to
them. A position may list categories (catedra, corrector, laboratorio), and
the student is meant to hold at most one pending application per category
(the form's checks as written let a category be applied twice; see
"Findings"). The student ranks
the pending applications with priorities 1, 2, 3 … and changes the ranking by
dragging a card or pressing its up and down arrows. A cancelled application
stays in the list but leaves the ranking.

The model covers five parts of the program:

- **The application store** (`Ranking.dfy`, module `Ranking`) is the
  applications context. `ApplicationStore` is a class whose `applications`
  sequence is replaced by `Add`, `Cancel`, `Reorder`, `MoveUp` and
  `MoveDown`. Each method is proved equal to a function of the old list, and
  the ranking facts are proved about those functions:
  - a new application gets the next priority;
  - cancelling takes a record out of the ranking;
  - a reorder ranks the given list 1..N and keeps the cancelled records;
  - a move swaps a record with its neighbour in the ranking.
  The store's invariant is that pending priorities are positive and pairwise
  different. Every operation keeps it. The stronger "priorities are exactly
  1..N" is kept by an add. It is established by a reorder whose list holds
  only pending records, and by a move that takes effect. A cancel leaves gaps,
  as it does in the program, and a move that does not apply (the first card
  up, the last card down, an unknown id) leaves those gaps in place. Add,
  cancel and the moves also keep the ids of the pending records unique, as
  does a drag in the applications view. The queries `getAppliedCategories`
  and `hasAppliedToPosition` are functions.
- **The applications view** (`MyApplications.dfy`) covers the ranked list,
  the drag handlers and the up/down controls. `MyApplicationsView` holds the
  dragged index. Its drag-over handler splices the shown list and hands it to
  the store's reorder.
- **The application form** (`ApplicationModal.dfy`) covers the categories
  still available, the submission checks in their order, and the form state
  (`ApplicationForm`), which is reset after a successful submission.
- **The position card** (`PositionCard.dfy`) covers "fully applied", whether
  the apply button is enabled, and its label.
- **The catalog page** (`PositionsPage.dfy`) covers the sorted, de-duplicated
  department list and the four-way filter.

Shared files:

- `Types.dfy` holds the entities of `src/types/position.ts`.
- `Text.dfy` holds the JavaScript string operations the program relies on:
  `trim`, `toLowerCase`, `includes`, the default string `sort` and
  `Array.from(new Set(...))`.
- `Sequences.dfy` holds subsequence and duplicate-freedom facts.

Two values come from outside the program logic, so they are parameters:

- the application id, which the program draws from `Math.random`;
- the submission time, which it reads from `new Date()`.

The catalog of positions is an arbitrary input sequence.

## Model

| member | source | states |
|---|---|---|
| PositionTypes.CategoryName | src/types/position.ts:1 | each category's string is non-empty and differs from the filter value "all" |
| Text.Trim | src/components/ApplicationModal.tsx:48 | the result is the slice of the input that remains once only whitespace before and after it is removed; it has no whitespace at either end; it is empty exactly when the input is all whitespace |
| Text.ToLower | src/pages/Positions.tsx:37 | same length; each character is lower-cased (ASCII letters) and nothing else changes |
| Text.Includes | src/pages/Positions.tsx:37-38 | true exactly when the needle occurs at some index of the haystack |
| Text.IncludesEmpty | src/pages/Positions.tsx:36-38 | the empty search term occurs in every string |
| Text.SortByCode | src/pages/Positions.tsx:29 | the result is sorted by character code and is a permutation of the input |
| Text.Distinct | src/pages/Positions.tsx:28 | no duplicates, the same members, and an order-preserving subsequence of the input |
| Text.FirstIndex | src/pages/Positions.tsx:28 | an index holding the value, with no earlier occurrence |
| Text.DistinctFirstOccurrenceOrder | src/pages/Positions.tsx:28 | the values are listed in the order of their first occurrences in the input, as a `Set` iterates them |
| Ranking.WithStatus | src/contexts/ApplicationContext.tsx:22 | keeps exactly the records with the given status |
| Ranking.WithStatusSubsequence | src/contexts/ApplicationContext.tsx:22 | the kept records appear in their list order |
| Ranking.StatusPartition | src/contexts/ApplicationContext.tsx:71-72 | the pending and the cancelled records together are all the records |
| Ranking.SortByPriority | src/contexts/ApplicationContext.tsx:78 | the result is sorted by ascending priority and is a permutation of the input |
| Ranking.SortSortedIsIdentity | src/contexts/ApplicationContext.tsx:78 | sorting a list already in priority order returns it unchanged |
| Ranking.Ranked | src/components/MyApplications.tsx:14-16 | the shown list holds exactly the pending records, as a permutation, in ascending priority |
| Ranking.MaxPriority | src/contexts/ApplicationContext.tsx:24 | the maximum priority is attained by a record and bounds every record |
| Ranking.NextPriority | src/contexts/ApplicationContext.tsx:22-25 | 1 when nothing is pending; otherwise one more than a pending priority and above every pending priority |
| Ranking.NewApplication | src/contexts/ApplicationContext.tsx:27-33 | the new record is pending, carries the given id, submission time and priority, and copies the draft's position id, title, department, category, section and reason |
| Ranking.ContiguousNextPriority | src/contexts/ApplicationContext.tsx:22-25 | when the ranks are 1..N the next priority is N+1 |
| Ranking.AddKeepsContiguous | src/contexts/ApplicationContext.tsx:20-37 | adding to ranks 1..N gives ranks 1..N+1 |
| Ranking.AddKeepsDistinctRanks | src/contexts/ApplicationContext.tsx:20-37 | adding keeps pending priorities positive and pairwise different |
| Ranking.AddKeepsCallOrder | src/contexts/ApplicationContext.tsx:20-37 | without cancellations, the pending records in list order carry ranks 1..N, and adding keeps that |
| Ranking.ApplicationStore.constructor | src/contexts/ApplicationContext.tsx:18 | the store starts empty and valid |
| Ranking.ApplicationStore.Add | src/contexts/ApplicationContext.tsx:20-37 | appends one pending record with the next priority; earlier records are unchanged and in place; the invariant is kept |
| Ranking.CancelMatching | src/contexts/ApplicationContext.tsx:39-43 | same length; records with the id become cancelled with every other field kept; other records are unchanged |
| Ranking.CancelUnknownIsNoOp | src/contexts/ApplicationContext.tsx:41 | cancelling an unknown id leaves the list unchanged |
| Ranking.CancelPending | src/contexts/ApplicationContext.tsx:39-43 | after a cancel, the pending records are the old pending records without the cancelled id, in order |
| Ranking.CancelRemovesFromRanking | src/contexts/ApplicationContext.tsx:39-43 | no record with the cancelled id remains in the ranking |
| Ranking.CancelKeepsDistinctRanks | src/contexts/ApplicationContext.tsx:39-43 | cancelling keeps pending priorities positive and pairwise different |
| Ranking.ApplicationStore.Cancel | src/contexts/ApplicationContext.tsx:39-43 | marks exactly the records with the id as cancelled and keeps the invariant and unique pending ids |
| Ranking.ActiveFor | src/contexts/ApplicationContext.tsx:53-55 | exactly the pending records for the position |
| Ranking.ActiveForSubsequence | src/contexts/ApplicationContext.tsx:53-55 | the pending records for the position appear in their list order |
| Ranking.AppliedCategories | src/contexts/ApplicationContext.tsx:45-50 | a category is listed exactly when a pending record for the position has it; records without a category add nothing |
| Ranking.HasAppliedToPosition | src/contexts/ApplicationContext.tsx:52-62 | with a non-empty category, true exactly when a pending record for the position has that category; otherwise true exactly when any pending record for the position exists |
| Ranking.Renumber | src/contexts/ApplicationContext.tsx:65-68 | the record at index i gets priority i+1; nothing else changes |
| Ranking.Reordered | src/contexts/ApplicationContext.tsx:64-74 | the given list renumbered from 1, followed by exactly the previously cancelled records in their old order |
| Ranking.RenumberedPendingRanking | src/contexts/ApplicationContext.tsx:64-74 | a renumbered pending list followed by cancelled records is its own ranking, with ranks 1..N |
| Ranking.ReorderRanksInGivenOrder | src/contexts/ApplicationContext.tsx:64-74 | after a reorder of pending records the ranking is the given order with priorities 1..N, and the cancelled records are kept |
| Ranking.ReorderDropsUnlisted | src/contexts/ApplicationContext.tsx:64-74 | every pending record after a reorder comes from the given list; pending records not listed are dropped |
| Ranking.ReorderKeepsDistinctRanks | src/contexts/ApplicationContext.tsx:64-74 | after any reorder, pending priorities are positive and pairwise different |
| Ranking.ApplicationStore.Reorder | src/contexts/ApplicationContext.tsx:64-74 | the new list is the reordered list and the invariant holds |
| Ranking.IndexOfId | src/contexts/ApplicationContext.tsx:79 | the first index holding the id, or -1 when no record has it |
| Ranking.FindIndex | src/contexts/ApplicationContext.tsx:79 | the scan returns the first index holding the id, or -1 |
| Ranking.SwapAdjacent | src/contexts/ApplicationContext.tsx:84-85 | the two slots are exchanged, the rest is unchanged, and the result is a permutation |
| Ranking.SwapOnCopy | src/contexts/ApplicationContext.tsx:83-85 | swapping two slots of a copied array gives the adjacent swap |
| Ranking.MoveUpNoOp | src/contexts/ApplicationContext.tsx:79-81 | moving up an id that is not pending changes nothing |
| Ranking.MoveDownNoOp | src/contexts/ApplicationContext.tsx:100-102 | moving down an id that is not pending changes nothing |
| Ranking.MoveUpSwapsWithPredecessor | src/contexts/ApplicationContext.tsx:76-95 | the target trades places with the record ranked just above it, ranks become 1..N, and the cancelled records are kept |
| Ranking.MoveDownSwapsWithSuccessor | src/contexts/ApplicationContext.tsx:97-116 | the target trades places with the record ranked just below it, ranks become 1..N, and the cancelled records are kept |
| Ranking.MoveUpKeepsDistinctRanks | src/contexts/ApplicationContext.tsx:76-95 | moving up keeps pending priorities positive and pairwise different |
| Ranking.MoveDownKeepsDistinctRanks | src/contexts/ApplicationContext.tsx:97-116 | moving down keeps pending priorities positive and pairwise different |
| Ranking.ApplicationStore.MoveUp | src/contexts/ApplicationContext.tsx:76-95 | the new list is the moved-up list; the invariant and unique pending ids are kept |
| Ranking.ApplicationStore.MoveDown | src/contexts/ApplicationContext.tsx:97-116 | the new list is the moved-down list; the invariant and unique pending ids are kept |
| Ranking.UniqueIdsSubsequence | src/contexts/ApplicationContext.tsx:39-43 | deleting records from a list with unique ids keeps them unique |
| Ranking.UniqueIdsPermutation | src/contexts/ApplicationContext.tsx:64-74 | reordering a list with unique ids keeps them unique |
| Ranking.UniqueIdsRenumber | src/contexts/ApplicationContext.tsx:65-68 | renumbering keeps every id in its place, so unique ids stay unique |
| Ranking.UniquePendingInListOrder | src/components/MyApplications.tsx:14-16 | the ranking has unique ids exactly when the pending records in list order do |
| Ranking.UniqueIdsAppend | src/contexts/ApplicationContext.tsx:35 | appending a record whose id is new keeps the ids unique |
| Ranking.PermutedRankingKeepsUniqueIds | src/contexts/ApplicationContext.tsx:64-74 | storing a renumbered permutation of the ranking followed by the cancelled records keeps the pending ids unique |
| Ranking.AddKeepsUniqueIds | src/contexts/ApplicationContext.tsx:27-36 | adding under an id no record uses keeps the pending ids unique |
| Ranking.CancelKeepsUniqueIds | src/contexts/ApplicationContext.tsx:39-43 | cancelling keeps the pending ids unique |
| Ranking.MoveUpKeepsUniqueIds | src/contexts/ApplicationContext.tsx:76-95 | moving up keeps the pending ids unique |
| Ranking.MoveDownKeepsUniqueIds | src/contexts/ApplicationContext.tsx:97-116 | moving down keeps the pending ids unique |
| MyApplications.Splice | src/components/MyApplications.tsx:35-36 | the prefix before the start is kept, the items are inserted there, and the rest follows |
| MyApplications.DragOrderSpec | src/components/MyApplications.tsx:32-38 | the list given to the reorder is a permutation of the shown list; the dragged card lands at the target index and the other cards keep their relative order |
| MyApplications.UpControlMatchesMoveUp | src/components/MyApplications.tsx:90 | the up control is disabled exactly when moving that card up would change nothing |
| MyApplications.DownControlMatchesMoveDown | src/components/MyApplications.tsx:100 | the down control is disabled exactly when moving that card down would change nothing |
| MyApplications.DragRanksAsShown | src/components/MyApplications.tsx:27-40 | after a drag the ranking is the dragged order numbered 1..N, with the dragged card at rank target+1 and cancelled records kept |
| MyApplications.DragKeepsUniqueIds | src/components/MyApplications.tsx:27-40 | a drag keeps the pending ids unique, which the up and down control lemmas assume |
| MyApplications.MyApplicationsView.constructor | src/components/MyApplications.tsx:12 | no drag in progress |
| MyApplications.MyApplicationsView.HandleDragStart | src/components/MyApplications.tsx:23-25 | the dragged index becomes the card's index |
| MyApplications.MyApplicationsView.HandleDragEnd | src/components/MyApplications.tsx:42-44 | the drag ends |
| MyApplications.MyApplicationsView.HandleDragOver | src/components/MyApplications.tsx:27-40 | nothing changes without a drag or over the dragged card itself; otherwise the store is reordered to the drag order, the dragged index becomes the target, and the store invariant and unique pending ids are kept |
| ApplicationModal.Unapplied | src/components/ApplicationModal.tsx:40 | exactly the categories not yet applied, in the position's order |
| ApplicationModal.AvailableCategories | src/components/ApplicationModal.tsx:37-41 | empty without a position or categories; otherwise the position's categories minus the applied ones, order preserved |
| ApplicationModal.SubmitCheck | src/components/ApplicationModal.tsx:46-70 | each rejection happens exactly when its condition holds after the earlier checks pass; otherwise the draft carries the trimmed reason, the section and the selected category |
| ApplicationModal.StaleCategoryResubmitted | src/components/ApplicationModal.tsx:53-61 | an already-applied category left selected in the form passes every check |
| ApplicationModal.GuardedSubmitCheck | src/components/ApplicationModal.tsx:43-77 | rejections of the original checks are unchanged; a submission they accept is rejected exactly when the position has categories and the selected one is not offered; otherwise it is accepted with the original draft, its category dropped for a position without categories; a success carries a non-empty trimmed reason |
| ApplicationModal.GuardedSubmitKeepsConsistent | src/components/ApplicationModal.tsx:58-70 | with the guarded checks, submitting never applies a category twice and never applies one the position lacks |
| ApplicationModal.AppliedCategoriesAppend | src/contexts/ApplicationContext.tsx:45-50 | appending a record extends the applied categories by its category exactly when it is pending, for the position and has one |
| ApplicationModal.ApplicationForm.constructor | src/components/ApplicationModal.tsx:30-32 | the form starts with an empty reason, no category and section 200 |
| ApplicationModal.ApplicationForm.HandleSubmit | src/components/ApplicationModal.tsx:43-77 | returns the guarded check's outcome; on success the store receives the draft with the next priority and the form is reset; on a rejection nothing changes; the store invariant is kept |
| PositionCard.ClosedNeverApplicable | src/components/PositionCard.tsx:14-23 | a closed position can never be applied to and its button reads "No Disponible" |
| PositionCard.LabelMatchesButton | src/components/PositionCard.tsx:70-74 | the button is enabled exactly when it reads "Postular"; an open position that cannot be applied to reads "Ya Postulado" |
| PositionCard.FullyAppliedWithoutCategories | src/components/PositionCard.tsx:19-21 | without categories, fully applied exactly when a pending application to the position exists |
| PositionCard.FullyAppliedIffNoneAvailable | src/components/PositionCard.tsx:16-21 | with consistent applied categories, the card is fully applied exactly when the form offers no category |
| PositionCard.StaleCategoryMarksFullyApplied | src/components/PositionCard.tsx:19-20 | a category applied twice makes the card read "Ya Postulado" although another category was never applied |
| PositionsPage.DepartmentsOf | src/pages/Positions.tsx:28 | the department of each catalog position, in order |
| PositionsPage.Departments | src/pages/Positions.tsx:27-30 | sorted by character code, no duplicates, and exactly the departments of the catalog |
| PositionsPage.FilteredPositions | src/pages/Positions.tsx:34-51 | an order-preserving subsequence of the catalog holding exactly the positions that pass all four filters |
| PositionsPage.CategoryOptionSelects | src/pages/Positions.tsx:32-46 | every category is an option of the category filter, and choosing it keeps exactly the positions listing that category |
| PositionsPage.SearchIgnoresCase | src/pages/Positions.tsx:36-38 | the search gives the same answer for a term and its lower-cased form |
| PositionsPage.NoFiltersKeepsAll | src/pages/Positions.tsx:34-51 | with an empty term and every filter on "all", the whole catalog is shown |
| PositionsPage.KeptPositionsMatchSelections | src/pages/Positions.tsx:40-47 | a kept position has the selected department, status and category whenever that filter is not "all"; positions without categories fail a specific category filter |
| PositionsPage.FilterIdempotent | src/pages/Positions.tsx:34-51 | filtering the shown positions again with the same filters changes nothing |
| PositionsPage.DepartmentOptionShowsPositions | src/pages/Positions.tsx:27-51 | choosing any offered department shows at least one position, and only positions of that department |

## Left out

- JSX rendering, dialogs, tabs, badges and icons are left out. They are presentation only.
- Toast notifications and `date-fns` formatting are left out. They are foreign side effects.
- `e.preventDefault()` is left out.
- The Landing page is left out.
- React context plumbing is left out: `createContext`/`useContext` and the error thrown by `useApplications` outside a provider. `useState`/`useMemo` caching is left out too.
- The selection of the position shown in the dialog is UI state and is not part of this model. This is `handleApply` and `onClose` in `src/pages/Positions.tsx`.
- `handleCancel` in `src/components/MyApplications.tsx` only forwards to the store's cancel (modelled as `Ranking.ApplicationStore.Cancel`) and shows a toast.
- The mock catalog `@/data/positions` is not part of this model. Every catalog operation takes the catalog as an arbitrary sequence of positions.
- Ranking.ApplicationStore.Add: the id and the timestamp are parameters, because the program draws them from `Math.random` and `new Date()`. The method requires the id to be unused, whereas the program only makes clashes unlikely.
- Ranking.ApplicationStore.Add: unlike the other store methods, its contract does not state that the pending ids stay unique. `Ranking.AddKeepsUniqueIds` proves this about the list `Add` stores. Stating it on the method as well makes the form's submit, which calls `Add`, too costly to verify.
- Ranking.SortByPriority: it places records of equal priority in input order, as the stable JavaScript sort does. The contract states sortedness and permutation but not that stability.
- Ranking.ApplicationStore.Valid: the invariant is "positive, pairwise different pending priorities", not "exactly 1..N", because cancelling leaves gaps in the program too.
- MyApplications.MyApplicationsView.HandleDragOver: the contract requires both indices to be indices of shown cards. `splice` with out-of-range indices is not modelled.
- Text.ToLower: it lower-cases ASCII letters only. `toLowerCase` also maps other Unicode letters.
- Text.SortByCode: it compares Dafny characters, which are Unicode scalar values. JavaScript compares UTF-16 code units, and the two orders differ for characters outside the Basic Multilingual Plane.
- PositionCard.IsFullyApplied, PositionCard.CanApply and PositionCard.ButtonLabel: these are defined directly as the card's expressions. Their meaning is stated by the lemmas of the card module rather than by their own contracts.
- Setting the reason, category and section fields of the form from the dialog's inputs is UI wiring. The fields are assigned directly.

## Findings

| source | as written | input that shows it | evidently intended | confidence | as-written member | corrected member |
|---|---|---|---|---|---|---|
| src/components/ApplicationModal.tsx:53-70 | The selected category is only checked for presence. The form stays mounted while the dialog is closed, so the category chosen for one position stays selected when another position is opened. The checks then accept a category that was already applied, or one the position does not list. | Position p1 lists catedra and corrector, and catedra is pending for p1. The form still holds catedra from an earlier dialog, and the reason is "y". The submission passes, catedra is applied twice, and the card shows "Ya Postulado" although corrector was never applied. | Only a category the form offers can be submitted, and a position without categories receives none. This matches the "Ya has postulado a todas las categorías disponibles" check. | medium, not executed | ApplicationModal.SubmitCheck with ApplicationModal.StaleCategoryResubmitted and PositionCard.StaleCategoryMarksFullyApplied | ApplicationModal.GuardedSubmitCheck with ApplicationModal.GuardedSubmitKeepsConsistent, used by ApplicationModal.ApplicationForm.HandleSubmit |
