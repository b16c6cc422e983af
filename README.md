# Pane layout engine of the form builder

This project models the layout logic of a drag-and-drop form builder in
Dafny and proves properties of it. A form is a list of components. Each
component has a global `position`, an optional `paneId` and an optional
`panePosition` (its slot). A pane is not stored anywhere: it is the set of
components that share a `paneId`. A component of type `"placeholder"` marks a
pane that was created empty on purpose.

The model covers five parts of the system:

- **Drop planner** (`handleDragEnd` in `src/app/page.tsx`). It takes a
  snapshot of the components and a drop, and either aborts or produces a
  batch of `{id, position, paneId, panePosition}` updates. There are three
  branches:
  - a same-pane reorder;
  - a swap into a pane that already holds two other real members;
  - an insert into a pane with fewer, which also drops the destination's
    placeholder from the batch and renumbers what is left of the source pane.

  `DropPlanner.Plan` states this as a function. `DropPlanner.HandleDragEnd`
  is the procedure over an array copy, and it is proved to compute `Plan`.
- **The page's pane list** (`src/app/page.tsx:218-227`), in module `PagePanes`.
- **The editor's group list** (`src/components/ComponentList.tsx`). It is
  modelled as a `PaneGroupMap` class, standing for the JavaScript `Map`, which
  is filled by the two walks and the sorting walk of the source. The group
  ordering and the two drawn cells of a group are modelled too.
- **The form preview's pane ordering and layout rule**
  (`src/components/FormRenderer.tsx`).
- **The component store** (the `component` router in
  `src/server/api/routers/component.ts`). It is modelled as a
  `ComponentStore` class with listing, create, reorder, delete, the
  "one empty group" creation and placeholder delete.

The lemmas in `StoreProofs` connect the planner and the store. A persisted
drop, replayed on the store it was planned from, succeeds. It leaves every
row as the planner's working copy has it. The destination's placeholder row
stays stored and unchanged.

Shared conventions:
- JavaScript's `Array.prototype.sort` is stable, so it is modelled as a stable
  insertion sort (`Sorting.SortBy`).
- `panePosition || 0` is `Layout.Slot`.
- `Math.min` of no arguments is `Infinity`. It is modelled as `None` in
  `Layout.MinPosition`.
- A comparator that returns `Infinity - Infinity` (NaN) is treated by the sort
  as 0. So the editor's comparator and the preview's explicit empty-pane
  cases are the same relation, `Layout.PaneLe`.

Two behaviours of the code are worth stating on their own:
- **Placeholder after a drop.** A drop into a pane never deletes that pane's
  placeholder row. The planner only leaves it out of the batch, and `reorder`
  never deletes a row (`StoreProofs.DropKeepsPlaceholderRow`).
- **Reorder is not atomic.** `reorder` runs one `update` per entry and stops
  at the first missing id. The earlier updates stay applied
  (`StoreProofs.ReplayStopsAtMissing`).

## Model

| member | source | states |
|---|---|---|
| DropPlanner.Plan | src/app/page.tsx:77-201 | Nothing is persisted when the drop has no destination, the list is not loaded yet, the drop lands where it started, or the dragged id is not in the snapshot |
| DropPlanner.HandleDragEnd | src/app/page.tsx:77-201 | The array procedure computes exactly `Plan` |
| DropPlanner.RearrangeCopy | src/app/page.tsx:88-186 | Copying the snapshot into an array and running the selected branch yields `Rearrange` |
| DropPlanner.MoveWithinPaneInPlace | src/app/page.tsx:107-121 | The in-place same-pane branch computes `MoveWithinPane` of the old array contents |
| DropPlanner.SwapInPlace | src/app/page.tsx:126-149 | The in-place swap branch computes `SwapInto` of the old array contents |
| DropPlanner.InsertInPlace | src/app/page.tsx:150-184 | The in-place insert branch computes `InsertInto` of the old array contents |
| DropPlanner.SpliceOut | src/app/page.tsx:159-164 | Splicing one entry out of the working copy leaves `RemoveAt` of it |
| DropPlanner.AssignSlots | src/app/page.tsx:166-172 | A renumbering `forEach` leaves `Relabel` of the old contents |
| DropPlanner.FindPlaceholder | src/app/page.tsx:103-105 | The result is the first placeholder of the destination pane in list order (no earlier entry is one); no result means the pane has no placeholder |
| DropPlanner.RemoveAt | src/app/page.tsx:112 | `splice(i, 1)` shortens the list by one and removes exactly that element (multiset) |
| DropPlanner.InsertAt | src/app/page.tsx:113 | `splice(i, 0, x)` puts `x` at `i` and adds exactly `x` (multiset) |
| DropPlanProofs.OtherRealMembersHolds | src/app/page.tsx:97-101 | The destination filter keeps exactly the real members of the pane other than the dragged one |
| DropPlanProofs.RelabelEffect | src/app/page.tsx:166-172 | After a renumbering loop, each entry whose id is at list index `j` holds slot `j`, shifted by one from the gap on; every other entry is unchanged |
| DropPlanProofs.MovedOrderIsPermutation | src/app/page.tsx:112-113 | Remove-then-insert permutes the members and puts the moved card at the destination index (clamped to the end); taking the moved card back out leaves the other members in their original relative order |
| DropPlanProofs.SamePaneMove | src/app/page.tsx:107-121 | A same-pane drop permutes the pane's slot-ordered real members by moving the source card to the destination index. Each member gets the slot of its new rank, so the slots are 0..k-1, and every other component is unchanged |
| DropPlanProofs.SamePaneOutOfRange | src/app/page.tsx:107-121 | A same-pane drop whose source index is at or past the end of the pane's real members is refused with `Failed` (the `undefined` card's renumbering throws and the handler catches it); an index inside the pane is rearranged |
| DropPlanProofs.SwapEffect | src/app/page.tsx:126-149 | A full destination aborts with `GroupFull` exactly when no member is ranked at the destination index. Otherwise the dragged component takes the destination pane and index, the ranked member takes the source pane and index, and nothing else changes |
| DropInsertProofs.InsertEffect | src/app/page.tsx:150-184 | The insert branch yields each snapshot entry transformed by `InsertedEntry`, with the destination's first placeholder spliced out. The dragged component moves to `min(index, count)`, destination members are shifted past that slot, and the source pane's remaining members are ranked |
| DropInsertProofs.InsertSlots | src/app/page.tsx:150-184 | After an insert, the destination's real members hold slots 0..n and the source pane's remaining real members hold slots 0..k-1 |
| DropInsertProofs.InsertKeepsSourceOrder | src/app/page.tsx:174-183 | The source pane's remaining members keep their relative slot order |
| DropInsertProofs.InsertDropsOnlyPlaceholder | src/app/page.tsx:159-164 | The insert branch removes exactly the destination's first placeholder from the working copy and keeps every other component |
| DropOutcomeProofs.RearrangeOnlyReplaced | src/app/page.tsx:88-186 | Every branch that does not abort only moves snapshot components to other panes or slots, each at most once; names, types, contents and positions stay the same |
| DropOutcomeProofs.PlanKeepsPositions | src/app/page.tsx:188-193 | A persisted batch names each id once. Every id is in the snapshot, and every `position` is the snapshot's, so no drop changes a global position |
| PagePanes.PaneMembersHolds | src/app/page.tsx:224-225 | The pane filter keeps exactly the components carrying the pane id, placeholders included |
| PagePanes.PanesArePaneIds | src/app/page.tsx:218-222 | There is one pane per distinct truthy pane id and no other |
| PagePanes.PaneContents | src/app/page.tsx:222-227 | A pane holds exactly the components with its id, sorted by slot (missing slot as 0) |
| Layout.DistinctPaneIdsHolds | src/app/page.tsx:218-220 | The `Set` of pane ids lists exactly the truthy pane ids of the components |
| Layout.FindIndex | src/app/page.tsx:116 | `findIndex` returns the first index holding the id, or none when no entry has it |
| Layout.MinPosition | src/components/ComponentList.tsx:58-59 | `Math.min` of the positions: a member's position no greater than any other, or `None` (+Infinity) for no members |
| Layout.PaneLeIsTotalPreorder | src/components/ComponentList.tsx:57-61 | The pane comparator, with +Infinity minus +Infinity read as equal, is a total preorder |
| Sorting.SortByIsSorted | src/app/page.tsx:110 | The stable sort's result is ordered by the comparator; `SortBy` itself keeps length and multiset |
| ComponentList.PaneGroupMap.Set | src/components/ComponentList.tsx:37 | `map.set` updates the value and appends a new key to the key order |
| ComponentList.PaneGroupMap.Push | src/components/ComponentList.tsx:40 | `get(k)!.push(c)` appends `c` to that key's list only |
| ComponentList.CollectMembers | src/components/ComponentList.tsx:33-43 | The first walk leaves the distinct truthy pane ids as keys, each mapped to its pane's real members in list order |
| ComponentList.CollectPlaceholderPanes | src/components/ComponentList.tsx:45-51 | The second walk never changes the map, because the first walk already gave every truthy pane id a group |
| ComponentList.SortGroups | src/components/ComponentList.tsx:53-55 | The third walk re-sets every group to its list sorted by slot and keeps the key order |
| ComponentList.GroupPanes | src/components/ComponentList.tsx:33-77 | The built, sorted entries are `ListedPanes`, and the header count is the number of distinct truthy pane ids |
| ComponentList.GroupsArePaneIds | src/components/ComponentList.tsx:33-51 | There is one group per distinct truthy pane id and no other, so a placeholder-only pane still has an (empty) group |
| ComponentList.GroupContents | src/components/ComponentList.tsx:39-55 | A group holds exactly its pane's real members, never a placeholder, sorted by slot |
| ComponentList.GroupOrder | src/components/ComponentList.tsx:57-61 | Groups with members come first, ordered by least position; empty groups come after all of them |
| ComponentList.Cells | src/components/ComponentList.tsx:126-162 | A group draws two cells, filled with the members at drag indices 0 and 1, or empty when there is no such member |
| ComponentList.CardAtDragIndex | src/components/ComponentList.tsx:126-162 | The card at drag index `k` is entry `k` of the pane's slot order, the list the same-pane branch indexes |
| FormRenderer.NonPlaceholdersHolds | src/components/FormRenderer.tsx:14 | The filter keeps exactly the members that are not placeholders |
| FormRenderer.PreviewPaneContents | src/components/FormRenderer.tsx:11-16 | A cleaned-up pane holds exactly the non-placeholder members, sorted by slot |
| FormRenderer.SortedPanesContents | src/components/FormRenderer.tsx:10-16 | The preview shows each given pane once, cleaned up, and never a placeholder |
| FormRenderer.SortedPanesOrder | src/components/FormRenderer.tsx:17-27 | Panes with members come first, ordered by least position; panes without members come last |
| FormRenderer.Render | src/components/FormRenderer.tsx:235-259 | The empty state is shown exactly when there are no panes; otherwise one section per pane, section `i` drawn by the layout rule from the `i`-th pane of the preview order |
| FormRenderer.LayoutRule | src/components/FormRenderer.tsx:246-259 | One real member means full width and two mean side by side in slot order; any other count shows nothing |
| ComponentRouter.ComponentStore.GetAll | src/server/api/routers/component.ts:5-21 | Rows come out ordered by position, then slot, holding every row once; a failing store yields `[]` |
| ComponentRouter.ListingIsOrdered | src/server/api/routers/component.ts:9-14 | The listing is sorted by the comparator, holds exactly the stored rows and keeps ids unique |
| ComponentRouter.NextPosition | src/server/api/routers/component.ts:37-39 | The result is 0 for an empty store; otherwise it exceeds every position and is one more than some position |
| ComponentRouter.ComponentStore.Create | src/server/api/routers/component.ts:23-59 | An empty name is refused and nothing changes. Otherwise one row is appended at the next position, in the given new pane, at slot 0 |
| StoreProofs.CreatedShowsOwnPane | src/server/api/routers/component.ts:37-52 | A created component is listed last, and the editor shows it as the only card of its own new pane |
| ComponentRouter.ComponentStore.Reorder | src/server/api/routers/component.ts:74-92 | The store becomes `ReplayBatch` of the batch: updates applied in order, stopping at the first missing id |
| ComponentRouter.ReplayBatch | src/server/api/routers/component.ts:76-85 | A replay keeps every row's id in place |
| StoreProofs.ReplayOkIff | src/server/api/routers/component.ts:76-91 | A reorder succeeds exactly when every id of the batch names a row |
| StoreProofs.ReplayPatches | src/server/api/routers/component.ts:76-85 | With distinct ids that all exist, each row takes its own update's position, pane and slot, and keeps name, type and content; unlisted rows are unchanged |
| StoreProofs.ReplayStopsAtMissing | src/server/api/routers/component.ts:76-91 | When update `k` is the first with a missing id, the store keeps the first `k` updates and reports failure |
| ComponentRouter.ComponentStore.Delete | src/server/api/routers/component.ts:94-106 | An existing id's row is removed; a missing id fails and nothing changes |
| ComponentRouter.Removed | src/server/api/routers/component.ts:98-100 | The delete fails exactly when no row has the id; otherwise exactly one row goes |
| StoreProofs.DeleteRemovesOnly | src/server/api/routers/component.ts:98-100 | After a delete, the rows are exactly the former rows without that id, and ids stay unique |
| ComponentRouter.ComponentStore.DeletePlaceholder | src/server/api/routers/component.ts:155-167 | The same delete by id; the row's type is not checked |
| ComponentRouter.FirstPlaceholder | src/server/api/routers/component.ts:111-113 | `findFirst` by type finds a placeholder row, or none exists |
| ComponentRouter.ComponentStore.CreateHorizontalGroup | src/server/api/routers/component.ts:108-153 | While any placeholder exists, the call is refused and nothing changes. Otherwise exactly one placeholder row is added (next position, new pane, slot 0, no content), and its pane, position and id are returned |
| StoreProofs.GroupShowsEmptyPane | src/server/api/routers/component.ts:111-148 | A created group is the store's only placeholder, and the editor lists its pane as an empty group |
| StoreProofs.DropPersistsLayout | src/app/page.tsx:188-195 | A persisted drop replayed on the store it was planned from succeeds. Each row becomes the working copy's entry with its id, and rows without an entry are unchanged |
| StoreProofs.DropKeepsPlaceholderRow | src/app/page.tsx:159-164 | After an insert into a pane with a placeholder, replaying the batch leaves the placeholder row stored and unchanged |

## Left out

- Fresh ids: the random, time-based pane id and the store's generated row id are parameters. `Create` and `CreateHorizontalGroup` require only that the row id is unused. That the pane id is unused is a precondition of the lemmas that need it (`StoreProofs.CreatedShowsOwnPane`, `StoreProofs.GroupShowsEmptyPane`).
- Persistence and API plumbing are not modelled: tRPC routing, zod validation (only the non-empty name rule of `create` is kept) and Prisma calls.
- Store failures other than a missing row are left out. For `getAll`, a failure is a parameter. `create` and `createHorizontalGroup` are modelled as always reaching the store.
- The store is a sequence of rows in storage order, not a map. Storage order decides ties in the stable listing sort and is the order `findFirst` scans.
- React machinery is not modelled: hooks, refetching, toasts, the `confirm` dialog, the loading state, the mount and timer gating of the group list, and the drag-and-drop library's wiring.
- The drop handler's `await` of the reorder call, and a reorder error shown as a toast, are left out. `Plan` ends at the batch it sends.
- Concurrent drops racing on the same snapshot are not modelled.
- src/components/ComponentCard.tsx, the `renderComponent` markup of the preview and src/components/AddComponentForm.tsx are not part of this model. They are presentation only.
- `position` and `panePosition` are integers. The non-integer numbers the reorder input would accept are not modelled.
- Timestamps (`createdAt`, `updatedAt`) are not modelled.
