# Schedule template board

This project models the drag-and-drop engine of the schedule template screen of a
Meteor/React staff scheduler, `ScheduleTemplate.js`.

## The board

A template is a table of cells:
- one row per area and day;
- one column per session.

Each cell holds:
- a list of staff entries;
- a flag that marks it as blocked.

Beside the table sits a pool, the `assignedUsers` strip. It holds the template's staff, each looked up in the user directory. Each entry carries a drag id, and no two entries of the board, on the grid or in the pool, share one.

## Operations

The board supports four operations:
- **Reorder:** a staff member is dragged within one cell, which changes the cell's order.
- **Copy:** a staff member is dragged from the pool onto a cell. The cell receives a copy with a fresh drag id.
- **Move:** a staff member is dragged from one cell to another.
- **Remove this staff:** the staff member is deleted from a cell.

A copy or a move is refused in these cases:
- the destination already holds that staff member;
- the destination is not empty and the template's allocation type is not `multiple`.

## How it is modelled

- **Entries and lists (`entries.dfy`).** List operations are pure functions on sequences: `Insert` and `RemoveAt` (JavaScript `splice`), `Reorder` and `Copy`.
- **Grid (`grid.dfy`).**
  - The grid is a sequence of rows of `Cell` values, with write-back of one cell's list (`SetList`).
  - The move itself is `MoveGrid`.
  - The row filter applied after a removal is `NonEmptyRows`.
  - Four invariants are stated once and shown to be preserved:
    - no cell holds the same staff id twice;
    - blocked cells stay empty;
    - every drag id is below the next fresh one;
    - no two entries of the board share a drag id. This is stated on the multiset of drag ids (`DragIds`, `GridDragIds`).
- **Container ids (`container_ids.dfy`).** Cells are identified by the string `"<row>_<col>"`. The model covers the way `onDragEnd` splits it on `_` and uses the pieces as array indices. Only canonical decimal strings name an element.
- **Pool (`pool.dfy`).** The pool projection is the staff roster mapped through the user directory.
- **Component (`schedule.dfy`).**
  - `ScheduleBoard` is a class whose fields are the component's state: the grid, the pool and a drag-id supply.
  - Its methods are `OnDragEnd`, `Move` and `RemoveStaff`, each proved against a specification function (`DragEnd`, `MoveGrid`, `RemoveStaffGrid`).
  - `Interpret` is the dispatch on container ids.

Where the code differs from what one might expect, the model follows the code:
- a staff id with no matching user still gives a pool entry, with no `_id`;
- blocked cells are protected only by the drag library's `isDropDisabled`, never by `onDragEnd`;
- two entries without a user compare equal on `_id` (`undefined === undefined`), so the duplicate check refuses the second one.

## Model

| member | source | states |
|---|---|---|
| Entries.Insert | ui/pages/dashboard/schedule/ScheduleTemplate.js:48 | `splice(i, 0, x)`: one longer, `x` at `i`, the prefix kept, the suffix shifted up by one, and the multiset grows by exactly `x` |
| Entries.RemoveAt | ui/pages/dashboard/schedule/ScheduleTemplate.js:47 | `splice(i, 1)`: one shorter, the prefix kept, the suffix shifted down by one, and the multiset loses exactly `list[i]` |
| Entries.Reorder | ui/pages/dashboard/schedule/ScheduleTemplate.js:45-51 | the entry from `startIndex` ends at `endIndex`; removing it there leaves what removing it at `startIndex` left; same length, a permutation, no duplicate staff created |
| Entries.ReorderAt | ui/pages/dashboard/schedule/ScheduleTemplate.js:45-51 | the element at every index after a reorder, by the three ranges before, between and after the two indices |
| Entries.ReorderUndo | ui/pages/dashboard/schedule/ScheduleTemplate.js:45-51 | reordering back from `endIndex` to `startIndex` restores the original list |
| Entries.ReorderExample | ui/pages/dashboard/schedule/ScheduleTemplate.js:45-51 | moving the first of three entries to the end gives `[b, c, a]` |
| Entries.Copy | ui/pages/dashboard/schedule/ScheduleTemplate.js:55-64 | if the destination holds the staff id it is returned unchanged; otherwise the pool entry, with a fresh drag id, is inserted at the drop index and removing it gives back the destination; afterwards the staff id is present, no duplicate is created, and drag ids stay below `freshId + 1` |
| Entries.InsertKeepsNoDuplicates | ui/pages/dashboard/schedule/ScheduleTemplate.js:60-62 | inserting an entry whose staff id is absent keeps a list free of duplicate staff ids |
| Entries.DragIdsAppend | ui/pages/dashboard/schedule/ScheduleTemplate.js:46-48 | the drag ids of a concatenation are those of its two parts |
| Entries.DragIdsInsert | ui/pages/dashboard/schedule/ScheduleTemplate.js:48 | `splice(i, 0, x)` adds exactly the drag id of `x` |
| Entries.DragIdsRemoveAt | ui/pages/dashboard/schedule/ScheduleTemplate.js:47 | `splice(i, 1)` takes away exactly the drag id of the removed entry |
| Entries.DragIdsBelow | ui/pages/dashboard/schedule/ScheduleTemplate.js:62 | the drag ids of a list are below every bound its entries are below |
| Entries.ReorderKeepsDragIds | ui/pages/dashboard/schedule/ScheduleTemplate.js:45-51 | a reorder keeps the list's drag ids |
| Entries.CopyDragIds | ui/pages/dashboard/schedule/ScheduleTemplate.js:55-64 | a copy adds the fresh drag id when it inserts, and nothing otherwise |
| Entries.FreshKeepsDistinct | ui/pages/dashboard/schedule/ScheduleTemplate.js:62 | adding an id above every id present keeps the ids distinct |
| Entries.RemoveAtKeepsNoDuplicates | ui/pages/dashboard/schedule/ScheduleTemplate.js:70 | removing an entry keeps a duplicate-free list duplicate-free, and its staff id is then absent |
| Grid.SetList | ui/pages/dashboard/schedule/ScheduleTemplate.js:83-84 | writing one cell's list back: the layout and blocked flags stay, the cell holds the new list, and every other cell is unchanged |
| Grid.SetListKeepsInvariants | ui/pages/dashboard/schedule/ScheduleTemplate.js:83-84 | writing back a duplicate-free list, a list allowed in the cell, or a list with drag ids below `n` keeps the matching grid invariant |
| Grid.MoveGrid | ui/pages/dashboard/schedule/ScheduleTemplate.js:66-88 | `move` on the grid; its contract is stated by `MoveOutcome` |
| Grid.MoveOutcome | ui/pages/dashboard/schedule/ScheduleTemplate.js:66-88 | `move` is all or nothing: if the destination holds the staff id the grid is unchanged; otherwise the cells differ, the source loses exactly the entry at `si`, the destination gains that entry at `di`, and no other cell changes |
| Grid.MoveKeepsNoDuplicates | ui/pages/dashboard/schedule/ScheduleTemplate.js:72-84 | a move keeps every cell free of duplicate staff ids |
| Grid.MoveKeepsBlockedCellsEmpty | ui/pages/dashboard/schedule/ScheduleTemplate.js:66-88 | a move into a cell that is not blocked keeps blocked cells empty |
| Grid.MoveKeepsIdsBelow | ui/pages/dashboard/schedule/ScheduleTemplate.js:66-88 | a move keeps every drag id on the grid below a bound |
| Grid.MoveKeepsDragIds | ui/pages/dashboard/schedule/ScheduleTemplate.js:66-88 | a move keeps the grid's drag ids |
| Grid.SetListDragIds | ui/pages/dashboard/schedule/ScheduleTemplate.js:83-84 | writing back a cell's list trades the old list's drag ids for the new list's |
| Grid.SetListSameDragIds | ui/pages/dashboard/schedule/ScheduleTemplate.js:145 | writing back a list with the same drag ids keeps the grid's drag ids |
| Grid.SetListRemoveAtDragIds | ui/pages/dashboard/schedule/ScheduleTemplate.js:70 | splicing an entry out of a cell takes exactly its drag id off the grid |
| Grid.SetListInsertDragIds | ui/pages/dashboard/schedule/ScheduleTemplate.js:75 | splicing an entry into a cell puts exactly its drag id on the grid |
| Grid.GridDragIdsBelow | ui/pages/dashboard/schedule/ScheduleTemplate.js:62 | when every cell's drag ids are below a bound, so is every drag id on the grid |
| Grid.NonEmptyRows | ui/pages/dashboard/schedule/ScheduleTemplate.js:347 | `filter(group => group.length)`; its contract is stated by `NonEmptyRowsKeeps`, `NonEmptyRowsSingle` and `NonEmptyRowsAppend` |
| Grid.NonEmptyRowsKeepsDragIds | ui/pages/dashboard/schedule/ScheduleTemplate.js:347 | the row filter drops only rows without cells, so no drag id is lost |
| Grid.NonEmptyRowsKeeps | ui/pages/dashboard/schedule/ScheduleTemplate.js:347 | `filter(group => group.length)`: exactly the non-empty rows are kept, and a grid without empty rows is returned unchanged |
| Grid.NonEmptyRowsSingle | ui/pages/dashboard/schedule/ScheduleTemplate.js:347 | a single row is kept if and only if it has cells |
| Grid.NonEmptyRowsCons | ui/pages/dashboard/schedule/ScheduleTemplate.js:347 | filtering a grid is filtering its first row followed by filtering the rest |
| Grid.NonEmptyRowsAppend | ui/pages/dashboard/schedule/ScheduleTemplate.js:347 | filtering a concatenation is the concatenation of the filtered parts, so kept rows stay in order and every repeated row is kept; with the single-row case this determines the filter |
| Grid.NonEmptyRowsCells | ui/pages/dashboard/schedule/ScheduleTemplate.js:347 | every cell of the filtered grid is a cell of the original grid |
| Grid.RemoveStaffGrid | ui/pages/dashboard/schedule/ScheduleTemplate.js:344-347 | after "Remove this staff" no row is empty; on a grid without empty rows, the cell loses exactly the entry at `index`, no other cell changes, and a duplicate-free cell no longer holds that staff id |
| Grid.RemoveStaffDragIds | ui/pages/dashboard/schedule/ScheduleTemplate.js:344-347 | "Remove this staff" takes exactly the removed entry's drag id off the grid |
| Grid.RemoveStaffKeepsInvariants | ui/pages/dashboard/schedule/ScheduleTemplate.js:344-347 | a removal keeps cells duplicate-free, keeps blocked cells empty, and keeps drag ids below a bound |
| ContainerIds.NatToString | ui/pages/dashboard/schedule/ScheduleTemplate.js:304 | a rendered index is a non-empty string of digits with no leading zero |
| ContainerIds.ParseIndex | ui/pages/dashboard/schedule/ScheduleTemplate.js:134-141 | a piece of a container id names an array element exactly when it is a canonical decimal string |
| ContainerIds.Split | ui/pages/dashboard/schedule/ScheduleTemplate.js:134-138 | `split('_')` yields at least one piece, and a string without `_` yields itself |
| ContainerIds.SplitAtFirst | ui/pages/dashboard/schedule/ScheduleTemplate.js:134-138 | splitting `a + "_" + b`, where `a` has no `_`, gives `a` followed by the pieces of `b` |
| ContainerIds.ParseIndexOfNatToString | ui/pages/dashboard/schedule/ScheduleTemplate.js:304 | a rendered index parses back to itself |
| ContainerIds.Encode | ui/pages/dashboard/schedule/ScheduleTemplate.js:304 | the container id `${rowIdx}_${colIdx}` splits on `_` into exactly the rendered row and column |
| ContainerIds.Decode | ui/pages/dashboard/schedule/ScheduleTemplate.js:134-138 | an id without `_`, such as the pool's, names no cell; an id that names a cell has at least two pieces, and the first two are canonical indices |
| ContainerIds.DecodeEncode | ui/pages/dashboard/schedule/ScheduleTemplate.js:134-138 | the cell id rendered at line 304 decodes back to the same row and column |
| ContainerIds.EncodeInjective | ui/pages/dashboard/schedule/ScheduleTemplate.js:143-144 | two cells have equal container ids if and only if they are the same cell |
| ContainerIds.PoolIdIsNoCell | ui/pages/dashboard/schedule/ScheduleTemplate.js:149 | the pool's id `assignedUsers` does not decode to a cell and is never a cell's id |
| Pool.FindUser | ui/pages/dashboard/schedule/ScheduleTemplate.js:117 | `users.find`: no result if and only if no user has the id; otherwise the first user with that id |
| Pool.ProjectPool | ui/pages/dashboard/schedule/ScheduleTemplate.js:115-122 | one pool entry per staff id, holding the user found for it and drag id `firstId + i` |
| Pool.PoolDragIds | ui/pages/dashboard/schedule/ScheduleTemplate.js:116-119 | the pool's drag ids are exactly `firstId` to `firstId + \|staff\| - 1`, each once |
| Pool.ProjectPoolProperties | ui/pages/dashboard/schedule/ScheduleTemplate.js:116-119 | a pool entry carries the staff id exactly when a user exists, and no staff id otherwise; drag ids are pairwise distinct and below `firstId + \|staff\|` |
| Schedule.Interpret | ui/pages/dashboard/schedule/ScheduleTemplate.js:124-171 | no destination if and only if the drop is cancelled; a reorder has equal ids; a copy comes from `assignedUsers` into another id; a move comes from neither; the target cell is the decoded destination id, a move's source cell the decoded source id, and the indices are the drop's own; the drop is undecodable exactly when the destination id, or a move's source id, names no cell |
| Schedule.InterpretRenderedIds | ui/pages/dashboard/schedule/ScheduleTemplate.js:143-160 | for rendered ids, the same cell reorders, two different cells move, and the pool copies |
| Schedule.DragEnd | ui/pages/dashboard/schedule/ScheduleTemplate.js:124-171 | the layout is kept; a cancelled drop changes nothing; a same-cell drop reorders that cell whatever the allocation type; a copy or move the destination does not admit changes nothing, and an admitted move is `MoveGrid`; cells a gesture does not touch stay unchanged |
| Schedule.Admits | ui/pages/dashboard/schedule/ScheduleTemplate.js:150-166 | the `isEmpty` / `allocationType === 'multiple'` gate; its effect is stated by `DragEnd` and `CopyOutcome` |
| Schedule.CopyOutcome | ui/pages/dashboard/schedule/ScheduleTemplate.js:149-159 | a pool drop inserts the entry with the fresh drag id at the drop index exactly when the destination admits it and lacks the staff id; otherwise the grid is unchanged |
| Schedule.DragEndKeepsInvariants | ui/pages/dashboard/schedule/ScheduleTemplate.js:124-171 | every drag end keeps cells duplicate-free and blocked cells empty; drag ids stay below the supply, which a copy advances by one |
| Schedule.DragEndDragIds | ui/pages/dashboard/schedule/ScheduleTemplate.js:124-171 | a drag end keeps the grid's drag ids, except that a copy the destination admits and lacks adds exactly the fresh id |
| Schedule.ReorderCellDragIds | ui/pages/dashboard/schedule/ScheduleTemplate.js:144-148 | reordering one cell keeps the grid's drag ids |
| Schedule.CopyCellDragIds | ui/pages/dashboard/schedule/ScheduleTemplate.js:149-159 | copying a pool entry into a cell adds the fresh drag id when it inserts, and nothing otherwise |
| Schedule.DragEndKeepsDistinctDragIds | ui/pages/dashboard/schedule/ScheduleTemplate.js:124-171 | with a fresh supply, every drag end keeps the drag ids of grid and pool pairwise distinct |
| Schedule.RemoveStaffKeepsDistinctDragIds | ui/pages/dashboard/schedule/ScheduleTemplate.js:344-347 | a removal keeps the drag ids of grid and pool pairwise distinct |
| Schedule.ScheduleBoard.constructor | ui/pages/dashboard/schedule/ScheduleTemplate.js:111-122 | given a template whose drag ids are distinct and below the supply start: the grid is the template's table, the pool is the projected roster, the supply is past every drag id, and no two entries share one |
| Schedule.ScheduleBoard.Move | ui/pages/dashboard/schedule/ScheduleTemplate.js:66-88 | the grid becomes `MoveGrid` of the old grid; the board invariant (fresh supply, distinct drag ids) is kept; the pool and the supply are unchanged |
| Schedule.ScheduleBoard.OnDragEnd | ui/pages/dashboard/schedule/ScheduleTemplate.js:124-171 | the grid becomes `DragEnd` of the decoded drop; the board invariant (fresh supply, distinct drag ids), cells without duplicates and empty blocked cells are preserved; the pool never changes; the supply advances exactly on a pool drop |
| Schedule.ScheduleBoard.Dispatch | ui/pages/dashboard/schedule/ScheduleTemplate.js:141-170 | the `switch` on a decoded gesture, with the same guarantees as `OnDragEnd` |
| Schedule.ScheduleBoard.RemoveStaff | ui/pages/dashboard/schedule/ScheduleTemplate.js:344-347 | the grid becomes `RemoveStaffGrid` of the old grid; the invariants are preserved and the pool and the supply are unchanged |

## Left out

- Rendering is not modelled: JSX, Material UI components, tooltips, `capitalCase`, `getStringTimeRange`, `getStringName`, and the header rows and columns.
- React's state hooks and effects are reduced to the class's fields. The two effects at lines 111-122 are the constructor. Re-running them when props change is not modelled.
- `console.log` calls are not modelled.
- `uuid()` is replaced by the `nextId` counter. The counter advances on every drop from the pool, even one that is refused. Only freshness of drag ids is modelled, not their text.
- Aliasing is not captured. The JavaScript mutates the cell objects it shares between `scheduleData`, the spread copies and the `templateTable` prop. In this model cells are values and the grid is one field.
- The source builds cell coordinates from the rendering of the `templateTable` prop. This affects both "Remove this staff" (its row and column) and `onDragEnd` (the `"<row>_<col>"` container ids it decodes). Those coordinates then index `scheduleData`, which the row filter after a removal may have shortened. Once an empty row has been filtered away, a later removal or drop therefore lands in the wrong row. The model does not capture this. `RemoveStaff` takes indices into the board's own grid, and `WellFormed` assumes the decoded destination is a cell of that grid.
- `move` decodes the two container ids a second time, at lines 77-81. These are the same ids `onDragEnd` already decoded, so the model decodes them once, in `Interpret`.
- The drag library's guarantees are preconditions (`WellFormed`) and are not checked at runtime:
  - drops onto blocked cells or the pool are disabled;
  - indices are in range.
  
  Consequently, `splice`'s clamping of out-of-range indices and drops whose ids do not decode are not modelled.
- The JavaScript array index limit of 2^32 - 1 is not modelled: row and column indices are unbounded naturals.
- The seed data and `ScheduleNewForm.js` are not part of this model. That form creates or updates a schedule and shows the board for the template it selects.
- User records are reduced to their `_id` and a `name`. Other display fields are not modelled.
- Grid.RemoveStaffGrid: its cell-by-cell contract (exact removal, other cells unchanged) is stated only for grids with no empty rows. When a row is empty the filter shifts the rows, and the model states only that no row is left empty.
