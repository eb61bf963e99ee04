/**
 * The schedule template board: the grid and the pool as the component holds
 * them, the drag-completion handler `onDragEnd`, and "Remove this staff".
 */
module Schedule {
  import opened Wrappers
  import opened Entries
  import opened Grid
  import opened ContainerIds
  import opened Pool

  /** Where a drag started or ended: a container id and an index in it. */
  datatype DraggableLocation = DraggableLocation(droppableId: string, index: nat)

  /** What the drag library reports when a drag ends; no destination when dropped outside. */
  datatype DropResult = DropResult(source: DraggableLocation, destination: Option<DraggableLocation>)

  /**
   * The branch `onDragEnd` takes and the cells it works on, once the
   * container ids are compared and decoded.
   */
  datatype Gesture =
    | Cancelled
    | ReorderIn(cell: Loc, from: nat, to: nat)
    | CopyFromPool(poolIndex: nat, cell: Loc, to: nat)
    | MoveBetween(source: Loc, from: nat, cell: Loc, to: nat)
    | Undecodable

  /**
   * The dispatch of `onDragEnd`: no destination returns early; otherwise a
   * source id equal to the destination id is a reorder, the pool's id a
   * copy, and any other id a move. The destination id (and, for a move,
   * the source id) is decoded into a cell.
   */
  function Interpret(result: DropResult): (r: Gesture)
    ensures r.Cancelled? <==> result.destination.None?
    ensures r.ReorderIn? ==> result.source.droppableId == result.destination.value.droppableId
    ensures r.CopyFromPool? ==> result.source.droppableId == PoolId != result.destination.value.droppableId
    ensures r.MoveBetween? ==> result.source.droppableId !in {PoolId, result.destination.value.droppableId}
    ensures r.ReorderIn? || r.CopyFromPool? || r.MoveBetween? ==>
              Decode(result.destination.value.droppableId) == Some(r.cell)
    ensures r.ReorderIn? || r.MoveBetween? ==> r.from == result.source.index
    ensures r.CopyFromPool? ==> r.poolIndex == result.source.index
    ensures r.ReorderIn? || r.CopyFromPool? || r.MoveBetween? ==> r.to == result.destination.value.index
    ensures r.MoveBetween? ==> Decode(result.source.droppableId) == Some(r.source)
    ensures r.Undecodable? <==>
              && result.destination.Some?
              && (|| Decode(result.destination.value.droppableId).None?
                  || (&& result.source.droppableId !in {PoolId, result.destination.value.droppableId}
                      && Decode(result.source.droppableId).None?))
  {
    match result.destination
    case None => Cancelled
    case Some(destination) =>
      match Decode(destination.droppableId)
      case None => Undecodable
      case Some(d) =>
        if result.source.droppableId == destination.droppableId then
          ReorderIn(d, result.source.index, destination.index)
        else if result.source.droppableId == PoolId then
          CopyFromPool(result.source.index, d, destination.index)
        else
          match Decode(result.source.droppableId)
          case None => Undecodable
          case Some(s) => MoveBetween(s, result.source.index, d, destination.index)
  }

  /**
   * For the container ids the board renders, the dispatch picks the branch
   * the cells call for: the same cell reorders, the pool copies, and two
   * different cells move.
   */
  lemma InterpretRenderedIds(s: Loc, d: Loc, from: nat, to: nat)
    ensures Interpret(DropResult(DraggableLocation(Encode(s), from), Some(DraggableLocation(Encode(d), to)))) ==
              if s == d then ReorderIn(d, from, to) else MoveBetween(s, from, d, to)
    ensures Interpret(DropResult(DraggableLocation(PoolId, from), Some(DraggableLocation(Encode(d), to)))) ==
              CopyFromPool(from, d, to)
  {
    DecodeEncode(s);
    DecodeEncode(d);
    EncodeInjective(s, d);
    PoolIdIsNoCell(d);
  }

  predicate AllowsMultiple(allocationType: string)
  {
    allocationType == "multiple"
  }

  /**
   * What the drag library guarantees about a drop it reports: the
   * destination is a cell of the grid that is not blocked (blocked cells
   * and the pool are drop-disabled), the source is the pool or a cell, and
   * the indices are positions in those lists (within the same list a drop
   * index names an existing position, in another list it may be its end).
   */
  predicate WellFormed(g: seq<seq<Cell>>, pool: seq<Entry>, gesture: Gesture)
  {
    match gesture
    case Cancelled => true
    case Undecodable => false
    case ReorderIn(d, from, to) =>
      ValidLoc(g, d) && !CellAt(g, d).isBlocked && from < |ListAt(g, d)| && to < |ListAt(g, d)|
    case CopyFromPool(p, d, to) =>
      ValidLoc(g, d) && !CellAt(g, d).isBlocked && p < |pool| && to <= |ListAt(g, d)|
    case MoveBetween(s, from, d, to) =>
      && ValidLoc(g, s) && ValidLoc(g, d) && !CellAt(g, d).isBlocked
      && from < |ListAt(g, s)| && to <= |ListAt(g, d)|
  }

  /** The destination admits a transfer: it is empty or the allocation type is `multiple`. */
  predicate Admits(g: seq<seq<Cell>>, d: Loc, allocationType: string)
    requires ValidLoc(g, d)
  {
    ListAt(g, d) == [] || AllowsMultiple(allocationType)
  }

  /**
   * The grid after a drag ends: unchanged when cancelled; the cell's list
   * reordered for a same-container drop, whatever the allocation type; a
   * copy from the pool (with drag id `freshId`) or a move between cells when
   * the destination admits it, and nothing otherwise.
   */
  function DragEnd(g: seq<seq<Cell>>, pool: seq<Entry>, allocationType: string, gesture: Gesture, freshId: nat): (r: seq<seq<Cell>>)
    requires WellFormed(g, pool, gesture)
    ensures SameLayout(g, r)
    ensures gesture.Cancelled? ==> r == g
    ensures gesture.ReorderIn? ==> ListAt(r, gesture.cell) == Reorder(ListAt(g, gesture.cell), gesture.from, gesture.to)
    ensures (gesture.CopyFromPool? || gesture.MoveBetween?) && !Admits(g, gesture.cell, allocationType) ==> r == g
    ensures gesture.MoveBetween? && Admits(g, gesture.cell, allocationType) ==>
              r == MoveGrid(g, gesture.source, gesture.from, gesture.cell, gesture.to)
    ensures forall loc :: ValidLoc(g, loc) && !Touches(gesture, loc) ==> CellAt(r, loc) == CellAt(g, loc)
  {
    match gesture
    case Cancelled => g
    case ReorderIn(d, from, to) => SetList(g, d, Reorder(ListAt(g, d), from, to))
    case CopyFromPool(p, d, to) =>
      if Admits(g, d, allocationType) then SetList(g, d, Copy(pool, ListAt(g, d), p, to, freshId)) else g
    case MoveBetween(s, from, d, to) =>
      if Admits(g, d, allocationType) then
        MoveOutcome(g, s, from, d, to);
        MoveGrid(g, s, from, d, to)
      else g
  }

  /** The cells a gesture may write: its destination and, for a move, its source. */
  predicate Touches(gesture: Gesture, loc: Loc)
  {
    match gesture
    case Cancelled => false
    case Undecodable => false
    case ReorderIn(d, _, _) => loc == d
    case CopyFromPool(_, d, _) => loc == d
    case MoveBetween(s, _, d, _) => loc == s || loc == d
  }

  /**
   * A copy from the pool either leaves the destination as it was (the staff
   * is already there, or the destination does not admit it) or inserts the
   * pool entry, with drag id `freshId`, at the drop index.
   */
  lemma CopyOutcome(g: seq<seq<Cell>>, pool: seq<Entry>, allocationType: string, p: nat, d: Loc, to: nat, freshId: nat)
    requires WellFormed(g, pool, CopyFromPool(p, d, to))
    ensures var r := DragEnd(g, pool, allocationType, CopyFromPool(p, d, to), freshId);
            if Admits(g, d, allocationType) && !HasStaff(ListAt(g, d), StaffKey(pool[p])) then
              && |ListAt(r, d)| == |ListAt(g, d)| + 1
              && ListAt(r, d)[to] == Entry(pool[p].user, freshId)
              && RemoveAt(ListAt(r, d), to) == ListAt(g, d)
            else r == g
  {
    var r := DragEnd(g, pool, allocationType, CopyFromPool(p, d, to), freshId);
    if Admits(g, d, allocationType) && HasStaff(ListAt(g, d), StaffKey(pool[p])) {
      assert Copy(pool, ListAt(g, d), p, to, freshId) == ListAt(g, d);
      assert r == SetList(g, d, ListAt(g, d));
      assert forall i :: 0 <= i < |g| ==> r[i] == g[i];
    }
  }

  /**
   * A drag end keeps every cell free of duplicate staff ids, keeps blocked
   * cells empty, and, when `freshId` is above every drag id in use, keeps
   * every drag id on the grid below it, or below `freshId + 1` after a copy
   * from the pool.
   */
  lemma DragEndKeepsInvariants(g: seq<seq<Cell>>, pool: seq<Entry>, allocationType: string, gesture: Gesture, freshId: nat)
    requires WellFormed(g, pool, gesture)
    ensures NoDuplicatesInCells(g) ==> NoDuplicatesInCells(DragEnd(g, pool, allocationType, gesture, freshId))
    ensures BlockedCellsEmpty(g) ==> BlockedCellsEmpty(DragEnd(g, pool, allocationType, gesture, freshId))
    ensures GridIdsBelow(g, freshId) ==>
              GridIdsBelow(DragEnd(g, pool, allocationType, gesture, freshId), if gesture.CopyFromPool? then freshId + 1 else freshId)
  {
    match gesture
    case Cancelled =>
    case ReorderIn(d, from, to) =>
      var list := Reorder(ListAt(g, d), from, to);
      assert forall e :: e in list ==> e in ListAt(g, d) by {
        assert multiset(list) == multiset(ListAt(g, d));
      }
      SetListKeepsInvariants(g, d, list, freshId);
    case CopyFromPool(p, d, to) =>
      GridIdsBelowGrows(g, freshId);
      if Admits(g, d, allocationType) {
        SetListKeepsInvariants(g, d, Copy(pool, ListAt(g, d), p, to, freshId), freshId + 1);
      }
    case MoveBetween(s, from, d, to) =>
      if Admits(g, d, allocationType) {
        MoveKeepsNoDuplicates(g, s, from, d, to);
        MoveKeepsBlockedCellsEmpty(g, s, from, d, to);
        MoveKeepsIdsBelow(g, s, from, d, to, freshId);
      }
  }

  lemma GridIdsBelowGrows(g: seq<seq<Cell>>, n: nat)
    ensures GridIdsBelow(g, n) ==> GridIdsBelow(g, n + 1)
  {
    if GridIdsBelow(g, n) {
      forall loc | ValidLoc(g, loc)
        ensures ListIdsBelow(ListAt(g, loc), n + 1)
      {
      }
    }
  }

  /**
   * The board of the `ScheduleTemplate` component: the schedule grid, the
   * pool of assignable staff, the template's allocation type and the supply
   * of fresh drag ids.
   */
  /** No two entries of the board, on the grid or in the pool, share a drag id. */
  ghost predicate DistinctDragIds(g: seq<seq<Cell>>, pool: seq<Entry>)
  {
    DistinctIds(GridDragIds(g) + DragIds(pool))
  }

  /**
   * A drag end keeps the grid's drag ids, except that a copy the destination
   * admits and does not already hold adds exactly the fresh drag id.
   */
  lemma DragEndDragIds(g: seq<seq<Cell>>, pool: seq<Entry>, allocationType: string, gesture: Gesture, freshId: nat)
    requires WellFormed(g, pool, gesture)
    ensures GridDragIds(DragEnd(g, pool, allocationType, gesture, freshId)) ==
              if && gesture.CopyFromPool?
                 && Admits(g, gesture.cell, allocationType)
                 && !HasStaff(ListAt(g, gesture.cell), StaffKey(pool[gesture.poolIndex]))
              then GridDragIds(g) + multiset{freshId}
              else GridDragIds(g)
  {
    match gesture
    case Cancelled =>
    case ReorderIn(d, from, to) =>
      ReorderCellDragIds(g, d, from, to);
    case CopyFromPool(p, d, to) =>
      if Admits(g, d, allocationType) {
        CopyCellDragIds(g, pool, p, d, to, freshId);
      }
    case MoveBetween(s, from, d, to) =>
      if Admits(g, d, allocationType) {
        MoveKeepsDragIds(g, s, from, d, to);
      }
  }

  /** Reordering one cell keeps the grid's drag ids. */
  lemma ReorderCellDragIds(g: seq<seq<Cell>>, d: Loc, from: nat, to: nat)
    requires ValidLoc(g, d) && from < |ListAt(g, d)| && to < |ListAt(g, d)|
    ensures GridDragIds(SetList(g, d, Reorder(ListAt(g, d), from, to))) == GridDragIds(g)
  {
    ReorderKeepsDragIds(ListAt(g, d), from, to);
    SetListSameDragIds(g, d, Reorder(ListAt(g, d), from, to));
  }

  /** Copying a pool entry into a cell adds the fresh drag id when it inserts, and nothing otherwise. */
  lemma CopyCellDragIds(g: seq<seq<Cell>>, pool: seq<Entry>, p: nat, d: Loc, to: nat, freshId: nat)
    requires ValidLoc(g, d) && p < |pool| && to <= |ListAt(g, d)|
    ensures GridDragIds(SetList(g, d, Copy(pool, ListAt(g, d), p, to, freshId))) ==
              if HasStaff(ListAt(g, d), StaffKey(pool[p])) then GridDragIds(g) else GridDragIds(g) + multiset{freshId}
  {
    var list := ListAt(g, d);
    if HasStaff(list, StaffKey(pool[p])) {
      assert Copy(pool, list, p, to, freshId) == list;
      SetListSameDragIds(g, d, list);
    } else {
      assert Copy(pool, list, p, to, freshId) == Insert(list, to, pool[p].(id := freshId));
      SetListInsertDragIds(g, d, to, pool[p].(id := freshId));
    }
  }

  /**
   * A drag end keeps every drag id on the board distinct when `freshId` is
   * above all drag ids in use.
   */
  lemma DragEndKeepsDistinctDragIds(g: seq<seq<Cell>>, pool: seq<Entry>, allocationType: string, gesture: Gesture, freshId: nat)
    requires WellFormed(g, pool, gesture)
    ensures GridIdsBelow(g, freshId) && ListIdsBelow(pool, freshId) && DistinctDragIds(g, pool) ==>
              DistinctDragIds(DragEnd(g, pool, allocationType, gesture, freshId), pool)
  {
    var r := DragEnd(g, pool, allocationType, gesture, freshId);
    DragEndDragIds(g, pool, allocationType, gesture, freshId);
    if GridIdsBelow(g, freshId) && ListIdsBelow(pool, freshId) && GridDragIds(r) != GridDragIds(g) {
      var before := GridDragIds(g) + DragIds(pool);
      GridDragIdsBelow(g, freshId);
      DragIdsBelow(pool, freshId);
      assert GridDragIds(r) == GridDragIds(g) + multiset{freshId};
      assert GridDragIds(r) + DragIds(pool) == before + multiset{freshId};
      FreshKeepsDistinct(before, freshId);
    }
  }

  /** Removing an entry keeps every drag id on the board distinct. */
  lemma RemoveStaffKeepsDistinctDragIds(g: seq<seq<Cell>>, pool: seq<Entry>, loc: Loc, index: nat)
    requires ValidLoc(g, loc) && index < |ListAt(g, loc)|
    ensures DistinctDragIds(g, pool) ==> DistinctDragIds(RemoveStaffGrid(g, loc, index), pool)
  {
    RemoveStaffDragIds(g, loc, index);
    var removed := multiset{ListAt(g, loc)[index].id};
    var before := GridDragIds(g) + DragIds(pool);
    var after := GridDragIds(RemoveStaffGrid(g, loc, index)) + DragIds(pool);
    if DistinctIds(before) {
      forall x
        ensures after[x] <= 1
      {
        assert (GridDragIds(RemoveStaffGrid(g, loc, index)) + removed)[x] == GridDragIds(g)[x];
        assert before[x] <= 1;
      }
    }
  }

  class ScheduleBoard {
    var grid: seq<seq<Cell>>
    var pool: seq<Entry>
    var nextId: nat
    const allocationType: string

    /**
     * Every drag id in use is below `nextId`, so `nextId` is fresh, and no
     * two entries of the board share a drag id.
     */
    ghost predicate Valid()
      reads this
    {
      GridIdsBelow(grid, nextId) && ListIdsBelow(pool, nextId) && DistinctDragIds(grid, pool)
    }

    /**
     * Loading a template: the grid is the template's table and the pool is
     * the staff roster projected through the user directory. `idSupply` is
     * where fresh drag ids start.
     */
    constructor (templateTable: seq<seq<Cell>>, allocationType: string, staff: seq<string>, users: seq<User>, idSupply: nat)
      requires GridIdsBelow(templateTable, idSupply) && DistinctIds(GridDragIds(templateTable))
      ensures Valid()
      ensures grid == templateTable && this.allocationType == allocationType
      ensures pool == ProjectPool(staff, users, idSupply) && nextId == idSupply + |staff|
    {
      grid := templateTable;
      pool := ProjectPool(staff, users, idSupply);
      nextId := idSupply + |staff|;
      this.allocationType := allocationType;
      new;
      ProjectPoolProperties(staff, users, idSupply);
      forall loc | ValidLoc(grid, loc)
        ensures ListIdsBelow(ListAt(grid, loc), nextId)
      {
      }
      GridDragIdsBelow(templateTable, idSupply);
      PoolDragIds(staff, users, idSupply);
      forall x
        ensures (GridDragIds(grid) + DragIds(pool))[x] <= 1
      {
        if x in GridDragIds(grid) {
          assert DragIds(pool)[x] == 0;
        }
      }
    }

    /**
     * `move(...)`: the entry leaves the source cell `s` and enters the
     * destination cell `d`, both lists written back together, unless the
     * destination already holds its staff id.
     */
    method Move(s: Loc, si: nat, d: Loc, di: nat)
      requires Valid()
      requires ValidLoc(grid, s) && ValidLoc(grid, d)
      requires si < |ListAt(grid, s)| && di <= |ListAt(grid, d)|
      modifies this
      ensures Valid()
      ensures grid == MoveGrid(old(grid), s, si, d, di)
      ensures pool == old(pool) && nextId == old(nextId)
    {
      MoveKeepsIdsBelow(grid, s, si, d, di, nextId);
      MoveKeepsDragIds(grid, s, si, d, di);
      var sourceData := grid;
      var sourceClone := ListAt(sourceData, s);
      var destClone := ListAt(sourceData, d);
      var removed := sourceClone[si];
      sourceClone := RemoveAt(sourceClone, si);
      if !HasStaff(destClone, StaffKey(removed)) {
        destClone := Insert(destClone, di, removed);
        sourceData := SetList(sourceData, s, sourceClone);
        sourceData := SetList(sourceData, d, destClone);
      }
      grid := sourceData;
    }

    /**
     * `onDragEnd(result)`. The pool is never changed; a fresh drag id is
     * drawn for a drop from the pool.
     */
    method OnDragEnd(result: DropResult)
      requires Valid() && WellFormed(grid, pool, Interpret(result))
      modifies this
      ensures Valid()
      ensures grid == DragEnd(old(grid), old(pool), allocationType, Interpret(result), old(nextId))
      ensures old(NoDuplicatesInCells(grid)) ==> NoDuplicatesInCells(grid)
      ensures old(BlockedCellsEmpty(grid)) ==> BlockedCellsEmpty(grid)
      ensures pool == old(pool)
      ensures nextId == if Interpret(result).CopyFromPool? then old(nextId) + 1 else old(nextId)
    {
      var gesture := Interpret(result);
      Dispatch(gesture);
    }

    /** The `switch` of `onDragEnd`, once the container ids are decoded. */
    method Dispatch(gesture: Gesture)
      requires Valid() && WellFormed(grid, pool, gesture)
      modifies this
      ensures Valid()
      ensures grid == DragEnd(old(grid), old(pool), allocationType, gesture, old(nextId))
      ensures old(NoDuplicatesInCells(grid)) ==> NoDuplicatesInCells(grid)
      ensures old(BlockedCellsEmpty(grid)) ==> BlockedCellsEmpty(grid)
      ensures pool == old(pool)
      ensures nextId == if gesture.CopyFromPool? then old(nextId) + 1 else old(nextId)
    {
      DragEndKeepsInvariants(grid, pool, allocationType, gesture, nextId);
      DragEndKeepsDistinctDragIds(grid, pool, allocationType, gesture, nextId);
      match gesture {
        case Cancelled =>
          return;
        case ReorderIn(d, from, to) =>
          grid := SetList(grid, d, Reorder(ListAt(grid, d), from, to));
        case CopyFromPool(p, d, to) =>
          var isEmpty := |ListAt(grid, d)| == 0;
          var freshId := nextId;
          nextId := nextId + 1;
          if isEmpty || AllowsMultiple(allocationType) {
            grid := SetList(grid, d, Copy(pool, ListAt(grid, d), p, to, freshId));
          }
        case MoveBetween(s, from, d, to) =>
          var isEmpty := |ListAt(grid, d)| == 0;
          if isEmpty || AllowsMultiple(allocationType) {
            Move(s, from, d, to);
          }
      }
    }

    /** "Remove this staff" on the entry at `index` of the cell at (`rowIdx`, `colIdx`). */
    method RemoveStaff(rowIdx: nat, colIdx: nat, index: nat)
      requires Valid()
      requires ValidLoc(grid, Loc(rowIdx, colIdx)) && index < |ListAt(grid, Loc(rowIdx, colIdx))|
      modifies this
      ensures Valid()
      ensures grid == RemoveStaffGrid(old(grid), Loc(rowIdx, colIdx), index)
      ensures old(NoDuplicatesInCells(grid)) ==> NoDuplicatesInCells(grid)
      ensures old(BlockedCellsEmpty(grid)) ==> BlockedCellsEmpty(grid)
      ensures pool == old(pool) && nextId == old(nextId)
    {
      var loc := Loc(rowIdx, colIdx);
      RemoveStaffKeepsInvariants(grid, loc, index, nextId);
      RemoveStaffKeepsDistinctDragIds(grid, pool, loc, index);
      var newScheData := SetList(grid, loc, RemoveAt(ListAt(grid, loc), index));
      grid := NonEmptyRows(newScheData);
    }
  }
}
