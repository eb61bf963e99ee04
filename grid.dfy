/**
 * The schedule grid: rows of cells, each cell an ordered list of entries and
 * a blocked flag. Rows are kept as they come from the template table, so
 * they need not all have the same length.
 */
module Grid {
  import opened Entries

  datatype Cell = Cell(list: seq<Entry>, isBlocked: bool)

  /** A cell address: `row` indexes the grid, `col` indexes that row. */
  datatype Loc = Loc(row: nat, col: nat)

  predicate ValidLoc(g: seq<seq<Cell>>, loc: Loc)
  {
    loc.row < |g| && loc.col < |g[loc.row]|
  }

  function CellAt(g: seq<seq<Cell>>, loc: Loc): Cell
    requires ValidLoc(g, loc)
  {
    g[loc.row][loc.col]
  }

  function ListAt(g: seq<seq<Cell>>, loc: Loc): seq<Entry>
    requires ValidLoc(g, loc)
  {
    g[loc.row][loc.col].list
  }

  /** Same rows, same row lengths and the same blocked cells. */
  ghost predicate SameLayout(g: seq<seq<Cell>>, h: seq<seq<Cell>>)
  {
    && |g| == |h|
    && (forall i :: 0 <= i < |g| ==> |g[i]| == |h[i]|)
    && forall loc :: ValidLoc(g, loc) ==> CellAt(h, loc).isBlocked == CellAt(g, loc).isBlocked
  }

  /** Every cell's list is free of duplicate staff ids. */
  ghost predicate NoDuplicatesInCells(g: seq<seq<Cell>>)
  {
    forall loc :: ValidLoc(g, loc) ==> NoDuplicateStaff(ListAt(g, loc))
  }

  /** A blocked cell holds no entry. */
  ghost predicate BlockedCellsEmpty(g: seq<seq<Cell>>)
  {
    forall loc :: ValidLoc(g, loc) && CellAt(g, loc).isBlocked ==> ListAt(g, loc) == []
  }

  /** Every drag id on the grid is below `n`. */
  ghost predicate GridIdsBelow(g: seq<seq<Cell>>, n: nat)
  {
    forall loc :: ValidLoc(g, loc) ==> ListIdsBelow(ListAt(g, loc), n)
  }

  /** `grid[row][col].list = list`: the cell's list is replaced wholesale. */
  function SetList(g: seq<seq<Cell>>, loc: Loc, list: seq<Entry>): (r: seq<seq<Cell>>)
    requires ValidLoc(g, loc)
    ensures SameLayout(g, r)
    ensures ListAt(r, loc) == list
    ensures forall other :: ValidLoc(g, other) && other != loc ==> CellAt(r, other) == CellAt(g, other)
  {
    g[loc.row := g[loc.row][loc.col := g[loc.row][loc.col].(list := list)]]
  }

  /** Replacing one cell's list keeps each grid invariant that the new list keeps. */
  lemma SetListKeepsInvariants(g: seq<seq<Cell>>, loc: Loc, list: seq<Entry>, n: nat)
    requires ValidLoc(g, loc)
    ensures NoDuplicatesInCells(g) && NoDuplicateStaff(list) ==> NoDuplicatesInCells(SetList(g, loc, list))
    ensures BlockedCellsEmpty(g) && (CellAt(g, loc).isBlocked ==> list == []) ==> BlockedCellsEmpty(SetList(g, loc, list))
    ensures GridIdsBelow(g, n) && ListIdsBelow(list, n) ==> GridIdsBelow(SetList(g, loc, list), n)
  {
    var r := SetList(g, loc, list);
    forall other | ValidLoc(r, other)
      ensures ValidLoc(g, other)
      ensures other != loc ==> CellAt(r, other) == CellAt(g, other)
      ensures CellAt(r, other).isBlocked == CellAt(g, other).isBlocked
    {
    }
  }

  /**
   * `move(...)` on the grid: the entry at index `si` of cell `s` is taken out;
   * if cell `d` holds no entry with its staff id, it goes in at index `di` and
   * both cells are written back, otherwise the grid stays as it was.
   */
  function MoveGrid(g: seq<seq<Cell>>, s: Loc, si: nat, d: Loc, di: nat): seq<seq<Cell>>
    requires ValidLoc(g, s) && ValidLoc(g, d)
    requires si < |ListAt(g, s)| && di <= |ListAt(g, d)|
  {
    var sourceClone := RemoveAt(ListAt(g, s), si);
    var removed := ListAt(g, s)[si];
    if HasStaff(ListAt(g, d), StaffKey(removed)) then g
    else SetList(SetList(g, s, sourceClone), d, Insert(ListAt(g, d), di, removed))
  }

  /**
   * A move is all or nothing: when the destination already holds the
   * entry's staff id the grid is unchanged and the entry stays in its
   * source cell; otherwise the two cells are different, the source loses
   * exactly the entry at `si`, and the destination gains that same entry at
   * `di`. No other cell changes and the layout stays the same.
   */
  lemma MoveOutcome(g: seq<seq<Cell>>, s: Loc, si: nat, d: Loc, di: nat)
    requires ValidLoc(g, s) && ValidLoc(g, d)
    requires si < |ListAt(g, s)| && di <= |ListAt(g, d)|
    ensures SameLayout(g, MoveGrid(g, s, si, d, di))
    ensures HasStaff(ListAt(g, d), StaffKey(ListAt(g, s)[si])) ==> MoveGrid(g, s, si, d, di) == g
    ensures !HasStaff(ListAt(g, d), StaffKey(ListAt(g, s)[si])) ==>
              var r := MoveGrid(g, s, si, d, di);
              && s != d
              && ListAt(r, s) == RemoveAt(ListAt(g, s), si)
              && |ListAt(r, d)| == |ListAt(g, d)| + 1
              && ListAt(r, d)[di] == ListAt(g, s)[si]
              && RemoveAt(ListAt(r, d), di) == ListAt(g, d)
    ensures forall loc :: ValidLoc(g, loc) && loc != s && loc != d ==>
              CellAt(MoveGrid(g, s, si, d, di), loc) == CellAt(g, loc)
  {
    var removed := ListAt(g, s)[si];
    assert HasStaff(ListAt(g, s), StaffKey(removed)) by {
      assert StaffKey(ListAt(g, s)[si]) == StaffKey(removed);
    }
    if !HasStaff(ListAt(g, d), StaffKey(removed)) {
      InsertThenRemove(ListAt(g, d), di, removed);
    }
  }

  /** A move keeps every cell free of duplicate staff ids. */
  lemma MoveKeepsNoDuplicates(g: seq<seq<Cell>>, s: Loc, si: nat, d: Loc, di: nat)
    requires ValidLoc(g, s) && ValidLoc(g, d)
    requires si < |ListAt(g, s)| && di <= |ListAt(g, d)|
    ensures NoDuplicatesInCells(g) ==> NoDuplicatesInCells(MoveGrid(g, s, si, d, di))
  {
    var removed := ListAt(g, s)[si];
    if NoDuplicatesInCells(g) && !HasStaff(ListAt(g, d), StaffKey(removed)) {
      var sourceClone := RemoveAt(ListAt(g, s), si);
      var h := SetList(g, s, sourceClone);
      var destClone := Insert(ListAt(g, d), di, removed);
      assert MoveGrid(g, s, si, d, di) == SetList(h, d, destClone);
      RemoveAtKeepsNoDuplicates(ListAt(g, s), si);
      InsertKeepsNoDuplicates(ListAt(h, d), di, removed);
      SetListKeepsInvariants(g, s, sourceClone, 0);
      SetListKeepsInvariants(h, d, destClone, 0);
    }
  }

  /** A move into a cell that is not blocked keeps blocked cells empty. */
  lemma MoveKeepsBlockedCellsEmpty(g: seq<seq<Cell>>, s: Loc, si: nat, d: Loc, di: nat)
    requires ValidLoc(g, s) && ValidLoc(g, d)
    requires si < |ListAt(g, s)| && di <= |ListAt(g, d)|
    ensures BlockedCellsEmpty(g) && !CellAt(g, d).isBlocked ==> BlockedCellsEmpty(MoveGrid(g, s, si, d, di))
  {
    var removed := ListAt(g, s)[si];
    if BlockedCellsEmpty(g) && !CellAt(g, d).isBlocked && !HasStaff(ListAt(g, d), StaffKey(removed)) {
      var sourceClone := RemoveAt(ListAt(g, s), si);
      var h := SetList(g, s, sourceClone);
      var destClone := Insert(ListAt(g, d), di, removed);
      assert MoveGrid(g, s, si, d, di) == SetList(h, d, destClone);
      assert !CellAt(g, s).isBlocked;
      SetListKeepsInvariants(g, s, sourceClone, 0);
      SetListKeepsInvariants(h, d, destClone, 0);
    }
  }

  /** A move keeps every drag id on the grid below a bound. */
  lemma MoveKeepsIdsBelow(g: seq<seq<Cell>>, s: Loc, si: nat, d: Loc, di: nat, n: nat)
    requires ValidLoc(g, s) && ValidLoc(g, d)
    requires si < |ListAt(g, s)| && di <= |ListAt(g, d)|
    ensures GridIdsBelow(g, n) ==> GridIdsBelow(MoveGrid(g, s, si, d, di), n)
  {
    var removed := ListAt(g, s)[si];
    if GridIdsBelow(g, n) && !HasStaff(ListAt(g, d), StaffKey(removed)) {
      var sourceClone := RemoveAt(ListAt(g, s), si);
      var h := SetList(g, s, sourceClone);
      var destClone := Insert(ListAt(g, d), di, removed);
      assert MoveGrid(g, s, si, d, di) == SetList(h, d, destClone);
      assert ListIdsBelow(ListAt(g, s), n) && ListIdsBelow(ListAt(g, d), n);
      assert removed in ListAt(g, s);
      SetListKeepsInvariants(g, s, sourceClone, n);
      SetListKeepsInvariants(h, d, destClone, n);
    }
  }

  /** `grid.filter((group) => group.length)`: rows without cells are dropped. */
  function NonEmptyRows(g: seq<seq<Cell>>): seq<seq<Cell>>
  {
    if g == [] then []
    else (if |g[0]| > 0 then [g[0]] else []) + NonEmptyRows(g[1..])
  }

  /**
   * The filter keeps exactly the rows that have cells, so no row of its
   * result is empty, and a grid without empty rows comes back unchanged.
   */
  lemma {:induction false} NonEmptyRowsKeeps(g: seq<seq<Cell>>)
    ensures forall i :: 0 <= i < |NonEmptyRows(g)| ==> |NonEmptyRows(g)[i]| > 0
    ensures forall row :: row in NonEmptyRows(g) <==> row in g && |row| > 0
    ensures (forall i :: 0 <= i < |g| ==> |g[i]| > 0) ==> NonEmptyRows(g) == g
  {
    if g != [] {
      NonEmptyRowsKeeps(g[1..]);
      assert forall row :: row in g <==> row == g[0] || row in g[1..];
      if forall i :: 0 <= i < |g| ==> |g[i]| > 0 {
        assert forall i :: 0 <= i < |g[1..]| ==> |g[1..][i]| > 0;
        assert g == [g[0]] + g[1..];
      }
    }
  }

  /** A single row survives the filter exactly when it has cells. */
  lemma NonEmptyRowsSingle(row: seq<Cell>)
    ensures NonEmptyRows([row]) == if |row| > 0 then [row] else []
  {
    assert [row][1..] == [];
  }

  /** Filtering a grid is filtering its first row, then the rest. */
  lemma NonEmptyRowsCons(row: seq<Cell>, rest: seq<seq<Cell>>)
    ensures NonEmptyRows([row] + rest) == NonEmptyRows([row]) + NonEmptyRows(rest)
  {
    NonEmptyRowsSingle(row);
    assert ([row] + rest)[0] == row;
    assert ([row] + rest)[1..] == rest;
  }

  /**
   * The filter works row by row: filtering a concatenation is the
   * concatenation of the filtered parts, so the kept rows stay in their
   * order and a repeated row is kept each time.
   */
  lemma {:induction false} NonEmptyRowsAppend(a: seq<seq<Cell>>, b: seq<seq<Cell>>)
    ensures NonEmptyRows(a + b) == NonEmptyRows(a) + NonEmptyRows(b)
  {
    if a == [] {
      assert a + b == b;
    } else {
      var row, rest := a[0], a[1..];
      assert a == [row] + rest;
      assert a + b == [row] + (rest + b);
      NonEmptyRowsCons(row, rest + b);
      NonEmptyRowsCons(row, rest);
      NonEmptyRowsAppend(rest, b);
    }
  }

  /** Each cell left by the row filter is a cell of the unfiltered grid. */
  lemma NonEmptyRowsCells(g: seq<seq<Cell>>)
    ensures forall loc :: ValidLoc(NonEmptyRows(g), loc) ==>
              exists loc' :: ValidLoc(g, loc') && CellAt(g, loc') == CellAt(NonEmptyRows(g), loc)
  {
    var r := NonEmptyRows(g);
    NonEmptyRowsKeeps(g);
    forall loc | ValidLoc(r, loc)
      ensures exists loc' :: ValidLoc(g, loc') && CellAt(g, loc') == CellAt(r, loc)
    {
      assert r[loc.row] in g;
      var j :| 0 <= j < |g| && g[j] == r[loc.row];
      assert ValidLoc(g, Loc(j, loc.col)) && CellAt(g, Loc(j, loc.col)) == CellAt(r, loc);
    }
  }

  /**
   * "Remove this staff": the entry at `index` is spliced out of the cell at
   * `loc`, with no admission check, then rows without cells are filtered out.
   * When no row is empty, that cell loses exactly that entry and nothing else
   * changes.
   */
  function RemoveStaffGrid(g: seq<seq<Cell>>, loc: Loc, index: nat): (r: seq<seq<Cell>>)
    requires ValidLoc(g, loc) && index < |ListAt(g, loc)|
    ensures forall i :: 0 <= i < |r| ==> |r[i]| > 0
    ensures (forall i :: 0 <= i < |g| ==> |g[i]| > 0) ==>
              && SameLayout(g, r)
              && ListAt(r, loc) == RemoveAt(ListAt(g, loc), index)
              && forall other :: ValidLoc(g, other) && other != loc ==> CellAt(r, other) == CellAt(g, other)
    ensures NoDuplicateStaff(ListAt(g, loc)) && (forall i :: 0 <= i < |g| ==> |g[i]| > 0) ==>
              !HasStaff(ListAt(r, loc), StaffKey(ListAt(g, loc)[index]))
  {
    var h := SetList(g, loc, RemoveAt(ListAt(g, loc), index));
    RemoveAtKeepsNoDuplicates(ListAt(g, loc), index);
    assert (forall i :: 0 <= i < |g| ==> |g[i]| > 0) ==> forall i :: 0 <= i < |h| ==> |h[i]| > 0;
    NonEmptyRowsKeeps(h);
    NonEmptyRows(h)
  }

  /** Removing an entry keeps cells free of duplicates, blocked cells empty and drag ids below a bound. */
  lemma RemoveStaffKeepsInvariants(g: seq<seq<Cell>>, loc: Loc, index: nat, n: nat)
    requires ValidLoc(g, loc) && index < |ListAt(g, loc)|
    ensures NoDuplicatesInCells(g) ==> NoDuplicatesInCells(RemoveStaffGrid(g, loc, index))
    ensures BlockedCellsEmpty(g) ==> BlockedCellsEmpty(RemoveStaffGrid(g, loc, index))
    ensures GridIdsBelow(g, n) ==> GridIdsBelow(RemoveStaffGrid(g, loc, index), n)
  {
    var list := RemoveAt(ListAt(g, loc), index);
    var h := SetList(g, loc, list);
    RemoveAtKeepsNoDuplicates(ListAt(g, loc), index);
    SetListKeepsInvariants(g, loc, list, n);
    NonEmptyRowsCells(h);
    var r := NonEmptyRows(h);
    assert r == RemoveStaffGrid(g, loc, index);
    forall other | ValidLoc(r, other)
      ensures NoDuplicatesInCells(h) ==> NoDuplicateStaff(ListAt(r, other))
      ensures BlockedCellsEmpty(h) && CellAt(r, other).isBlocked ==> ListAt(r, other) == []
      ensures GridIdsBelow(h, n) ==> ListIdsBelow(ListAt(r, other), n)
    {
      var loc' :| ValidLoc(h, loc') && CellAt(h, loc') == CellAt(r, other);
    }
  }

  /** The drag ids of every cell of a row, counted with multiplicity. */
  function RowDragIds(row: seq<Cell>): multiset<nat>
  {
    if row == [] then multiset{} else DragIds(row[0].list) + RowDragIds(row[1..])
  }

  /** The drag ids of every cell of the grid, counted with multiplicity. */
  function GridDragIds(g: seq<seq<Cell>>): multiset<nat>
  {
    if g == [] then multiset{} else RowDragIds(g[0]) + GridDragIds(g[1..])
  }

  /** Replacing one cell of a row trades that cell's drag ids for the new cell's. */
  lemma {:induction false} RowDragIdsUpdate(row: seq<Cell>, c: nat, cell: Cell)
    requires c < |row|
    ensures RowDragIds(row[c := cell]) + DragIds(row[c].list) == RowDragIds(row) + DragIds(cell.list)
  {
    var u := row[c := cell];
    if c == 0 {
      assert u[1..] == row[1..];
      assert RowDragIds(u) == DragIds(cell.list) + RowDragIds(row[1..]);
      assert RowDragIds(row) == DragIds(row[0].list) + RowDragIds(row[1..]);
    } else {
      assert u[0] == row[0] && u[1..] == row[1..][c - 1 := cell];
      assert row[1..][c - 1] == row[c];
      RowDragIdsUpdate(row[1..], c - 1, cell);
      var head, before, after := DragIds(row[0].list), RowDragIds(row[1..]), RowDragIds(u[1..]);
      assert RowDragIds(u) == head + after;
      assert RowDragIds(row) == head + before;
      assert (head + after) + DragIds(row[c].list) == head + (after + DragIds(row[c].list));
      assert (head + before) + DragIds(cell.list) == head + (before + DragIds(cell.list));
    }
  }

  /** Replacing one row of the grid trades that row's drag ids for the new row's. */
  lemma {:induction false} GridDragIdsUpdate(g: seq<seq<Cell>>, r: nat, row: seq<Cell>)
    requires r < |g|
    ensures GridDragIds(g[r := row]) + RowDragIds(g[r]) == GridDragIds(g) + RowDragIds(row)
  {
    if r == 0 {
      assert g[r := row][1..] == g[1..];
      assert GridDragIds(g[r := row]) == RowDragIds(row) + GridDragIds(g[1..]);
      assert GridDragIds(g) == RowDragIds(g[0]) + GridDragIds(g[1..]);
    } else {
      var u := g[r := row];
      assert u[0] == g[0] && u[1..] == g[1..][r - 1 := row];
      assert g[1..][r - 1] == g[r];
      GridDragIdsUpdate(g[1..], r - 1, row);
      var head, before, after := RowDragIds(g[0]), GridDragIds(g[1..]), GridDragIds(u[1..]);
      assert GridDragIds(u) == head + after;
      assert GridDragIds(g) == head + before;
      assert (head + after) + RowDragIds(g[r]) == head + (after + RowDragIds(g[r]));
      assert (head + before) + RowDragIds(row) == head + (before + RowDragIds(row));
    }
  }

  /** Writing a cell's list back trades the old list's drag ids for the new list's. */
  lemma SetListDragIds(g: seq<seq<Cell>>, loc: Loc, list: seq<Entry>)
    requires ValidLoc(g, loc)
    ensures GridDragIds(SetList(g, loc, list)) + DragIds(ListAt(g, loc)) == GridDragIds(g) + DragIds(list)
  {
    var row := g[loc.row];
    var newRow := row[loc.col := row[loc.col].(list := list)];
    assert SetList(g, loc, list) == g[loc.row := newRow];
    RowDragIdsUpdate(row, loc.col, row[loc.col].(list := list));
    GridDragIdsUpdate(g, loc.row, newRow);
    IdsExchange(GridDragIds(g[loc.row := newRow]), GridDragIds(g), RowDragIds(row), RowDragIds(newRow),
                DragIds(ListAt(g, loc)), DragIds(list));
  }

  /** Writing back a list with the same drag ids keeps the grid's drag ids. */
  lemma SetListSameDragIds(g: seq<seq<Cell>>, loc: Loc, list: seq<Entry>)
    requires ValidLoc(g, loc) && DragIds(list) == DragIds(ListAt(g, loc))
    ensures GridDragIds(SetList(g, loc, list)) == GridDragIds(g)
  {
    SetListDragIds(g, loc, list);
    var after, before, ids := GridDragIds(SetList(g, loc, list)), GridDragIds(g), DragIds(list);
    forall x
      ensures after[x] == before[x]
    {
      assert (after + ids)[x] == (before + ids)[x];
    }
  }

  /** Splicing an entry out of a cell takes exactly its drag id off the grid. */
  lemma SetListRemoveAtDragIds(g: seq<seq<Cell>>, loc: Loc, i: nat)
    requires ValidLoc(g, loc) && i < |ListAt(g, loc)|
    ensures GridDragIds(SetList(g, loc, RemoveAt(ListAt(g, loc), i))) + multiset{ListAt(g, loc)[i].id} == GridDragIds(g)
  {
    var list := ListAt(g, loc);
    SetListDragIds(g, loc, RemoveAt(list, i));
    DragIdsRemoveAt(list, i);
    IdsExchange(GridDragIds(SetList(g, loc, RemoveAt(list, i))), GridDragIds(g), DragIds(list), DragIds(RemoveAt(list, i)),
                multiset{list[i].id}, multiset{});
  }

  /** Splicing an entry into a cell puts exactly its drag id on the grid. */
  lemma SetListInsertDragIds(g: seq<seq<Cell>>, loc: Loc, i: nat, x: Entry)
    requires ValidLoc(g, loc) && i <= |ListAt(g, loc)|
    ensures GridDragIds(SetList(g, loc, Insert(ListAt(g, loc), i, x))) == GridDragIds(g) + multiset{x.id}
  {
    var list := ListAt(g, loc);
    SetListDragIds(g, loc, Insert(list, i, x));
    DragIdsInsert(list, i, x);
    IdsExchange(GridDragIds(SetList(g, loc, Insert(list, i, x))), GridDragIds(g), DragIds(list), DragIds(Insert(list, i, x)),
                multiset{}, multiset{x.id});
  }

  /** A move carries an entry from one cell to another: the grid keeps its drag ids. */
  lemma MoveKeepsDragIds(g: seq<seq<Cell>>, s: Loc, si: nat, d: Loc, di: nat)
    requires ValidLoc(g, s) && ValidLoc(g, d)
    requires si < |ListAt(g, s)| && di <= |ListAt(g, d)|
    ensures GridDragIds(MoveGrid(g, s, si, d, di)) == GridDragIds(g)
  {
    var removed := ListAt(g, s)[si];
    if !HasStaff(ListAt(g, d), StaffKey(removed)) {
      assert HasStaff(ListAt(g, s), StaffKey(removed)) by {
        assert StaffKey(ListAt(g, s)[si]) == StaffKey(removed);
      }
      var h := SetList(g, s, RemoveAt(ListAt(g, s), si));
      assert ListAt(h, d) == ListAt(g, d);
      SetListRemoveAtDragIds(g, s, si);
      SetListInsertDragIds(h, d, di, removed);
    }
  }

  /** The row filter drops only rows without cells, so no drag id is lost. */
  lemma {:induction false} NonEmptyRowsKeepsDragIds(g: seq<seq<Cell>>)
    ensures GridDragIds(NonEmptyRows(g)) == GridDragIds(g)
  {
    if g != [] {
      NonEmptyRowsKeepsDragIds(g[1..]);
      var rest := NonEmptyRows(g[1..]);
      if |g[0]| > 0 {
        assert ([g[0]] + rest)[0] == g[0];
        assert ([g[0]] + rest)[1..] == rest;
      } else {
        assert [] + rest == rest;
      }
    }
  }

  /** "Remove this staff" takes exactly the removed entry's drag id off the grid. */
  lemma RemoveStaffDragIds(g: seq<seq<Cell>>, loc: Loc, index: nat)
    requires ValidLoc(g, loc) && index < |ListAt(g, loc)|
    ensures GridDragIds(RemoveStaffGrid(g, loc, index)) + multiset{ListAt(g, loc)[index].id} == GridDragIds(g)
  {
    var h := SetList(g, loc, RemoveAt(ListAt(g, loc), index));
    assert RemoveStaffGrid(g, loc, index) == NonEmptyRows(h);
    SetListRemoveAtDragIds(g, loc, index);
    NonEmptyRowsKeepsDragIds(h);
  }

  lemma {:induction false} RowDragIdsBelow(row: seq<Cell>, n: nat)
    requires forall c :: 0 <= c < |row| ==> ListIdsBelow(row[c].list, n)
    ensures forall x :: x in RowDragIds(row) ==> x < n
  {
    if row != [] {
      DragIdsBelow(row[0].list, n);
      RowDragIdsBelow(row[1..], n);
    }
  }

  lemma {:induction false} RowsDragIdsBelow(g: seq<seq<Cell>>, n: nat)
    requires forall r, c :: 0 <= r < |g| && 0 <= c < |g[r]| ==> ListIdsBelow(g[r][c].list, n)
    ensures forall x :: x in GridDragIds(g) ==> x < n
  {
    if g != [] {
      RowDragIdsBelow(g[0], n);
      RowsDragIdsBelow(g[1..], n);
    }
  }

  /** When every cell's drag ids are below `n`, so is every drag id on the grid. */
  lemma GridDragIdsBelow(g: seq<seq<Cell>>, n: nat)
    requires GridIdsBelow(g, n)
    ensures forall x :: x in GridDragIds(g) ==> x < n
  {
    forall r, c | 0 <= r < |g| && 0 <= c < |g[r]|
      ensures ListIdsBelow(g[r][c].list, n)
    {
      assert ValidLoc(g, Loc(r, c));
    }
    RowsDragIdsBelow(g, n);
  }
}
