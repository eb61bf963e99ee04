/**
 * Assignment entries and the two list helpers of the reassignment engine,
 * `reorder` and `copy`. Both clone their input list and return a new one,
 * so they are functions on sequences here.
 */
module Entries {
  import opened Wrappers

  /** A record of the user directory; `name` stands for its display fields. */
  datatype User = User(userId: string, name: string)

  /**
   * An assignment entry: the fields of a user record spread into a fresh
   * object (absent when the staff id was not found in the directory), plus
   * the per-placement drag id `id`.
   */
  datatype Entry = Entry(user: Option<User>, id: nat)

  /** The entry's `_id`: the user's id, or `undefined` when no user was spread in. */
  function StaffKey(e: Entry): Option<string>
  {
    match e.user
    case Some(u) => Some(u.userId)
    case None => None
  }

  /** `list.find((dest) => dest._id === key)` finds something. */
  predicate HasStaff(list: seq<Entry>, key: Option<string>)
  {
    exists i :: 0 <= i < |list| && StaffKey(list[i]) == key
  }

  /** No two entries of a cell share a staff id. */
  predicate NoDuplicateStaff(list: seq<Entry>)
  {
    forall i, j :: 0 <= i < j < |list| ==> StaffKey(list[i]) != StaffKey(list[j])
  }

  /** Every drag id in the list is below `n`, so `n` is a fresh id for it. */
  predicate ListIdsBelow(list: seq<Entry>, n: nat)
  {
    forall e :: e in list ==> e.id < n
  }

  /** `list.splice(i, 0, x)` on a clone. */
  function Insert(list: seq<Entry>, i: nat, x: Entry): (r: seq<Entry>)
    requires i <= |list|
    ensures |r| == |list| + 1 && r[i] == x
    ensures forall k :: 0 <= k < i ==> r[k] == list[k]
    ensures forall k :: i < k < |r| ==> r[k] == list[k - 1]
    ensures multiset(r) == multiset(list) + multiset{x}
    ensures forall e :: e in r <==> e in list || e == x
  {
    assert list == list[..i] + list[i..];
    list[..i] + [x] + list[i..]
  }

  /** `list.splice(i, 1)` on a clone. */
  function RemoveAt(list: seq<Entry>, i: nat): (r: seq<Entry>)
    requires i < |list|
    ensures |r| == |list| - 1
    ensures forall k :: 0 <= k < i ==> r[k] == list[k]
    ensures forall k :: i <= k < |r| ==> r[k] == list[k + 1]
    ensures multiset(r) == multiset(list) - multiset{list[i]}
    ensures forall e :: e in r ==> e in list
  {
    assert list == list[..i] + [list[i]] + list[i + 1..];
    list[..i] + list[i + 1..]
  }

  /** Taking out what was just put in gives back the list. */
  lemma InsertThenRemove(list: seq<Entry>, i: nat, x: Entry)
    requires i <= |list|
    ensures RemoveAt(Insert(list, i, x), i) == list
  {
    var r := RemoveAt(Insert(list, i, x), i);
    assert forall k :: 0 <= k < |list| ==> r[k] == list[k];
  }

  /** Putting back what was just taken out gives back the list. */
  lemma RemoveThenInsert(list: seq<Entry>, i: nat)
    requires i < |list|
    ensures Insert(RemoveAt(list, i), i, list[i]) == list
  {
    var r := Insert(RemoveAt(list, i), i, list[i]);
    assert forall k :: 0 <= k < |list| ==> r[k] == list[k];
  }

  /** Removing an entry keeps the cell free of duplicates, and its staff id leaves the cell. */
  lemma RemoveAtKeepsNoDuplicates(list: seq<Entry>, i: nat)
    requires i < |list|
    ensures NoDuplicateStaff(list) ==>
              NoDuplicateStaff(RemoveAt(list, i)) && !HasStaff(RemoveAt(list, i), StaffKey(list[i]))
  {
    if NoDuplicateStaff(list) {
      var r := RemoveAt(list, i);
      forall a, b | 0 <= a < b < |r|
        ensures StaffKey(r[a]) != StaffKey(r[b])
      {
        var a', b' := if a < i then a else a + 1, if b < i then b else b + 1;
        assert r[a] == list[a'] && r[b] == list[b'];
      }
      forall k | 0 <= k < |r|
        ensures StaffKey(r[k]) != StaffKey(list[i])
      {
        var k' := if k < i then k else k + 1;
        assert r[k] == list[k'];
      }
    }
  }

  /** Inserting an entry whose staff id is not yet present keeps the cell free of duplicates. */
  lemma InsertKeepsNoDuplicates(list: seq<Entry>, i: nat, x: Entry)
    requires i <= |list|
    ensures NoDuplicateStaff(list) && !HasStaff(list, StaffKey(x)) ==> NoDuplicateStaff(Insert(list, i, x))
  {
    if NoDuplicateStaff(list) && !HasStaff(list, StaffKey(x)) {
      var r := Insert(list, i, x);
      forall a, b | 0 <= a < b < |r|
        ensures StaffKey(r[a]) != StaffKey(r[b])
      {
        if a == i {
          assert r[b] == list[b - 1];
        } else if b == i {
          assert r[a] == list[a];
        } else {
          var a', b' := if a < i then a else a - 1, if b < i then b else b - 1;
          assert r[a] == list[a'] && r[b] == list[b'];
        }
      }
    }
  }

  /**
   * `reorder(list, startIndex, endIndex)`: the entry at `startIndex` is taken
   * out and put back at `endIndex`; the result is a permutation of the list.
   */
  function Reorder(list: seq<Entry>, startIndex: nat, endIndex: nat): (r: seq<Entry>)
    requires startIndex < |list| && endIndex < |list|
    ensures |r| == |list| && r[endIndex] == list[startIndex]
    ensures RemoveAt(r, endIndex) == RemoveAt(list, startIndex)
    ensures multiset(r) == multiset(list)
    ensures NoDuplicateStaff(list) ==> NoDuplicateStaff(r)
  {
    var rest := RemoveAt(list, startIndex);
    InsertThenRemove(rest, endIndex, list[startIndex]);
    RemoveAtKeepsNoDuplicates(list, startIndex);
    InsertKeepsNoDuplicates(rest, endIndex, list[startIndex]);
    Insert(rest, endIndex, list[startIndex])
  }

  /** The position of every entry after a reorder: those between the two indices shift by one. */
  lemma ReorderAt(list: seq<Entry>, startIndex: nat, endIndex: nat, k: nat)
    requires startIndex < |list| && endIndex < |list| && k < |list|
    ensures Reorder(list, startIndex, endIndex)[k] ==
              if k == endIndex then list[startIndex]
              else if startIndex <= k < endIndex then list[k + 1]
              else if endIndex < k <= startIndex then list[k - 1]
              else list[k]
  {
    var rest := RemoveAt(list, startIndex);
    if k < endIndex {
      assert Reorder(list, startIndex, endIndex)[k] == rest[k];
    } else if k > endIndex {
      assert Reorder(list, startIndex, endIndex)[k] == rest[k - 1];
    }
  }

  /** Dragging an entry back to where it came from undoes the reorder. */
  lemma {:induction false} ReorderUndo(list: seq<Entry>, startIndex: nat, endIndex: nat)
    requires startIndex < |list| && endIndex < |list|
    ensures Reorder(Reorder(list, startIndex, endIndex), endIndex, startIndex) == list
  {
    var r := Reorder(list, startIndex, endIndex);
    assert Reorder(r, endIndex, startIndex) == Insert(RemoveAt(list, startIndex), startIndex, list[startIndex]);
    RemoveThenInsert(list, startIndex);
  }

  /** `[a, b, c]` reordered from index 0 to index 2 is `[b, c, a]`. */
  lemma ReorderExample(a: Entry, b: Entry, c: Entry)
    ensures Reorder([a, b, c], 0, 2) == [b, c, a]
  {
    ReorderAt([a, b, c], 0, 2, 0);
    ReorderAt([a, b, c], 0, 2, 1);
  }

  /**
   * `copy(source, destination, droppableSource, droppableDestination)`: the
   * source entry at `sourceIndex`, with a fresh drag id, is inserted at
   * `destinationIndex`, unless an entry with the same staff id is already in
   * the destination, in which case the destination comes back unchanged.
   */
  function Copy(source: seq<Entry>, destination: seq<Entry>, sourceIndex: nat, destinationIndex: nat, freshId: nat): (r: seq<Entry>)
    requires sourceIndex < |source| && destinationIndex <= |destination|
    ensures HasStaff(destination, StaffKey(source[sourceIndex])) ==> r == destination
    ensures !HasStaff(destination, StaffKey(source[sourceIndex])) ==>
              && |r| == |destination| + 1
              && r[destinationIndex] == Entry(source[sourceIndex].user, freshId)
              && RemoveAt(r, destinationIndex) == destination
    ensures HasStaff(r, StaffKey(source[sourceIndex]))
    ensures NoDuplicateStaff(destination) ==> NoDuplicateStaff(r)
    ensures ListIdsBelow(destination, freshId) ==> ListIdsBelow(r, freshId + 1)
  {
    var item := source[sourceIndex];
    if HasStaff(destination, StaffKey(item)) then
      destination
    else
      var copied := item.(id := freshId);
      InsertThenRemove(destination, destinationIndex, copied);
      InsertKeepsNoDuplicates(destination, destinationIndex, copied);
      assert StaffKey(Insert(destination, destinationIndex, copied)[destinationIndex]) == StaffKey(item);
      Insert(destination, destinationIndex, copied)
  }

  /** The drag ids of a list's entries, counted with multiplicity. */
  function DragIds(list: seq<Entry>): multiset<nat>
  {
    if list == [] then multiset{} else multiset{list[0].id} + DragIds(list[1..])
  }

  /** No drag id occurs twice. */
  ghost predicate DistinctIds(ids: multiset<nat>)
  {
    forall x :: ids[x] <= 1
  }

  /**
   * Trading `p` for `q` and then `q` back for `p` adds `o` and `n` in
   * balance: the step that chains two write-backs of drag ids.
   */
  lemma IdsExchange(a: multiset<nat>, b: multiset<nat>, p: multiset<nat>, q: multiset<nat>, o: multiset<nat>, n: multiset<nat>)
    requires a + p == b + q && q + o == p + n
    ensures a + o == b + n
  {
    forall x
      ensures (a + o)[x] == (b + n)[x]
    {
      assert (a + p)[x] == (b + q)[x];
      assert (q + o)[x] == (p + n)[x];
    }
  }

  /** Adding an id above all ids present keeps them distinct. */
  lemma FreshKeepsDistinct(ids: multiset<nat>, n: nat)
    requires forall x :: x in ids ==> x < n
    ensures DistinctIds(ids) ==> DistinctIds(ids + multiset{n})
  {
    if DistinctIds(ids) {
      forall x
        ensures (ids + multiset{n})[x] <= 1
      {
        if x == n {
          assert n !in ids;
        }
      }
    }
  }

  /** The drag ids of a concatenation are those of its two parts. */
  lemma {:induction false} DragIdsAppend(a: seq<Entry>, b: seq<Entry>)
    ensures DragIds(a + b) == DragIds(a) + DragIds(b)
  {
    if a == [] {
      assert a + b == b;
    } else {
      assert (a + b)[0] == a[0];
      assert (a + b)[1..] == a[1..] + b;
      DragIdsAppend(a[1..], b);
    }
  }

  /** `splice(i, 0, x)` adds exactly the drag id of `x`. */
  lemma DragIdsInsert(list: seq<Entry>, i: nat, x: Entry)
    requires i <= |list|
    ensures DragIds(Insert(list, i, x)) == DragIds(list) + multiset{x.id}
  {
    assert list == list[..i] + list[i..];
    assert DragIds([x]) == multiset{x.id} by {
      assert [x][1..] == [];
    }
    DragIdsAppend(list[..i] + [x], list[i..]);
    DragIdsAppend(list[..i], [x]);
    DragIdsAppend(list[..i], list[i..]);
  }

  /** `splice(i, 1)` takes away exactly the drag id of `list[i]`. */
  lemma DragIdsRemoveAt(list: seq<Entry>, i: nat)
    requires i < |list|
    ensures DragIds(RemoveAt(list, i)) + multiset{list[i].id} == DragIds(list)
  {
    RemoveThenInsert(list, i);
    DragIdsInsert(RemoveAt(list, i), i, list[i]);
  }

  /** The drag ids of a list are below every bound its entries are below. */
  lemma {:induction false} DragIdsBelow(list: seq<Entry>, n: nat)
    requires ListIdsBelow(list, n)
    ensures forall x :: x in DragIds(list) ==> x < n
  {
    if list != [] {
      assert forall e :: e in list[1..] ==> e in list;
      DragIdsBelow(list[1..], n);
    }
  }

  /** A reorder keeps the cell's drag ids. */
  lemma ReorderKeepsDragIds(list: seq<Entry>, startIndex: nat, endIndex: nat)
    requires startIndex < |list| && endIndex < |list|
    ensures DragIds(Reorder(list, startIndex, endIndex)) == DragIds(list)
  {
    DragIdsRemoveAt(list, startIndex);
    DragIdsInsert(RemoveAt(list, startIndex), endIndex, list[startIndex]);
  }

  /** A copy adds the fresh drag id when it inserts, and nothing otherwise. */
  lemma CopyDragIds(source: seq<Entry>, destination: seq<Entry>, sourceIndex: nat, destinationIndex: nat, freshId: nat)
    requires sourceIndex < |source| && destinationIndex <= |destination|
    ensures DragIds(Copy(source, destination, sourceIndex, destinationIndex, freshId)) ==
              if HasStaff(destination, StaffKey(source[sourceIndex])) then DragIds(destination)
              else DragIds(destination) + multiset{freshId}
  {
    if !HasStaff(destination, StaffKey(source[sourceIndex])) {
      DragIdsInsert(destination, destinationIndex, source[sourceIndex].(id := freshId));
    }
  }
}
