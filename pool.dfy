/**
 * The pool of assignable staff: the template's `staff` ids mapped through
 * the user directory, each entry with a fresh drag id.
 */
module Pool {
  import opened Wrappers
  import opened Entries

  /** `users.find((user) => user._id === id)`: the first user with that id. */
  function FindUser(users: seq<User>, id: string): (r: Option<User>)
    ensures r.None? <==> forall u :: u in users ==> u.userId != id
    ensures r.Some? ==> exists i :: 0 <= i < |users| && users[i] == r.value && users[i].userId == id &&
                                    forall j :: 0 <= j < i ==> users[j].userId != id
  {
    if users == [] then None
    else if users[0].userId == id then Some(users[0])
    else
      var rest := FindUser(users[1..], id);
      assert forall u :: u in users <==> u == users[0] || u in users[1..];
      assert rest.Some? ==> exists i :: 1 <= i < |users| && users[i] == rest.value && users[i].userId == id &&
                                        forall j :: 0 <= j < i ==> users[j].userId != id by {
        if rest.Some? {
          var i :| 0 <= i < |users[1..]| && users[1..][i] == rest.value && users[1..][i].userId == id &&
                   forall j :: 0 <= j < i ==> users[1..][j].userId != id;
          assert users[i + 1] == rest.value;
          assert forall j :: 1 <= j < i + 1 ==> users[j] == users[1..][j - 1];
        }
      }
      rest
  }

  /**
   * The pool projection: one entry per staff id, in roster order, carrying
   * the spread of the first matching user (nothing when there is none) and
   * the drag id `firstId + i`.
   */
  function ProjectPool(staff: seq<string>, users: seq<User>, firstId: nat): (r: seq<Entry>)
    ensures |r| == |staff|
    ensures forall i :: 0 <= i < |r| ==> r[i].user == FindUser(users, staff[i]) && r[i].id == firstId + i
  {
    if staff == [] then []
    else [Entry(FindUser(users, staff[0]), firstId)] + ProjectPool(staff[1..], users, firstId + 1)
  }

  /**
   * The pool has one entry per roster id; an entry's staff id is the roster
   * id when the directory knows that user and `undefined` otherwise; drag ids
   * are pairwise distinct and below `firstId + |staff|`.
   */
  lemma ProjectPoolProperties(staff: seq<string>, users: seq<User>, firstId: nat)
    ensures |ProjectPool(staff, users, firstId)| == |staff|
    ensures forall i :: 0 <= i < |staff| ==>
              StaffKey(ProjectPool(staff, users, firstId)[i]) ==
                if exists u :: u in users && u.userId == staff[i] then Some(staff[i]) else None
    ensures forall i, j :: 0 <= i < j < |staff| ==> ProjectPool(staff, users, firstId)[i].id != ProjectPool(staff, users, firstId)[j].id
    ensures ListIdsBelow(ProjectPool(staff, users, firstId), firstId + |staff|)
  {
    var r := ProjectPool(staff, users, firstId);
    forall i | 0 <= i < |staff|
      ensures StaffKey(r[i]) == if exists u :: u in users && u.userId == staff[i] then Some(staff[i]) else None
    {
      var found := FindUser(users, staff[i]);
      if found.Some? {
        assert found.value in users;
      }
    }
  }

  /** The pool's drag ids are exactly `firstId`, ..., `firstId + |staff| - 1`, each once. */
  lemma {:induction false} PoolDragIds(staff: seq<string>, users: seq<User>, firstId: nat)
    ensures forall x :: DragIds(ProjectPool(staff, users, firstId))[x] == if firstId <= x < firstId + |staff| then 1 else 0
  {
    if staff != [] {
      var head := Entry(FindUser(users, staff[0]), firstId);
      var rest := ProjectPool(staff[1..], users, firstId + 1);
      PoolDragIds(staff[1..], users, firstId + 1);
      assert ([head] + rest)[0] == head && ([head] + rest)[1..] == rest;
      assert DragIds(ProjectPool(staff, users, firstId)) == multiset{firstId} + DragIds(rest);
    }
  }
}
