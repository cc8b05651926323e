/**
 * The per-user project store of the 2D builder: the stored project record,
 * the stored form of the blocks, and the save (create or overwrite by name),
 * list, find and delete operations on the in-memory sequence of records that
 * stands for the browser's saved-projects array.
 */
module Projects {
  import opened Wrappers
  import opened Placement
  import Auth

  /** A block as stored: the live block without its element (`{type, x, y, z, floor}`). */
  datatype BlockData = BlockData(kind: string, x: int, y: int, z: int, floor: int)

  /**
   * A stored project. `materials` is `None` when the record has no materials
   * object; a record without a `building` array is an empty one.
   */
  datatype Project = Project(
    id: string,
    userId: string,
    projectName: string,
    version: string,
    savedAt: string,
    budget: real,
    currentFloor: int,
    materials: Option<map<string, nat>>,
    building: seq<BlockData>)

  const Version: string := "1.0"

  /** The persistence operations run only for a logged-in user whose session user has an id. */
  predicate Authorized(loggedIn: bool, user: Option<Auth.SessionUser>)
  {
    loggedIn && user.Some? && user.value.id != ""
  }

  /** The stored form of the live blocks: `{type, x, y, z, floor || 1}`. */
  function Snapshot(bs: seq<Block>): (ds: seq<BlockData>)
    ensures |ds| == |bs|
    ensures forall i :: 0 <= i < |bs| ==>
      ds[i].kind == bs[i].kind && ds[i].x == bs[i].x && ds[i].y == bs[i].y && ds[i].z == bs[i].z && ds[i].floor != 0
    ensures forall i :: 0 <= i < |bs| && bs[i].floor != 0 ==> ds[i].floor == bs[i].floor
  {
    seq(|bs|, i requires 0 <= i < |bs| => BlockData(bs[i].kind, bs[i].x, bs[i].y, bs[i].z, OrOne(bs[i].floor)))
  }

  /** Live blocks rebuilt from stored data (`z || 1`, `floor || 1`), with ids from `first` on. */
  function Restore(ds: seq<BlockData>, first: nat): seq<Block>
  {
    seq(|ds|, i requires 0 <= i < |ds| =>
      Block(first + i, ds[i].kind, ds[i].x, ds[i].y, OrOne(ds[i].z), OrOne(ds[i].floor)))
  }

  /** What a block set is apart from its identities: its blocks' data, in order. */
  function Cells(bs: seq<Block>): seq<BlockData>
  {
    seq(|bs|, i requires 0 <= i < |bs| => BlockData(bs[i].kind, bs[i].x, bs[i].y, bs[i].z, bs[i].floor))
  }

  /** Restored blocks get the distinct ids `first`, `first + 1`, ... in storage order. */
  lemma RestoreIds(ds: seq<BlockData>, first: nat)
    ensures |Restore(ds, first)| == |ds|
    ensures IdsUnique(Restore(ds, first))
    ensures forall i :: 0 <= i < |ds| ==> Restore(ds, first)[i].id == first + i
  {
  }

  /** Every restored block keeps its stored kind and cell, and `|| 1` leaves no level or floor at 0. */
  lemma RestoreFields(ds: seq<BlockData>, first: nat)
    ensures |Restore(ds, first)| == |ds|
    ensures forall i :: 0 <= i < |ds| ==> var b := Restore(ds, first)[i];
      b.kind == ds[i].kind && b.x == ds[i].x && b.y == ds[i].y && b.z != 0 && b.floor != 0
      && (ds[i].z != 0 ==> b.z == ds[i].z) && (ds[i].floor != 0 ==> b.floor == ds[i].floor)
  {
  }

  /** Restoring one more stored block appends exactly that block, with the next id. */
  lemma RestoreStep(ds: seq<BlockData>, first: nat, i: nat)
    requires i < |ds|
    ensures Restore(ds[..i + 1], first) == Restore(ds[..i], first) +
      [Block(first + i, ds[i].kind, ds[i].x, ds[i].y, OrOne(ds[i].z), OrOne(ds[i].floor))]
  {
  }

  /**
   * Saving then loading gives back the same blocks in the same order (up to fresh
   * ids) and the same count index, when no block has a zero level or floor.
   */
  lemma SaveLoadBlocks(bs: seq<Block>, first: nat)
    requires forall i :: 0 <= i < |bs| ==> bs[i].z != 0 && bs[i].floor != 0
    ensures Cells(Restore(Snapshot(bs), first)) == Cells(bs)
    ensures Tally(Restore(Snapshot(bs), first)) == Tally(bs)
  {
    var r := Restore(Snapshot(bs), first);
    assert Kinds(r) == Kinds(bs);
    TallyKinds(r, bs);
  }

  /** Restoring the same data twice gives the same blocks and index, whatever the ids. */
  lemma ReloadSame(ds: seq<BlockData>, first1: nat, first2: nat)
    ensures Cells(Restore(ds, first1)) == Cells(Restore(ds, first2))
    ensures Tally(Restore(ds, first1)) == Tally(Restore(ds, first2))
  {
    assert Kinds(Restore(ds, first1)) == Kinds(Restore(ds, first2));
    TallyKinds(Restore(ds, first1), Restore(ds, first2));
  }

  /** A saved and reloaded placement set keeps one block per cell and floor. */
  lemma SaveLoadCellsUnique(bs: seq<Block>, first: nat)
    requires CellsUnique(bs)
    requires forall i :: 0 <= i < |bs| ==> bs[i].floor != 0
    ensures CellsUnique(Restore(Snapshot(bs), first))
  {
  }

  // ---------------------------------------------------------------------
  // The store operations, as functions on the sequence of records.

  /** The record is the one saved by `userId` under `name`. */
  predicate NamedBy(q: Project, userId: string, name: string)
  {
    q.userId == userId && q.projectName == name
  }

  /** `findIndex` of the first record saved by `userId` under `name`, or -1. */
  function FindByName(saves: seq<Project>, userId: string, name: string): (r: int)
    ensures -1 <= r < |saves|
    ensures r >= 0 ==> NamedBy(saves[r], userId, name)
    ensures r >= 0 ==> forall j :: 0 <= j < r ==> !NamedBy(saves[j], userId, name)
    ensures r == -1 <==> forall j :: 0 <= j < |saves| ==> !NamedBy(saves[j], userId, name)
  {
    if saves == [] then -1
    else if NamedBy(saves[0], userId, name) then 0
    else
      var k := FindByName(saves[1..], userId, name);
      if k < 0 then -1 else k + 1
  }

  /** Save's store update: overwrite the first record of the same owner and name, else append. */
  function Upsert(saves: seq<Project>, p: Project): (r: seq<Project>)
    ensures p in r && |saves| <= |r| <= |saves| + 1
  {
    var i := FindByName(saves, p.userId, p.projectName);
    if i >= 0 then
      assert saves[i := p][i] == p;
      saves[i := p]
    else
      assert (saves + [p])[|saves|] == p;
      saves + [p]
  }

  /** The indexes of the records saved by `userId` under `name`. */
  function NamedIndexes(saves: seq<Project>, userId: string, name: string): set<nat>
  {
    set j: nat | j < |saves| && NamedBy(saves[j], userId, name)
  }

  /**
   * Saving overwrites in place when the name is taken (the size stays) and
   * appends otherwise; every record of another owner or name keeps its index,
   * and the saved record is in the store.
   */
  lemma UpsertShape(saves: seq<Project>, p: Project)
    ensures var r := Upsert(saves, p);
      && p in r
      && (FindByName(saves, p.userId, p.projectName) >= 0 ==> |r| == |saves|)
      && (FindByName(saves, p.userId, p.projectName) < 0 ==> |r| == |saves| + 1 && r[..|saves|] == saves)
      && forall j :: 0 <= j < |saves| && !NamedBy(saves[j], p.userId, p.projectName) ==> r[j] == saves[j]
    ensures var i, r := FindByName(saves, p.userId, p.projectName), Upsert(saves, p);
      i >= 0 ==> r[i] == p && forall j :: 0 <= j < |saves| && j != i ==> r[j] == saves[j]
  {
    var i := FindByName(saves, p.userId, p.projectName);
    var r := Upsert(saves, p);
    if i >= 0 {
      assert r[i] == p;
    } else {
      assert r[|saves|] == p;
    }
  }

  /**
   * After a save there is at least one record for the owner and name, and the
   * number of them grows only from none to one: with at most one before there
   * is exactly one after.
   */
  lemma UpsertKeepsOne(saves: seq<Project>, p: Project)
    ensures var before := |NamedIndexes(saves, p.userId, p.projectName)|;
      |NamedIndexes(Upsert(saves, p), p.userId, p.projectName)| == if before == 0 then 1 else before
  {
    var u, n := p.userId, p.projectName;
    var i := FindByName(saves, u, n);
    var r := Upsert(saves, p);
    if i >= 0 {
      assert r == saves[i := p];
      forall j: nat | j < |r| ensures NamedBy(r[j], u, n) <==> NamedBy(saves[j], u, n) {
        if j != i { assert r[j] == saves[j]; }
      }
      assert NamedIndexes(r, u, n) == NamedIndexes(saves, u, n);
      assert i in NamedIndexes(saves, u, n);
    } else {
      assert NamedIndexes(saves, u, n) == {};
      assert NamedIndexes(r, u, n) == {|saves|};
    }
  }

  /** The record of `userId` with this id: `find(save => save.id === id && save.userId === userId)`. */
  function FindProject(saves: seq<Project>, id: string, userId: string): (r: Option<Project>)
    ensures r.Some? ==> r.value in saves && r.value.id == id && r.value.userId == userId
    ensures r.Some? ==>
      exists k :: 0 <= k < |saves| && saves[k] == r.value
        && forall j :: 0 <= j < k ==> !(saves[j].id == id && saves[j].userId == userId)
    ensures r.None? <==> forall j :: 0 <= j < |saves| ==> !(saves[j].id == id && saves[j].userId == userId)
  {
    if saves == [] then None
    else if saves[0].id == id && saves[0].userId == userId then Some(saves[0])
    else FindProject(saves[1..], id, userId)
  }

  /** A record saved under a fresh id is the one found by that id and its owner. */
  lemma SaveThenFind(saves: seq<Project>, p: Project)
    requires forall j :: 0 <= j < |saves| ==> saves[j].id != p.id
    ensures FindProject(Upsert(saves, p), p.id, p.userId) == Some(p)
  {
    var i := FindByName(saves, p.userId, p.projectName);
    var r := Upsert(saves, p);
    var k := if i >= 0 then i else |saves|;
    assert r[k] == p;
    assert forall j :: 0 <= j < |r| && j != k ==> r[j] == saves[j];
    FindUnique(r, p.id, p.userId, k);
  }

  /** With one matching record, `find` returns it. */
  lemma {:induction false} FindUnique(saves: seq<Project>, id: string, userId: string, k: nat)
    requires k < |saves| && saves[k].id == id && saves[k].userId == userId
    requires forall j :: 0 <= j < |saves| && saves[j].id == id ==> saves[j] == saves[k]
    ensures FindProject(saves, id, userId) == Some(saves[k])
  {
    if !(saves[0].id == id && saves[0].userId == userId) {
      assert k > 0;
      FindUnique(saves[1..], id, userId, k - 1);
    }
  }

  /** List: the records of `userId`, in storage order (`filter`). */
  function OwnedBy(saves: seq<Project>, userId: string): (r: seq<Project>)
    ensures forall q :: q in r <==> q in saves && q.userId == userId
    ensures |r| <= |saves|
  {
    if saves == [] then []
    else (if saves[0].userId == userId then [saves[0]] else []) + OwnedBy(saves[1..], userId)
  }

  /** Listing keeps storage order: the list of a concatenation is the concatenation of the lists. */
  lemma {:induction false} OwnedByAppend(a: seq<Project>, b: seq<Project>, userId: string)
    ensures OwnedBy(a + b, userId) == OwnedBy(a, userId) + OwnedBy(b, userId)
  {
    if a == [] {
      assert a + b == b;
    } else {
      assert (a + b)[1..] == a[1..] + b;
      OwnedByAppend(a[1..], b, userId);
    }
  }

  /** Overwriting a record of another owner with a record of another owner leaves a list as it was. */
  lemma {:induction false} OwnedByUpdate(saves: seq<Project>, i: nat, q: Project, userId: string)
    requires i < |saves| && saves[i].userId != userId && q.userId != userId
    ensures OwnedBy(saves[i := q], userId) == OwnedBy(saves, userId)
  {
    if i > 0 {
      assert saves[i := q][1..] == saves[1..][i - 1 := q];
      OwnedByUpdate(saves[1..], i - 1, q, userId);
    } else {
      assert saves[i := q][1..] == saves[1..];
    }
  }

  /** A save by `userId` leaves every other user's list as it was. */
  lemma SaveKeepsOthersLists(saves: seq<Project>, p: Project, other: string)
    requires other != p.userId
    ensures OwnedBy(Upsert(saves, p), other) == OwnedBy(saves, other)
  {
    var i := FindByName(saves, p.userId, p.projectName);
    if i >= 0 {
      OwnedByUpdate(saves, i, p, other);
    } else {
      OwnedByAppend(saves, [p], other);
      assert OwnedBy([p], other) == [];
    }
  }

  /** The record matches delete's target: this id and this owner. */
  predicate Targeted(q: Project, id: string, userId: string)
  {
    q.id == id && q.userId == userId
  }

  /** Delete's store update: `filter(save => !(save.id === id && save.userId === userId))`. */
  function Drop(saves: seq<Project>, id: string, userId: string): (r: seq<Project>)
    ensures forall q :: q in r <==> q in saves && !Targeted(q, id, userId)
  {
    if saves == [] then []
    else (if Targeted(saves[0], id, userId) then [] else [saves[0]]) + Drop(saves[1..], id, userId)
  }

  /** The number of records delete targets. */
  function TargetCount(saves: seq<Project>, id: string, userId: string): nat
  {
    if saves == [] then 0
    else (if Targeted(saves[0], id, userId) then 1 else 0) + TargetCount(saves[1..], id, userId)
  }

  /** Delete takes out exactly the targeted records and keeps the rest in order. */
  lemma {:induction false} DropExact(a: seq<Project>, b: seq<Project>, id: string, userId: string)
    ensures Drop(a + b, id, userId) == Drop(a, id, userId) + Drop(b, id, userId)
    ensures |Drop(a, id, userId)| + TargetCount(a, id, userId) == |a|
  {
    if a == [] {
      assert a + b == b;
    } else {
      assert (a + b)[1..] == a[1..] + b;
      DropExact(a[1..], b, id, userId);
    }
  }

  /** Deleting a record nobody has leaves the store exactly as it was. */
  lemma {:induction false} DropNothing(saves: seq<Project>, id: string, userId: string)
    requires forall j :: 0 <= j < |saves| ==> !Targeted(saves[j], id, userId)
    ensures Drop(saves, id, userId) == saves
  {
    if saves != [] {
      DropNothing(saves[1..], id, userId);
    }
  }

  /** The in-memory project store (the saved-projects array). */
  class ProjectStore {
    var saves: seq<Project>

    constructor ()
      ensures saves == []
    {
      saves := [];
    }

    /** `loadUserSavedProjects`: this user's records in storage order, or none without a session. */
    method List(loggedIn: bool, user: Option<Auth.SessionUser>) returns (r: seq<Project>)
      ensures !Authorized(loggedIn, user) ==> r == []
      ensures Authorized(loggedIn, user) ==> forall q :: q in r <==> q in saves && q.userId == user.value.id
      ensures Authorized(loggedIn, user) ==> r == OwnedBy(saves, user.value.id)
    {
      if !loggedIn || user.None? || user.value.id == "" {
        return [];
      }
      r := OwnedBy(saves, user.value.id);
    }

    /**
     * `deleteBuilderProject`: drop the records with this id and owner. It fails only
     * without a session, and reports success even when nothing matched.
     */
    method Delete(loggedIn: bool, user: Option<Auth.SessionUser>, id: string) returns (ok: bool)
      modifies this
      ensures ok == Authorized(loggedIn, user)
      ensures ok ==> saves == Drop(old(saves), id, user.value.id)
      ensures !ok ==> saves == old(saves)
    {
      if !loggedIn || user.None? || user.value.id == "" {
        return false;
      }
      saves := Drop(saves, id, user.value.id);
      ok := true;
    }
  }
}
