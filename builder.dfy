/**
 * The 2D builder's editor session: the module-level state of the builder script
 * (placement set, count index, modes, floor, camera, budget) as one object, with
 * a method per event handler and editor operation.
 */
module Builder {
  import opened Wrappers
  import opened Camera
  import opened Placement
  import opened Projects
  import Auth

  /** What a placement request did: refused while one is in flight, refused on an occupied cell, or placed. */
  datatype PlaceOutcome = Busy | Occupied | Placed(id: nat)

  /** What a click on the build area did. */
  datatype ClickOutcome = Ignored | OutOfBounds | Attempted(x: int, y: int, outcome: PlaceOutcome)

  /** Why a save stopped, or that it stored the project. */
  datatype SaveOutcome = SaveNotLoggedIn | SaveInvalidSession | NothingPlaced | NoName | Saved

  /** Why a load stopped, or that it restored the project. */
  datatype LoadOutcome = LoadNotLoggedIn | LoadInvalidSession | NotFound | Loaded

  /** The figures the statistics panel shows. */
  datatype Stats = Stats(blocks: nat, width: int, height: int, cost: nat)

  /** Each block's flag is its floor visibility under the current floor. */
  ghost predicate FlagsMatch(bs: seq<Block>, flags: seq<bool>, current: int)
  {
    |flags| == |bs| && forall i :: 0 <= i < |bs| ==> flags[i] == Inactive(bs[i].floor, current)
  }

  /** Ids are distinct and below the next id; no block has level 0. */
  ghost predicate FreshIds(bs: seq<Block>, next: nat)
  {
    (forall i :: 0 <= i < |bs| ==> bs[i].id < next && bs[i].z != 0) && IdsUnique(bs)
  }

  /** Appending a block with the next id and a non-zero level keeps the ids fresh. */
  lemma FreshAppend(bs: seq<Block>, next: nat, b: Block)
    requires FreshIds(bs, next)
    requires b.id == next && b.z != 0
    ensures FreshIds(bs + [b], next + 1)
  {
    var s := bs + [b];
    assert forall i :: 0 <= i < |bs| ==> s[i] == bs[i];
  }

  /** Appending a fresh block to a free cell keeps every invariant of the editor state. */
  lemma PlaceKeeps(bs: seq<Block>, flags: seq<bool>, m: map<string, nat>, current: int, next: nat, b: Block)
    requires FlagsMatch(bs, flags, current) && FreshIds(bs, next)
    requires b.id == next && b.z != 0 && !OccupiedAt(bs, b.x, b.y, b.floor)
    ensures FlagsMatch(bs + [b], flags + [Inactive(b.floor, current)], current)
    ensures FreshIds(bs + [b], next + 1)
    ensures m == Tally(bs) ==> Inc(m, b.kind) == Tally(bs + [b])
    ensures CellsUnique(bs) ==> CellsUnique(bs + [b])
  {
    FlagsStep(bs, flags, current, b);
    FreshAppend(bs, next, b);
    TallyAppend(bs, b);
    CellsUniqueAppend(bs, b);
  }

  /** One step of the rebuild loop keeps its invariant. */
  lemma RebuildStep(ds: seq<BlockData>, first: nat, i: nat, bs: seq<Block>, flags: seq<bool>,
                    m: map<string, nat>, current: int, b: Block)
    requires i < |ds| && bs == Restore(ds[..i], first)
    requires b == Block(first + i, ds[i].kind, ds[i].x, ds[i].y, OrOne(ds[i].z), OrOne(ds[i].floor))
    requires FlagsMatch(bs, flags, current) && m == Tally(bs)
    ensures bs + [b] == Restore(ds[..i + 1], first)
    ensures FlagsMatch(bs + [b], flags + [Inactive(b.floor, current)], current)
    ensures Inc(m, b.kind) == Tally(bs + [b])
  {
    RestoreStep(ds, first, i);
    FlagsStep(bs, flags, current, b);
    TallyAppend(bs, b);
  }

  /** Taking block `i` out, with its flag, keeps every invariant of the editor state. */
  lemma RemoveKeeps(bs: seq<Block>, flags: seq<bool>, m: map<string, nat>, current: int, next: nat, i: nat)
    requires FlagsMatch(bs, flags, current) && FreshIds(bs, next) && i < |bs|
    ensures FlagsMatch(Without(bs, i), Without(flags, i), current)
    ensures FreshIds(Without(bs, i), next)
    ensures m == Tally(bs) ==> Dec(m, bs[i].kind) == Tally(Without(bs, i))
    ensures CellsUnique(bs) ==> CellsUnique(Without(bs, i))
  {
    WithoutKeeps(bs, flags, current, next, i);
    TallyWithout(bs, i);
    if CellsUnique(bs) {
      CellsUniqueWithout(bs, i);
    }
  }

  /** Restored blocks carry fresh distinct ids and a non-zero level. */
  lemma RestoreFresh(ds: seq<BlockData>, first: nat)
    ensures FreshIds(Restore(ds, first), first + |ds|)
  {
    RestoreIds(ds, first);
  }

  /** Appending a block with its flag keeps the flags in step. */
  lemma FlagsStep(bs: seq<Block>, flags: seq<bool>, current: int, b: Block)
    requires FlagsMatch(bs, flags, current)
    ensures FlagsMatch(bs + [b], flags + [Inactive(b.floor, current)], current)
  {
    var s := bs + [b];
    assert forall i :: 0 <= i < |bs| ==> s[i] == bs[i];
  }

  lemma WithoutKeeps(bs: seq<Block>, flags: seq<bool>, current: int, next: nat, i: nat)
    requires FlagsMatch(bs, flags, current) && FreshIds(bs, next) && i < |bs|
    ensures FlagsMatch(Without(bs, i), Without(flags, i), current)
    ensures FreshIds(Without(bs, i), next)
  {
  }

  class Editor {
    /** `building2D`, each block identified by a synthetic id instead of its element. */
    var building: seq<Block>
    /** The `inactive-floor` flag each block's element carries, in the order of `building`. */
    var inactive: seq<bool>
    /** `materials2D`. */
    var materials: map<string, nat>
    var selected: Option<string>
    var placementMode: bool
    var deleteMode: bool
    /** The guard against a second placement while one is in flight. */
    var isPlacing: bool
    var currentFloor: int
    var panX: real
    var panY: real
    var zoom: real
    var isPanning: bool
    var lastPanX: real
    var lastPanY: real
    /** The value of the budget field, which save reads and load restores. */
    var budget: real
    /** The next synthetic block id. */
    var nextId: nat

    /** What every operation keeps: flags in step with floors, fresh distinct ids, zoom in range, one mode. */
    ghost predicate Valid()
      reads this
    {
      && FlagsMatch(building, inactive, currentFloor)
      && FreshIds(building, nextId)
      && MinZoom <= zoom <= MaxZoom
      && !(placementMode && deleteMode)
    }

    /** The count index is the tally of the placement set. */
    ghost predicate Consistent()
      reads this
    {
      materials == Tally(building)
    }

    /** No two blocks share a cell on the same floor. */
    ghost predicate OnePerCell()
      reads this
    {
      CellsUnique(building)
    }

    /** A material is selected (`selectedMaterialType` is a non-empty string). */
    predicate HasSelection()
      reads this
    {
      selected.Some? && selected.value != ""
    }

    constructor ()
      ensures Valid() && Consistent() && OnePerCell()
      ensures building == [] && materials == map[] && selected == None
      ensures !placementMode && !deleteMode && !isPlacing && !isPanning
      ensures currentFloor == 1 && panX == 0.0 && panY == 0.0 && zoom == 1.0 && budget == 0.0
    {
      building, inactive, materials := [], [], map[];
      selected, placementMode, deleteMode, isPlacing := None, false, false, false;
      currentFloor := 1;
      panX, panY, zoom := 0.0, 0.0, 1.0;
      isPanning, lastPanX, lastPanY := false, 0.0, 0.0;
      budget, nextId := 0.0, 0;
      TallyEmpty();
    }

    // -------------------------------------------------------------------
    // Modes and floors.

    /** `selectMaterial`: placement mode on with this material, delete mode off. */
    method SelectMaterial(t: string)
      requires Valid()
      modifies this`selected, this`placementMode, this`deleteMode
      ensures Valid()
      ensures selected == Some(t) && placementMode && !deleteMode
    {
      selected, placementMode, deleteMode := Some(t), true, false;
    }

    /** `toggleDeleteMode`: flip delete mode; placement mode and the selection are always cleared. */
    method ToggleDeleteMode()
      requires Valid()
      modifies this`selected, this`placementMode, this`deleteMode
      ensures Valid()
      ensures deleteMode == !old(deleteMode) && !placementMode && selected == None
    {
      deleteMode := !deleteMode;
      placementMode := false;
      selected := None;
    }

    /** The `forEach` that reapplies the floor visibility to every block. */
    method RefreshVisibility()
      requires |inactive| == |building|
      modifies this`inactive
      ensures |inactive| == |building|
      ensures forall i :: 0 <= i < |building| ==> inactive[i] == Inactive(building[i].floor, currentFloor)
    {
      var i := 0;
      while i < |building|
        invariant 0 <= i <= |building| && |inactive| == |building|
        invariant forall j :: 0 <= j < i ==> inactive[j] == Inactive(building[j].floor, currentFloor)
      {
        inactive := inactive[i := Inactive(building[i].floor, currentFloor)];
        i := i + 1;
      }
    }

    /**
     * `switchFloor`: make floor `f` current and recompute every block's flag:
     * a block is inactive exactly when its floor (`|| 1`) is not `f`. The
     * placement set is not touched.
     */
    method SwitchFloor(f: int)
      requires Valid()
      modifies this`currentFloor, this`inactive
      ensures Valid()
      ensures currentFloor == f
      ensures forall i :: 0 <= i < |building| ==> (inactive[i] <==> OrOne(building[i].floor) != f)
    {
      currentFloor := f;
      RefreshVisibility();
    }

    // -------------------------------------------------------------------
    // Placement, removal, clearing.

    /**
     * `place2DMaterial`: refused while a placement is in flight; refused with
     * the guard released when (x, y) is taken on the current floor; otherwise
     * one block of kind `t` at level 1 on the current floor is appended and
     * only the count of `t` rises. The guard stays set until `ReleasePlacing`.
     */
    method PlaceMaterial(t: string, x: int, y: int) returns (r: PlaceOutcome)
      requires Valid()
      modifies this`building, this`inactive, this`materials, this`isPlacing, this`nextId
      ensures Valid()
      ensures old(isPlacing) ==> r == Busy && isPlacing
      ensures !old(isPlacing) && OccupiedAt(old(building), x, y, currentFloor) ==> r == Occupied && !isPlacing
      ensures !old(isPlacing) && !OccupiedAt(old(building), x, y, currentFloor) ==>
        && r == Placed(old(nextId)) && isPlacing
        && building == old(building) + [Block(old(nextId), t, x, y, 1, currentFloor)]
        && materials == Inc(old(materials), t)
      ensures !r.Placed? ==> building == old(building) && materials == old(materials)
      ensures old(Consistent()) ==> Consistent()
      ensures old(OnePerCell()) ==> OnePerCell()
    {
      if isPlacing {
        return Busy;
      }
      isPlacing := true;
      if OccupiedAt(building, x, y, currentFloor) {
        isPlacing := false;
        return Occupied;
      }
      var b := Block(nextId, t, x, y, 1, currentFloor);
      PlaceKeeps(building, inactive, materials, currentFloor, nextId, b);
      building := building + [b];
      inactive := inactive + [Inactive(b.floor, currentFloor)];
      materials := Inc(materials, t);
      nextId := nextId + 1;
      r := Placed(b.id);
    }

    /** The delayed reset of the in-flight guard. */
    method ReleasePlacing()
      requires Valid()
      modifies this`isPlacing
      ensures Valid() && !isPlacing
    {
      isPlacing := false;
    }

    /**
     * The build area's click handler: ignored during a pan, on a block, with zoom
     * enabled, or without placement mode and a selected material; otherwise the
     * viewport point is mapped to the canvas, snapped to the grid, dropped when out
     * of bounds, and handed to `PlaceMaterial` with the selected material.
     */
    method CanvasClick(vx: real, vy: real, onBlock: bool, zoomEnabled: Option<bool>) returns (r: ClickOutcome)
      requires Valid()
      modifies this`building, this`inactive, this`materials, this`isPlacing, this`nextId
      ensures Valid()
      ensures r == Ignored <==> isPanning || onBlock || zoomEnabled == Some(true) || !placementMode || !HasSelection()
      ensures !r.Ignored? ==>
        var x, y := Snap(ToCanvas(vx, panX, zoom)), Snap(ToCanvas(vy, panY, zoom));
        (r.OutOfBounds? <==> !WithinBounds(x, y)) && (r.Attempted? ==> r.x == x && r.y == y)
      ensures r.Ignored? || r.OutOfBounds? ==> isPlacing == old(isPlacing)
      ensures r.Attempted? ==> (r.outcome.Placed? <==> !old(isPlacing) && !OccupiedAt(old(building), r.x, r.y, currentFloor))
      ensures r.Attempted? ==>
        && (r.outcome.Busy? <==> old(isPlacing))
        && (r.outcome.Busy? ==> isPlacing == old(isPlacing))
        && (r.outcome.Occupied? ==> !isPlacing)
        && (r.outcome.Placed? ==> isPlacing && r.outcome.id == old(nextId))
      ensures r.Attempted? && r.outcome.Placed? ==>
        && building == old(building) + [Block(r.outcome.id, selected.value, r.x, r.y, 1, currentFloor)]
        && materials == Inc(old(materials), selected.value)
      ensures !(r.Attempted? && r.outcome.Placed?) ==> building == old(building) && materials == old(materials)
      ensures old(Consistent()) ==> Consistent()
      ensures old(OnePerCell()) ==> OnePerCell()
    {
      if isPanning || onBlock || zoomEnabled == Some(true) || !placementMode || !HasSelection() {
        return Ignored;
      }
      var x := Snap(ToCanvas(vx, panX, zoom));
      var y := Snap(ToCanvas(vy, panY, zoom));
      if x < 0 || y < 0 || x >= CanvasWidth - CellSize || y >= CanvasHeight - CellSize {
        return OutOfBounds;
      }
      var o := PlaceMaterial(selected.value, x, y);
      r := Attempted(x, y, o);
    }

    /**
     * `removeBlock` for the block with this id and the kind its handler captured:
     * the block leaves the set (when present) and the count of `kind` drops by one,
     * its entry deleted at zero.
     */
    method RemoveBlock(id: nat, kind: string)
      requires Valid()
      modifies this`building, this`inactive, this`materials
      ensures Valid()
      ensures var i := FindBlock(old(building), id);
        (i >= 0 ==> building == Without(old(building), i)) && (i < 0 ==> building == old(building))
      ensures materials == Dec(old(materials), kind)
      ensures (old(Consistent()) && FindBlock(old(building), id) >= 0
        && old(building)[FindBlock(old(building), id)].kind == kind) ==> Consistent()
      ensures old(OnePerCell()) ==> OnePerCell()
    {
      var i := FindBlock(building, id);
      if i >= 0 {
        RemoveKeeps(building, inactive, materials, currentFloor, nextId, i);
        building := Without(building, i);
        inactive := Without(inactive, i);
      }
      materials := Dec(materials, kind);
    }

    /**
     * A block's click handler: it removes the block only in delete mode and only
     * when the block's floor is the current floor; otherwise nothing changes.
     */
    method BlockClick(id: nat) returns (removed: bool)
      requires Valid()
      modifies this`building, this`inactive, this`materials
      ensures Valid()
      ensures var i := FindBlock(old(building), id);
        removed <==> i >= 0 && deleteMode && old(building)[i].floor == currentFloor
      ensures removed ==> var i := FindBlock(old(building), id);
        && building == Without(old(building), i)
        && multiset(building) + multiset{old(building)[i]} == multiset(old(building))
        && materials == Dec(old(materials), old(building)[i].kind)
      ensures !removed ==> building == old(building) && materials == old(materials) && inactive == old(inactive)
      ensures old(Consistent()) ==> Consistent()
      ensures old(OnePerCell()) ==> OnePerCell()
    {
      var i := FindBlock(building, id);
      if i >= 0 && deleteMode && building[i].floor == currentFloor {
        RemoveBlock(id, building[i].kind);
        removed := true;
      } else {
        removed := false;
      }
    }

    /** `clear2DBuild`: every block on every floor goes, and the index empties. */
    method Clear()
      requires Valid()
      modifies this`building, this`inactive, this`materials
      ensures Valid() && Consistent() && OnePerCell()
      ensures building == [] && materials == map[]
    {
      building, inactive, materials := [], [], map[];
      TallyEmpty();
    }

    // -------------------------------------------------------------------
    // Camera.

    /**
     * The wheel handler (unless zoom is explicitly disabled): step the zoom, move
     * the pan so that the canvas point under the pointer stays there, then clamp.
     */
    method Wheel(mouseX: real, mouseY: real, deltaY: real, viewWidth: real, viewHeight: real, zoomEnabled: Option<bool>)
      requires Valid()
      modifies this`panX, this`panY, this`zoom
      ensures Valid()
      ensures zoomEnabled == Some(false) ==> panX == old(panX) && panY == old(panY) && zoom == old(zoom)
      ensures zoomEnabled != Some(false) ==>
        && zoom == NextZoom(old(zoom), deltaY)
        && panX == ClampPan(AnchoredPan(mouseX, old(panX), old(zoom), zoom), viewWidth, CanvasWidth, zoom)
        && panY == ClampPan(AnchoredPan(mouseY, old(panY), old(zoom), zoom), viewHeight, CanvasHeight, zoom)
    {
      if zoomEnabled == Some(false) {
        return;
      }
      var newZoom := NextZoom(zoom, deltaY);
      panX := AnchoredPan(mouseX, panX, zoom, newZoom);
      panY := AnchoredPan(mouseY, panY, zoom, newZoom);
      zoom := newZoom;
      panX := ClampPan(panX, viewWidth, CanvasWidth, zoom);
      panY := ClampPan(panY, viewHeight, CanvasHeight, zoom);
    }

    /** The press handler: with zoom enabled, a left press starts a pan and records the anchor. */
    method MouseDown(clientX: real, clientY: real, button: int, zoomEnabled: Option<bool>)
      modifies this`isPanning, this`lastPanX, this`lastPanY
      ensures zoomEnabled == Some(true) && button == 0 ==>
        isPanning && lastPanX == DragAnchor(clientX, panX) && lastPanY == DragAnchor(clientY, panY)
      ensures !(zoomEnabled == Some(true) && button == 0) ==>
        isPanning == old(isPanning) && lastPanX == old(lastPanX) && lastPanY == old(lastPanY)
    {
      if zoomEnabled == Some(true) && button == 0 {
        isPanning := true;
        lastPanX := DragAnchor(clientX, panX);
        lastPanY := DragAnchor(clientY, panY);
      }
    }

    /** The move handler: during a pan, follow the pointer from the anchor, then clamp. */
    method MouseMove(clientX: real, clientY: real, viewWidth: real, viewHeight: real)
      modifies this`panX, this`panY
      ensures isPanning ==>
        && panX == ClampPan(DragPan(clientX, lastPanX), viewWidth, CanvasWidth, zoom)
        && panY == ClampPan(DragPan(clientY, lastPanY), viewHeight, CanvasHeight, zoom)
      ensures !isPanning ==> panX == old(panX) && panY == old(panY)
    {
      if isPanning {
        panX := ClampPan(DragPan(clientX, lastPanX), viewWidth, CanvasWidth, zoom);
        panY := ClampPan(DragPan(clientY, lastPanY), viewHeight, CanvasHeight, zoom);
      }
    }

    /** The release and leave handlers: the pan gesture ends. */
    method MouseUp()
      modifies this`isPanning
      ensures !isPanning
    {
      isPanning := false;
    }

    // -------------------------------------------------------------------
    // Statistics.

    /**
     * `update2DStats`' figures: the block count, the footprint and the live cost.
     * When the index is consistent, the cost is the sum of the blocks' unit costs.
     */
    method CurrentStats() returns (s: Stats)
      ensures s.blocks == |building|
      ensures s.width == Width(building) && s.height == Height(building)
      ensures s.cost == MapCost(MaterialCosts, materials)
      ensures Consistent() ==> s.cost == BlocksCost(MaterialCosts, building)
    {
      var cost := LiveCost(MaterialCosts, materials);
      s := Stats(|building|, Width(building), Height(building), cost);
      TallyCost(MaterialCosts, building);
    }

    // -------------------------------------------------------------------
    // Persistence.

    /** The record a save writes. */
    function SnapshotRecord(id: string, userId: string, name: string, savedAt: string): Project
      reads this
    {
      Project(id, userId, name, Version, savedAt, budget, currentFloor, Some(materials), Snapshot(building))
    }

    /**
     * `saveBuilderProjectToDatabase`: fails without a session, with a session user
     * lacking an id, with nothing placed, or without a name (the prompt cancelled);
     * otherwise stores a snapshot under `newId`, overwriting the owner's record of
     * the same name or appending. The editor itself is not touched.
     */
    method SaveProject(store: ProjectStore, loggedIn: bool, user: Option<Auth.SessionUser>,
                       name: string, newId: string, savedAt: string) returns (r: SaveOutcome)
      modifies store
      ensures r == Saved <==> Authorized(loggedIn, user) && building != [] && name != ""
      ensures !loggedIn ==> r == SaveNotLoggedIn
      ensures loggedIn && (user.None? || user.value.id == "") ==> r == SaveInvalidSession
      ensures Authorized(loggedIn, user) && building == [] ==> r == NothingPlaced
      ensures Authorized(loggedIn, user) && building != [] && name == "" ==> r == NoName
      ensures r == Saved ==>
        store.saves == Upsert(old(store.saves), SnapshotRecord(newId, user.value.id, name, savedAt))
      ensures r != Saved ==> store.saves == old(store.saves)
    {
      if !loggedIn {
        return SaveNotLoggedIn;
      }
      if user.None? || user.value.id == "" {
        return SaveInvalidSession;
      }
      if |building| == 0 {
        return NothingPlaced;
      }
      if name == "" {
        return NoName;
      }
      var p := SnapshotRecord(newId, user.value.id, name, savedAt);
      store.saves := Upsert(store.saves, p);
      r := Saved;
    }

    /**
     * The block-restoring part of a load: the set and the index are emptied, then
     * each stored block is appended in order with a fresh id, level and floor `|| 1`,
     * its flag set for the current floor and its kind counted.
     */
    method Rebuild(ds: seq<BlockData>)
      modifies this`building, this`inactive, this`materials, this`nextId
      ensures building == Restore(ds, old(nextId)) && nextId == old(nextId) + |ds|
      ensures materials == Tally(building)
      ensures FlagsMatch(building, inactive, currentFloor)
    {
      building, inactive, materials := [], [], map[];
      TallyEmpty();
      ghost var first := nextId;
      var floor := currentFloor;
      assert ds[..0] == [];
      var i := 0;
      while i < |ds|
        invariant 0 <= i <= |ds|
        invariant nextId == first + i
        invariant building == Restore(ds[..i], first)
        invariant FlagsMatch(building, inactive, floor)
        invariant materials == Tally(building)
        decreases |ds| - i
      {
        var d := ds[i];
        var b := Block(nextId, d.kind, d.x, d.y, OrOne(d.z), OrOne(d.floor));
        var bs, fl, m := building, inactive, materials;
        RebuildStep(ds, first, i, bs, fl, m, floor, b);
        building := bs + [b];
        inactive := fl + [Inactive(b.floor, floor)];
        materials := Inc(m, b.kind);
        nextId := nextId + 1;
        i := i + 1;
      }
      assert ds[..i] == ds;
    }

    /**
     * The part of a load after the record is found: budget and floor restored
     * when non-zero, the set rebuilt, the stored index preferred over the
     * replayed one, and the visibility pass.
     */
    method ApplyProject(p: Project)
      requires Valid()
      modifies this`building, this`inactive, this`materials, this`currentFloor, this`budget, this`nextId
      ensures Valid()
      ensures building == Restore(p.building, old(nextId))
      ensures materials == (if p.materials.Some? then p.materials.value else Tally(building))
      ensures currentFloor == (if p.currentFloor != 0 then p.currentFloor else old(currentFloor))
      ensures budget == (if p.budget != 0.0 then p.budget else old(budget))
    {
      if p.budget != 0.0 {
        budget := p.budget;
      }
      if p.currentFloor != 0 {
        currentFloor := p.currentFloor;
      }
      Rebuild(p.building);
      RestoreFresh(p.building, old(nextId));
      if p.materials.Some? {
        materials := p.materials.value;
      }
      RefreshVisibility();
    }

    /**
     * `loadBuilderProjectFromDatabase`: fails unless a session user owns a record
     * with this id. On success the set is cleared and rebuilt from the record in
     * storage order, the budget and the floor are restored when non-zero, the
     * stored count index replaces the replayed one when the record has one, and
     * the visibility pass runs over every block.
     */
    method LoadProject(store: ProjectStore, loggedIn: bool, user: Option<Auth.SessionUser>, projectId: string)
      returns (r: LoadOutcome)
      requires Valid()
      modifies this`building, this`inactive, this`materials, this`currentFloor, this`budget, this`nextId
      ensures Valid()
      ensures !loggedIn ==> r == LoadNotLoggedIn
      ensures loggedIn && (user.None? || user.value.id == "") ==> r == LoadInvalidSession
      ensures r == Loaded <==> Authorized(loggedIn, user) && FindProject(store.saves, projectId, user.value.id).Some?
      ensures Authorized(loggedIn, user) && FindProject(store.saves, projectId, user.value.id).None? ==> r == NotFound
      ensures r != Loaded ==>
        && building == old(building) && materials == old(materials) && inactive == old(inactive)
        && currentFloor == old(currentFloor) && budget == old(budget) && nextId == old(nextId)
      ensures r == Loaded ==>
        var p := FindProject(store.saves, projectId, user.value.id).value;
        && building == Restore(p.building, old(nextId))
        && materials == (if p.materials.Some? then p.materials.value else Tally(building))
        && currentFloor == (if p.currentFloor != 0 then p.currentFloor else old(currentFloor))
        && budget == (if p.budget != 0.0 then p.budget else old(budget))
    {
      if !loggedIn {
        return LoadNotLoggedIn;
      }
      if user.None? || user.value.id == "" {
        return LoadInvalidSession;
      }
      var found := FindProject(store.saves, projectId, user.value.id);
      if found.None? {
        return NotFound;
      }
      ApplyProject(found.value);
      r := Loaded;
    }
  }

  // ---------------------------------------------------------------------
  // Properties that span several operations.

  /** Placing a block on a free cell and removing it again restores the set and the index exactly. */
  method PlaceThenRemove(e: Editor, t: string, x: int, y: int)
    requires e.Valid() && e.Consistent() && !e.isPlacing
    requires !OccupiedAt(e.building, x, y, e.currentFloor)
    modifies e
    ensures e.Valid() && e.Consistent()
    ensures e.building == old(e.building) && e.materials == old(e.materials)
  {
    ghost var bs, m := e.building, e.materials;
    var r := e.PlaceMaterial(t, x, y);
    var id := r.id;
    PlaceRemoveRoundTrip(bs, m, Block(id, t, x, y, 1, e.currentFloor));
    e.RemoveBlock(id, t);
  }

  /**
   * Two clicks at the same point before the guard's timer fires: the second is
   * refused as busy, so exactly one block is placed.
   */
  method ClickTwice(e: Editor, vx: real, vy: real, zoomEnabled: Option<bool>) returns (r1: ClickOutcome, r2: ClickOutcome)
    requires e.Valid()
    modifies e
    ensures r1.Attempted? && r1.outcome.Placed? ==> r2.Attempted? && r2.outcome.Busy?
    ensures !r2.Attempted? || !r2.outcome.Placed?
    ensures e.building == old(e.building) || exists b :: e.building == old(e.building) + [b]
  {
    r1 := e.CanvasClick(vx, vy, false, zoomEnabled);
    r2 := e.CanvasClick(vx, vy, false, zoomEnabled);
  }

  /** A click that reaches a cell already filled on the current floor places nothing and releases the guard. */
  method ClickFilledCell(e: Editor, vx: real, vy: real, zoomEnabled: Option<bool>) returns (r: ClickOutcome)
    requires e.Valid() && !e.isPlacing && !e.isPanning && zoomEnabled != Some(true) && e.placementMode && e.HasSelection()
    requires WithinBounds(Snap(ToCanvas(vx, e.panX, e.zoom)), Snap(ToCanvas(vy, e.panY, e.zoom)))
    requires OccupiedAt(e.building, Snap(ToCanvas(vx, e.panX, e.zoom)), Snap(ToCanvas(vy, e.panY, e.zoom)), e.currentFloor)
    modifies e
    ensures r.Attempted? && r.outcome.Occupied? && !e.isPlacing
    ensures e.building == old(e.building) && e.materials == old(e.materials)
  {
    r := e.CanvasClick(vx, vy, false, zoomEnabled);
  }

  /**
   * A click, the guard's timer, then a click at the same point: the cell the
   * first click filled is occupied, so the second places nothing and the guard
   * is released again.
   */
  method ClickReleaseClick(e: Editor, vx: real, vy: real, zoomEnabled: Option<bool>) returns (r1: ClickOutcome, r2: ClickOutcome)
    requires e.Valid()
    modifies e
    ensures r1.Attempted? && r1.outcome.Placed? ==> r2.Attempted? && r2.outcome.Occupied? && !e.isPlacing
    ensures r1.Attempted? && r1.outcome.Placed? ==> |e.building| == |old(e.building)| + 1
  {
    ghost var bs := e.building;
    r1 := e.CanvasClick(vx, vy, false, zoomEnabled);
    if r1.Attempted? && r1.outcome.Placed? {
      var b := Block(r1.outcome.id, e.selected.value, r1.x, r1.y, 1, e.currentFloor);
      OccupiedAppend(bs, b, r1.x, r1.y, e.currentFloor);
      e.ReleasePlacing();
      r2 := ClickFilledCell(e, vx, vy, zoomEnabled);
    } else {
      e.ReleasePlacing();
      r2 := e.CanvasClick(vx, vy, false, zoomEnabled);
    }
  }

  /**
   * Saving under a fresh id and loading that record back gives the same blocks in
   * the same order (up to ids), the same index, floor and budget.
   */
  method SaveThenLoad(e: Editor, store: ProjectStore, user: Auth.SessionUser, name: string, newId: string, savedAt: string)
    requires e.Valid() && e.building != [] && user.id != "" && name != ""
    requires forall i :: 0 <= i < |e.building| ==> e.building[i].floor != 0
    requires forall j :: 0 <= j < |store.saves| ==> store.saves[j].id != newId
    modifies e, store
    ensures e.Valid()
    ensures Cells(e.building) == old(Cells(e.building))
    ensures e.materials == old(e.materials) && e.currentFloor == old(e.currentFloor) && e.budget == old(e.budget)
  {
    var s := e.SaveProject(store, true, Some(user), name, newId, savedAt);
    SaveThenFind(old(store.saves), e.SnapshotRecord(newId, user.id, name, savedAt));
    ghost var bs := e.building;
    var l := e.LoadProject(store, true, Some(user), newId);
    SaveLoadBlocks(bs, old(e.nextId));
  }

  /**
   * Loading the same record twice ends in the state one load gives: the same
   * blocks in the same order (up to ids), the same index, floor and budget.
   */
  method LoadTwice(e: Editor, store: ProjectStore, user: Auth.SessionUser, projectId: string)
    returns (first: LoadOutcome, second: LoadOutcome)
    requires e.Valid()
    modifies e
    ensures e.Valid()
    ensures first == second
    ensures first == Loaded ==> user.id != "" && FindProject(store.saves, projectId, user.id).Some?
    ensures first == Loaded ==>
      var p := FindProject(store.saves, projectId, user.id).value;
      var once := Restore(p.building, old(e.nextId));
      && Cells(e.building) == Cells(once)
      && e.materials == (if p.materials.Some? then p.materials.value else Tally(once))
      && e.currentFloor == (if p.currentFloor != 0 then p.currentFloor else old(e.currentFloor))
      && e.budget == (if p.budget != 0.0 then p.budget else old(e.budget))
  {
    first := e.LoadProject(store, true, Some(user), projectId);
    ghost var mid := e.nextId;
    second := e.LoadProject(store, true, Some(user), projectId);
    if first == Loaded {
      ghost var p := FindProject(store.saves, projectId, user.id).value;
      ReloadSame(p.building, old(e.nextId), mid);
    }
  }
}
