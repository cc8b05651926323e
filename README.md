# A verified model of the 2D construction builder

This project models the editing core of a browser-based construction planner, written in Dafny.
The core is the 2D placement editor: users pick a material and click grid cells on a
5000 by 5000 canvas to place 40-unit blocks, one block per cell on each floor. The editor
keeps a count of each material and a live cost estimate. Its camera can zoom and pan, and
projects are saved, listed, loaded and deleted per user. The model also covers the small
user registry that the editor's persistence depends on: the demo password hash,
registration, login, the 24-hour session and the role queries.

The files follow the program's structure:

- `camera.dfy` (module `Camera`) is pure geometry:
  - mapping viewport points to canvas points;
  - snapping to the grid and the placement bounds check;
  - the wheel's zoom step, zooming around the pointer, the pan clamp and drag panning.
- `placement.dfy` (module `Placement`) holds values derived from the block list:
  - the block record, the per-material count index and its increment and decrement;
  - per-floor cell uniqueness and the inactive-floor flag;
  - the footprint statistics and the live cost.
- `projects.dfy` (module `Projects`) is the stored project record and the per-user project
  store. Save overwrites by name or appends, list filters, find and delete. This is a class
  over a sequence of records.
- `builder.dfy` (module `Builder`) holds the module-level state of the builder script as one
  class, `Editor`:
  - a method per event handler and editor operation;
  - the invariants those methods keep;
  - client methods that chain operations: two clicks at one point, place then remove, save then load, load twice.
- `auth.dfy` (module `Auth`) is the hash, the e-mail pattern, registration, login, and
  the session with its expiry. It is a `Registry` class over the user list and the session
  record.
- `wrappers.dfy` (module `Wrappers`) defines `Option` and `Result`.

Where the source's state changes in place, the model does the same:
- The editor's `building`, `materials`, modes, floor, camera and budget are fields of
  `Editor`.
- A loop in the source is a loop in the model, with its invariants:
  - the visibility pass over every block;
  - the rebuilding of blocks in a load;
  - the cost sum over the index;
  - the hash loop.

Each such method is proved against pure functions: `Tally`, `Restore`, `Upsert`, `Drop`,
`MapCost` and `HashString`. The source's promises are proved as lemmas about those
functions. Four invariants are kept by every operation except a load, which takes a stored
record as it is; a record this editor saved keeps them (`SaveLoadCellsUnique`, `SaveThenLoad`):
- `Valid`: flags in step with floors, fresh distinct ids, zoom in range, never both modes on.
- `Consistent`: the count index equals the tally of the blocks.
- `OnePerCell`: no two blocks share a cell on the same floor.
- `EmailsUnique`: in the registry, no two users share an e-mail address up to case.

A DOM element is identified only by itself, so each block carries a synthetic `id` instead.
The block's click handler is bound to that element, so `BlockClick` and `RemoveBlock` take
the id. Answers of the session provider (logged in, current user) are parameters of the
persistence operations. So are the clock, the new record id and the timestamps.

Where the code is easy to misread, the model follows the code:
- The click handler's bounds check refuses `x >= 5000 - 40`, so a snapped cell must lie in
  [0, 4920]. The last column and row of cells are refused, not only the cells that would
  stick out of the canvas (`Camera.WithinBounds`, `Camera.AcceptedCells`).
- `removeBlock` decrements the count of the kind its handler captured, whether or not a
  block was found. `RemoveBlock` states that, and `Consistent` is kept only when the found
  block has that kind. Every handler the script installs passes the block's own kind,
  which `BlockClick` models.
- A load prefers the record's stored `materials` object over the count rebuilt from its
  blocks. A record whose stored counts disagree with its blocks therefore loads an
  inconsistent index, so `ApplyProject` states the stored index as the result.
- A load rebuilds the stored blocks without the occupancy test of a placement. A record
  with two blocks on one cell of a floor therefore loads both, so `ApplyProject` keeps
  `Valid` but promises neither `Consistent` nor `OnePerCell` for an arbitrary record.

## Model

| member | source | states |
|---|---|---|
| `Camera.ToCanvas` | script/builder.js:623-624 | the canvas point `c` under viewport point `v` satisfies `v == pan + c * zoom` |
| `Camera.Snap` | script/builder.js:627-628 | the snapped coordinate is a multiple of 40, and the cell `[g, g + 40)` contains the point |
| `Camera.AcceptedCells` | script/builder.js:631 | the bounds check accepts exactly the snapped cells in [0, 4920]; a snapped cell is non-negative iff the point is |
| `Camera.SnapExample` | script/builder.js:623-631 | a click at (100, 100) with no pan at zoom 1 lands in cell (80, 80), which is accepted |
| `Camera.WithinBounds` | script/builder.js:631 | an accepted cell lies wholly on the canvas, and a cell starting at 4960 or beyond in either direction is refused |
| `Camera.NextZoom` | script/builder.js:656-657 | the new zoom stays in [0.3, 3.0]; it rises by 0.1 for `deltaY < 0` and falls by 0.1 otherwise; a step past a limit lands exactly on that limit; from a zoom in range it never moves the wrong way |
| `Camera.AnchoredPan` | script/builder.js:652-661 | the canvas point under the pointer is the same before and after the zoom change |
| `Camera.ClampPan` | script/builder.js:101-127 | the pan lies in `[view - extent * zoom, 0]` when the scaled canvas covers the view; a positive pan then becomes 0, and a pan below the lower bound becomes that bound; it is pinned to the positive bound when the canvas is narrower; it is unchanged when already in range |
| `Camera.ClampIdempotent` | script/builder.js:101-127 | clamping twice is clamping once |
| `Camera.DragAnchor` | script/builder.js:565-566 | the recorded anchor is the pointer's offset from the pan |
| `Camera.DragPan` | script/builder.js:573-574 | the dragged pan plus the anchor is the pointer |
| `Camera.DragFollowsPointer` | script/builder.js:558-578 | a drag moves the pan by exactly the pointer's displacement since the press, and not at all at the press point |
| `Placement.OrOne` | script/builder.js:988 | `n \|\| 1` is never 0, keeps non-zero values, and turns 0 into 1 |
| `Placement.Inactive` | script/builder.js:988-999 | a block with a recorded floor is inactive exactly when that floor is not the current one; a block without one counts as floor 1 |
| `Placement.Without` | script/builder.js:796-803 | `splice(i, 1)` shortens by one, keeps the elements before `i`, shifts those after, and removes exactly one occurrence of `s[i]` from the multiset |
| `Placement.FindBlock` | script/builder.js:789-803 | the first block with the id, or -1 exactly when none has it |
| `Placement.OccupiedAt` | script/builder.js:711-718 | the occupancy test: some block of the list has that cell and floor (proved about in `OccupiedAppend`) |
| `Placement.OccupiedAppend` | script/builder.js:711-764 | after a block is appended its own cell and floor are occupied, and no other cell becomes occupied |
| `Placement.CellsUniqueAppend` | script/builder.js:709-723 | appending to a cell free on its floor keeps one block per cell and floor |
| `Placement.CellsUniqueWithout` | script/builder.js:796-803 | removing a block keeps one block per cell and floor |
| `Placement.Inc` | script/builder.js:767-770 | the index with `t`'s count raised by one, a missing entry read as 0 (its effect is stated in `IncCounts`) |
| `Placement.Tally` | script/builder.js:764-770 | the index that replaying every placement's increment over the block list builds (related to the blocks' multiset in `TallyCount`) |
| `Placement.IncCounts` | script/builder.js:766-770 | after an increment the count of `t` is one higher and every other count is unchanged |
| `Placement.Dec` | script/builder.js:806-812 | a positive count drops by one, reaching zero deletes the entry, a zero count changes nothing, and other entries are untouched |
| `Placement.IncDecRoundTrip` | script/builder.js:766-770 | with no zero entries, an increment followed by a decrement of the same kind restores the index |
| `Placement.TallyNoZero` | script/builder.js:806-812 | an index rebuilt from blocks never holds a zero entry |
| `Placement.TallyEmpty` | script/builder.js:819-823 | the empty block list has the empty index |
| `Placement.SameCounts` | script/builder.js:806-812 | two indexes without zero entries that agree on every count are equal |
| `Placement.TallyCount` | script/builder.js:764-770 | the count of `t` in the index is the number of blocks of kind `t` |
| `Placement.TallyKinds` | script/builder.js:1317-1333 | the index depends only on the blocks' kinds in order |
| `Placement.TallyAppend` | script/builder.js:764-770 | placing a block bumps its kind's count by one |
| `Placement.TallyWithout` | script/builder.js:796-812 | removing block `i` lowers its kind's count by one, deleting the entry at zero |
| `Placement.PlaceRemoveRoundTrip` | script/builder.js:764-812 | placing a block with a fresh id and removing it again gives back the block list and the index |
| `Placement.MaxX` | script/builder.js:854 | the maximum x is at least every block's x and is some block's x |
| `Placement.MaxY` | script/builder.js:855 | the maximum y is at least every block's y and is some block's y |
| `Placement.Round` | script/builder.js:856 | `Math.round` lands within half a unit, halves rounding up |
| `Placement.SideQuotient` | script/builder.js:854-856 | `round(m / 30 + 1)` is the integer quotient `(m + 45) div 30` for every `m` |
| `Placement.Width` | script/builder.js:854-856 | the displayed width is 0 for no blocks, else `(max x + 45) div 30` |
| `Placement.Height` | script/builder.js:855-856 | the displayed height is 0 for no blocks, else `(max y + 45) div 30` |
| `Placement.FootprintBound` | script/builder.js:854-856 | blocks inside the accepted bounds give a footprint of at most 165 by 165 |
| `Placement.MapCostPick` | script/builder.js:858-862 | the cost sum does not depend on the order in which the entries are visited |
| `Placement.UnitCost` | script/builder.js:861 | `materialCosts[type] \|\| 0`: the table's unit cost, 0 for a kind the table lacks (summed in `MapCost`, `LiveCost`) |
| `Placement.MapCostInc` | script/builder.js:858-862 | one more block of a kind raises the live cost by that kind's unit cost (0 when missing from the table) |
| `Placement.TallyCost` | script/builder.js:858-862 | the live cost of a consistent index is the sum of the placed blocks' unit costs |
| `Placement.LiveCost` | script/builder.js:858-862 | the `forEach` sum over the index equals its cost sum |
| `Projects.RestoreIds` | script/builder.js:1317-1324 | rebuilt blocks get distinct ids `first, first + 1, ...` in storage order |
| `Projects.Snapshot` | script/builder.js:1159-1165 | one stored record per block in order, with its kind, cell and level; the floor is the block's own, or 1 when it has none, never 0 |
| `Projects.Restore` | script/builder.js:1311-1318 | the blocks a load rebuilds from stored records, with ids from `first` (their fields are stated in `RestoreFields` and `RestoreIds`) |
| `Projects.RestoreFields` | script/builder.js:1311-1318 | every rebuilt block keeps its stored kind and cell; `z \|\| 1` and `floor \|\| 1` leave no level or floor at 0 and keep every non-zero one |
| `Projects.RestoreStep` | script/builder.js:1269-1333 | restoring one more stored block appends exactly that block with the next id |
| `Projects.SaveLoadBlocks` | script/builder.js:1150-1166 | when no block has level or floor 0, the stored form read back gives the same block data in the same order, and the same index |
| `Projects.ReloadSame` | script/builder.js:1269-1333 | restoring the same data twice gives the same block data and index, whatever ids are used |
| `Projects.SaveLoadCellsUnique` | script/builder.js:1150-1166 | a saved and reloaded block list keeps one block per cell and floor |
| `Projects.FindByName` | script/builder.js:1172-1174 | the first record of this owner and name, or -1 exactly when there is none |
| `Projects.UpsertShape` | script/builder.js:1172-1182 | when the owner already has the name, the record goes to the first such index, the size stays and every other record, later ones of the same name included, is unchanged; otherwise it is appended after the unchanged store |
| `Projects.Upsert` | script/builder.js:1172-1182 | the new record is in the store, which grows by at most one (in place or appended, as `UpsertShape` states) |
| `Projects.UpsertKeepsOne` | script/builder.js:1172-1182 | after a save the owner has at least one record of that name, and a name with no record gets exactly one |
| `Projects.FindProject` | script/builder.js:1224-1225 | the first record with the id and the owner; nothing is found exactly when no record matches both |
| `Projects.SaveThenFind` | script/builder.js:1172-1182 | a record saved under a fresh id is the one a load by that id and owner finds |
| `Projects.FindUnique` | script/builder.js:1224-1225 | with a single record of that id, `find` returns it |
| `Projects.OwnedBy` | script/builder.js:1208 | the list holds exactly the owner's records and is no longer than the store |
| `Projects.OwnedByAppend` | script/builder.js:1208 | listing distributes over concatenation, so storage order is kept |
| `Projects.OwnedByUpdate` | script/builder.js:1177-1178 | overwriting another owner's record with another owner's record leaves a list unchanged |
| `Projects.SaveKeepsOthersLists` | script/builder.js:1172-1182 | a save by one user leaves every other user's list unchanged |
| `Projects.Drop` | script/builder.js:1363 | what remains is exactly the records that do not match both id and owner |
| `Projects.DropExact` | script/builder.js:1363 | delete keeps the other records in order and removes exactly the targeted count |
| `Projects.DropNothing` | script/builder.js:1363 | deleting an id nobody has leaves the store unchanged |
| `Projects.ProjectStore.List` | script/builder.js:1197-1209 | without a session, no records; otherwise exactly the user's records in storage order |
| `Projects.ProjectStore.Delete` | script/builder.js:1350-1374 | fails only without a session user id; otherwise drops the matching records, and succeeds even when none matched |
| `Builder.PlaceKeeps` | script/builder.js:709-770 | appending a fresh block to a free cell keeps the flags, the ids, the index and cell uniqueness |
| `Builder.RemoveKeeps` | script/builder.js:789-812 | removing block `i` keeps the flags, the ids, the index and cell uniqueness |
| `Builder.RebuildStep` | script/builder.js:1269-1333 | one step of the load loop keeps the loop's invariant |
| `Builder.RestoreFresh` | script/builder.js:1317-1324 | restored blocks have fresh distinct ids and a non-zero level |
| `Builder.Editor.constructor` | script/builder.js:1-60 | the initial editor is empty on floor 1 at zoom 1 and satisfies all invariants |
| `Builder.Editor.HasSelection` | script/builder.js:612 | a material is selected: `selectedMaterialType` holds a non-empty string |
| `Builder.Editor.SelectMaterial` | script/builder.js:475-478 | selects the material, turns placement mode on and delete mode off |
| `Builder.Editor.ToggleDeleteMode` | script/builder.js:867-870 | flips delete mode and always clears placement mode and the selection |
| `Builder.Editor.RefreshVisibility` | script/builder.js:985-1000 | every block's flag becomes "floor (`\|\| 1`) is not the current floor" |
| `Builder.Editor.SwitchFloor` | script/builder.js:951-962 | the floor becomes `f`, and a block is inactive exactly when its floor is not `f`; the blocks are unchanged |
| `Builder.Editor.PlaceMaterial` | script/builder.js:672-778 | refused while a placement is in flight; refused, with the guard released, on a cell taken on the current floor; otherwise exactly one block at level 1 on the current floor is appended and exactly its kind's count rises; the invariants are kept |
| `Builder.Editor.ReleasePlacing` | script/builder.js:775-777 | the delayed reset clears the in-flight guard and keeps the editor invariant |
| `Builder.Editor.CanvasClick` | script/builder.js:595-636 | ignored exactly when panning, on a block, with zoom on, or without a selection in placement mode; refused exactly when the snapped cell is out of bounds; otherwise the placement's outcome at the snapped cell: busy exactly when a placement is in flight, occupied with the guard released, or placed with the guard held, the block appended and its count raised |
| `Builder.Editor.RemoveBlock` | script/builder.js:781-816 | the block with the element leaves the list if present; the captured kind's count is decremented; the index stays consistent when the kinds agree |
| `Builder.Editor.BlockClick` | script/builder.js:752-758 | removes exactly when delete mode is on and the block is on the current floor, taking one copy out of the multiset; otherwise nothing changes |
| `Builder.Editor.Clear` | script/builder.js:819-831 | every block on every floor goes and the index empties |
| `Builder.Editor.Wheel` | script/builder.js:639-666 | with zoom not disabled, steps the zoom, keeps the point under the pointer fixed, then clamps the pan; with zoom disabled, nothing changes |
| `Builder.Editor.MouseDown` | script/builder.js:558-569 | with zoom enabled, a left press starts a pan and records the anchor; otherwise nothing changes |
| `Builder.Editor.MouseMove` | script/builder.js:571-578 | during a pan, the pan follows the pointer from the anchor and is clamped; otherwise unchanged |
| `Builder.Editor.MouseUp` | script/builder.js:580-592 | release and leave end the pan |
| `Builder.Editor.CurrentStats` | script/builder.js:835-864 | the block count, the footprint width and height; a live cost equal to the cost sum of the index, and to the blocks' unit-cost sum when consistent |
| `Builder.Editor.SnapshotRecord` | script/builder.js:1150-1166 | the record a save writes: its owner and name, version 1.0, the budget and floor, a copy of the index and the snapshot of the blocks |
| `Builder.Editor.SaveProject` | script/builder.js:1101-1194 | each guard's outcome in order: no session, no user id, nothing placed, no name; otherwise the snapshot is stored by overwrite-or-append and the editor is untouched |
| `Builder.Editor.Rebuild` | script/builder.js:1269-1333 | the block list becomes the stored blocks in order, with fresh ids and `\|\| 1` defaults; flags and index follow |
| `Builder.Editor.ApplyProject` | script/builder.js:1241-1347 | budget and floor are restored when non-zero, blocks are rebuilt, the stored index is preferred, and `Valid` is kept |
| `Builder.Editor.LoadProject` | script/builder.js:1212-1347 | each failure outcome leaves the editor unchanged; the load succeeds exactly when a session user owns a record with the id, and then applies it |
| `Builder.PlaceThenRemove` | script/builder.js:672-816 | placing on a free cell and removing that block restores the block list and the index |
| `Builder.ClickTwice` | script/builder.js:670-677 | a second click before the guard is released is refused as busy, so two clicks place at most one block |
| `Builder.ClickFilledCell` | script/builder.js:711-723 | a click that reaches a cell already filled on the current floor is refused as occupied, releases the guard, and changes neither the blocks nor the index |
| `Builder.ClickReleaseClick` | script/builder.js:670-723 | after the guard is released, a second click on the cell the first one filled is refused as occupied and releases the guard |
| `Builder.SaveThenLoad` | script/builder.js:1101-1347 | saving under a fresh id and loading it back keeps the block data, the index, the floor and the budget |
| `Builder.LoadTwice` | script/builder.js:1212-1347 | loading the same record twice gives the same outcome and the state one load gives |
| `Auth.WrapInt32` | script/auth.js:13 | ToInt32 lands in [-2^31, 2^31) and agrees with the argument modulo 2^32 |
| `Auth.ShiftStepIsStep` | script/auth.js:12-13 | the shift-subtract-add step equals `31 * h + c` wrapped to 32 bits |
| `Auth.ShiftStep` | script/auth.js:12-13 | the loop's step as written stays a signed 32-bit integer |
| `Auth.HashAcc` | script/auth.js:8-14 | the accumulator stays a signed 32-bit value |
| `Auth.Hex` | script/auth.js:15 | `toString(16)` is never empty |
| `Auth.HexRoundTrip` | script/auth.js:15 | reading the numeral back gives the number |
| `Auth.HexCanonical` | script/auth.js:15 | no leading zero except for 0 itself, and only lower-case hex digits |
| `Auth.HashLength` | script/auth.js:8-16 | a password hash has 1 to 8 characters |
| `Auth.HashString` | script/auth.js:8-16 | the hash is a hex numeral whose value is the absolute value of the 32-bit accumulator |
| `Auth.HashEmpty` | script/auth.js:8-16 | the empty password hashes to "0" |
| `Auth.HashCollision` | script/auth.js:8-16 | "Aa" and "BB" have the same hash, so the hash is not injective |
| `Auth.SimpleHash` | script/auth.js:8-16 | the loop computes the hex numeral of the absolute 32-bit accumulator |
| `Auth.IndexOf` | script/auth.js:152 | the first index of the character, or -1 exactly when it is absent |
| `Auth.EmailOkMatches` | script/auth.js:152-153 | whatever the scan accepts, the regular expression matches |
| `Auth.EmailPattern` | script/auth.js:152-153 | the regular expression as a predicate: a plain run, `@`, a plain run, `.`, a plain run, covering the whole string |
| `Auth.EmailOk` | script/auth.js:152-153 | the same test as a scan from the first `@` (equal to the pattern by `EmailOkMatches` and `PatternIsEmailOk`) |
| `Auth.PatternIsEmailOk` | script/auth.js:152-153 | whatever the regular expression matches, the scan accepts |
| `Auth.EmailOkIsPattern` | script/auth.js:152-153 | the scan accepts exactly the strings of the form plain `@` plain `.` plain |
| `Auth.ToLower` | script/auth.js:161-168 | lower-casing keeps the length and maps each character |
| `Auth.ToLowerIdempotent` | script/auth.js:161-168 | lower-casing twice is lower-casing once |
| `Auth.SameEmail` | script/auth.js:161 | two addresses match exactly when they have the same length and agree character by character after lower-casing |
| `Auth.FindByEmail` | script/auth.js:196 | the first user with the same e-mail up to case, or -1 exactly when there is none |
| `Auth.Utf16Length` | script/auth.js:147 | `length` counts UTF-16 code units: at least one and at most two per character, exactly one each when no character lies outside the Basic Multilingual Plane |
| `Auth.Utf16Example` | script/auth.js:147 | three emoji are three characters but six code units, so they pass the six-character rule |
| `Auth.RegisterError` | script/auth.js:137-163 | registration may go ahead exactly when all fields are given, the type is customer or admin, the password has 6 or more UTF-16 code units, the e-mail matches the pattern, and no user has that e-mail up to case; each check's message is returned exactly when the earlier checks pass and that one fails |
| `Auth.NewUser` | script/auth.js:166-174 | the new record has the lower-cased e-mail, the hashed password and no projects |
| `Auth.Authenticate` | script/auth.js:186-211 | succeeds exactly for given fields, a known e-mail and a matching hash, returning that user; empty fields and a failed login each get their own message |
| `Auth.LoginFailureUniform` | script/auth.js:197-205 | an unknown e-mail and a wrong password are refused with the same message |
| `Auth.MakeSession` | script/auth.js:117-128 | the session copies id, e-mail and name, defaults the role to customer, and expires 86400000 ms later |
| `Auth.SessionWindow` | script/auth.js:117-128 | a fresh session is live exactly up to 24 hours after login |
| `Auth.Live` | script/auth.js:89 | a session is live until its expiry instant inclusive, as `Date.now() > expires` ends it (its window is stated in `SessionWindow`) |
| `Auth.RegisterThenLogin` | script/auth.js:137-211 | after a registration that passes validation, the same e-mail and password log in as the new user |
| `Auth.RegisterKeepsUnique` | script/auth.js:161-177 | appending a user whose e-mail is not taken keeps e-mails unique up to case |
| `Auth.Registry.Register` | script/auth.js:137-183 | the first failing check's message, with the users unchanged; or the new record appended and the success message; e-mail uniqueness is kept |
| `Auth.Registry.Login` | script/auth.js:186-211 | succeeds exactly when `Authenticate` does, then writes that user's session; otherwise the session is unchanged |
| `Auth.Registry.Logout` | script/auth.js:131-134 | the session is removed |
| `Auth.Registry.IsLoggedIn` | script/auth.js:82-97 | true exactly for a live session; an expired session is removed |
| `Auth.Registry.GetCurrentUser` | script/auth.js:100-114 | the session's user while live; none otherwise, with an expired session removed |
| `Auth.Registry.IsAdmin` | script/auth.js:214-217 | true exactly for a live session whose user is an admin; a live session is kept and an expired one is removed |
| `Auth.Registry.IsCustomer` | script/auth.js:220-223 | true exactly for a live session whose user is a customer; a live session is kept and an expired one is removed |

## Left out

- The DOM is not modelled: element creation, styling, icons, colours, the placeholder, toasts, the SweetAlert2 dialogs and their fallbacks. A block's element is only its identity (`id`), and the inactive-floor class is the `inactive` flag.
- The orphan filter at the start of `place2DMaterial`, and the occupancy check's skip of blocks without a live element, are not modelled: in the model every block's element is attached.
- The early returns when the build area or canvas container element is missing are not modelled.
- `PlaceMaterial` and `ReleasePlacing`: the 100 ms timer that resets the placement guard is its own operation, `ReleasePlacing`, to be called by the environment; time is not modelled.
- Browser storage, JSON encoding and decoding, `fetch` of the users file and parse errors are not modelled. The user list and saved-projects array are in-memory sequences, and a stored value that fails to parse is not represented.
- `Builder.Editor.SaveProject` and `Projects.ProjectStore.Delete` do not model a failed storage write; the save and delete always write.
- The project-name prompt is the `name` parameter. An empty name stands for a cancelled prompt.
- The budget input's `parseFloat` is not modelled: the budget is a real field.
- `Builder.Editor.SwitchFloor` takes the parsed floor number; a non-numeric selector value (NaN) is not modelled.
- Coordinates, zoom and pan are exact reals, not IEEE doubles. So `0.1` zoom steps do not accumulate rounding error, and `Math.floor` and `Math.round` are exact.
- JavaScript's falsy numbers (`NaN`, `0`, missing) in `|| 1`, `if (project.budget)` and `if (project.currentFloor)` are modelled as 0 only.
- `Auth.ToLower` lower-cases only ASCII letters; `toLowerCase` also maps other scripts.
- `Auth.SimpleHash` reads each character's code point, where `charCodeAt` reads UTF-16 code units. The two differ only for characters outside the Basic Multilingual Plane.
- `Auth.Registry.Logout` does not model the redirect to the home page, nor the redirect triggered when `IsLoggedIn` or `GetCurrentUser` find an expired session.
- `Auth.Registry.Register` stores whatever id and creation time it is given; `Date.now().toString()` and `toISOString()` are parameters.
- The results of `isAdmin` and `isCustomer` are booleans; the source returns `null` without a user.
- These are not part of this model, being outside the editor core:
  - the cost calculator (`calculateProject`) and the blueprint estimate (`estimateFromBlueprint`);
  - `finalize2DProject` and the legacy `save2DProject`;
  - the camera capture functions;
  - the manual builder and the admin pages.
