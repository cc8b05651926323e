/**
 * The camera of the 2D builder: the map from viewport points to canvas points
 * under a pan offset and a zoom factor, snapping to the 40-unit grid, the
 * placement bounds check, the wheel's zoom step, zoom-to-point and the pan clamp.
 * Coordinates are exact reals here, where the browser uses doubles.
 */
module Camera {

  /** The logical canvas is 5000 by 5000 units. */
  const CanvasWidth: int := 5000
  const CanvasHeight: int := 5000
  /** All placements snap to the origin of a 40-unit grid cell. */
  const CellSize: int := 40
  /** Zoom stays within [0.3, 3.0] and moves in steps of 0.1. */
  const MinZoom: real := 0.3
  const MaxZoom: real := 3.0
  const ZoomStep: real := 0.1

  function Min(a: real, b: real): real { if a <= b then a else b }
  function Max(a: real, b: real): real { if a >= b then a else b }

  /** The canvas coordinate under viewport coordinate `v`: `(v - pan) / zoom`. */
  function ToCanvas(v: real, pan: real, zoom: real): (c: real)
    requires zoom > 0.0
    ensures v == pan + c * zoom
  {
    (v - pan) / zoom
  }

  /** `Math.floor(c / 40) * 40`: the origin of the grid cell that holds `c`. */
  function Snap(c: real): (g: int)
    ensures g % CellSize == 0
    ensures g as real <= c < (g + CellSize) as real
  {
    var q := (c / CellSize as real).Floor;
    assert q as real <= c / 40.0 < q as real + 1.0;
    q * CellSize
  }

  /**
   * The click handler's bounds check on a snapped point. As written it refuses
   * `x >= CanvasWidth - CellSize`, so the last column and row of cells are refused too.
   */
  predicate WithinBounds(x: int, y: int)
    ensures WithinBounds(x, y) ==> 0 <= x && x + CellSize < CanvasWidth && 0 <= y && y + CellSize < CanvasHeight
    ensures x >= CanvasWidth - CellSize || y >= CanvasHeight - CellSize ==> !WithinBounds(x, y)
  {
    !(x < 0 || y < 0 || x >= CanvasWidth - CellSize || y >= CanvasHeight - CellSize)
  }

  /** The snapped cells the bounds check accepts are the multiples of 40 in [0, 4920]. */
  lemma AcceptedCells(c: real)
    ensures var g := Snap(c);
      (0 <= g < CanvasWidth - CellSize) <==> (0 <= g <= 4920)
    ensures Snap(c) >= 0 <==> c >= 0.0
  {
  }

  /** A click at viewport (100, 100) with no pan at zoom 1 lands in cell (80, 80). */
  lemma SnapExample()
    ensures Snap(ToCanvas(100.0, 0.0, 1.0)) == 80
    ensures WithinBounds(80, 80)
  {
    assert ToCanvas(100.0, 0.0, 1.0) == 100.0;
    var g := Snap(100.0);
    assert g as real <= 100.0 < (g + 40) as real && g % 40 == 0;
  }

  /** The wheel's new zoom: 0.1 up when `deltaY < 0`, otherwise 0.1 down, clamped. */
  function NextZoom(zoom: real, deltaY: real): (z: real)
    ensures MinZoom <= z <= MaxZoom
    ensures deltaY < 0.0 && MinZoom <= zoom + ZoomStep <= MaxZoom ==> z == zoom + ZoomStep
    ensures deltaY >= 0.0 && MinZoom <= zoom - ZoomStep <= MaxZoom ==> z == zoom - ZoomStep
    ensures MinZoom <= zoom <= MaxZoom ==> (deltaY < 0.0 ==> z >= zoom) && (deltaY >= 0.0 ==> z <= zoom)
    ensures deltaY < 0.0 && zoom + ZoomStep > MaxZoom ==> z == MaxZoom
    ensures deltaY < 0.0 && zoom + ZoomStep < MinZoom ==> z == MinZoom
    ensures deltaY >= 0.0 && zoom - ZoomStep < MinZoom ==> z == MinZoom
    ensures deltaY >= 0.0 && zoom - ZoomStep > MaxZoom ==> z == MaxZoom
  {
    var delta := if deltaY < 0.0 then ZoomStep else -ZoomStep;
    Min(MaxZoom, Max(MinZoom, zoom + delta))
  }

  /**
   * The pan that keeps the canvas point under the pointer fixed while the zoom
   * changes from `zoom` to `newZoom`: `mouse - zoomPoint * newZoom`.
   */
  function AnchoredPan(mouse: real, pan: real, zoom: real, newZoom: real): (p: real)
    requires zoom > 0.0 && newZoom > 0.0
    ensures ToCanvas(mouse, p, newZoom) == ToCanvas(mouse, pan, zoom)
  {
    var point := ToCanvas(mouse, pan, zoom);
    var p := mouse - point * newZoom;
    assert mouse - p == point * newZoom;
    p
  }

  /**
   * `constrainPan` for one axis: `max(view - extent * zoom, min(0, pan))`.
   * When the scaled canvas is narrower than the viewport, the result is the
   * positive bound `view - extent * zoom` whatever the pan.
   */
  function ClampPan(pan: real, view: real, extent: int, zoom: real): (p: real)
    ensures view - extent as real * zoom <= p
    ensures p <= 0.0 || p == view - extent as real * zoom
    ensures extent as real * zoom >= view ==> view - extent as real * zoom <= p <= 0.0
    ensures extent as real * zoom < view ==> p == view - extent as real * zoom
    ensures view - extent as real * zoom <= pan <= 0.0 ==> p == pan
    ensures extent as real * zoom >= view && pan > 0.0 ==> p == 0.0
    ensures pan < view - extent as real * zoom ==> p == view - extent as real * zoom
  {
    Max(view - extent as real * zoom, Min(0.0, pan))
  }

  /** Clamping a clamped pan changes nothing. */
  lemma ClampIdempotent(pan: real, view: real, extent: int, zoom: real)
    ensures ClampPan(ClampPan(pan, view, extent, zoom), view, extent, zoom) == ClampPan(pan, view, extent, zoom)
  {
  }

  /** The anchor a press records: `pointer - pan`. */
  function DragAnchor(pointer: real, pan: real): (a: real)
    ensures pointer == pan + a
  {
    pointer - pan
  }

  /** The pan a drag sets before clamping: `pointer - anchor`. */
  function DragPan(pointer: real, anchor: real): (p: real)
    ensures p + anchor == pointer
  {
    pointer - anchor
  }

  /** A drag moves the pan by exactly the pointer's displacement since the press. */
  lemma DragFollowsPointer(press: real, pan: real, pointer: real)
    ensures DragPan(pointer, DragAnchor(press, pan)) == pan + (pointer - press)
    ensures DragPan(press, DragAnchor(press, pan)) == pan
  {
  }
}
