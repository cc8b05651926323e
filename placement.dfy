/**
 * The placement set of the 2D builder and what is derived from it: blocks with
 * a synthetic identity in place of their DOM element, the material-count index,
 * per-floor cell occupancy, the floor visibility flag and the live statistics.
 */
module Placement {

  /** One placed material; `id` stands for the DOM element that identified it. */
  datatype Block = Block(id: nat, kind: string, x: int, y: int, z: int, floor: int)

  /** JavaScript's `n || 1` on a number: zero (or a missing value) becomes 1. */
  function OrOne(n: int): (r: int)
    ensures r != 0
    ensures n != 0 ==> r == n
    ensures n == 0 ==> r == 1
  {
    if n == 0 then 1 else n
  }

  /** A block is shown as inactive when its floor (`|| 1`) is not the current floor. */
  predicate Inactive(floor: int, current: int)
    ensures floor != 0 ==> (Inactive(floor, current) <==> floor != current)
    ensures floor == 0 ==> (Inactive(floor, current) <==> current != 1)
  {
    OrOne(floor) != current
  }

  /** The sequence with its element at `i` taken out, as `splice(i, 1)` does. */
  function Without<T>(s: seq<T>, i: nat): (r: seq<T>)
    requires i < |s|
    ensures |r| == |s| - 1
    ensures forall j :: 0 <= j < i ==> r[j] == s[j]
    ensures forall j :: i <= j < |r| ==> r[j] == s[j + 1]
    ensures multiset(r) + multiset{s[i]} == multiset(s)
  {
    assert s == s[..i] + [s[i]] + s[i + 1..];
    s[..i] + s[i + 1..]
  }

  /** `findIndex` by identity: the first block with this id, or -1. */
  function FindBlock(bs: seq<Block>, id: nat): (r: int)
    ensures -1 <= r < |bs|
    ensures r >= 0 ==> bs[r].id == id && forall j :: 0 <= j < r ==> bs[j].id != id
    ensures r == -1 <==> forall j :: 0 <= j < |bs| ==> bs[j].id != id
  {
    if bs == [] then -1
    else if bs[0].id == id then 0
    else
      var k := FindBlock(bs[1..], id);
      if k < 0 then -1 else k + 1
  }

  /** The ids of all blocks are distinct. */
  ghost predicate IdsUnique(bs: seq<Block>)
  {
    forall i, j :: 0 <= i < j < |bs| ==> bs[i].id != bs[j].id
  }

  /** Some block sits at cell (x, y) of floor `f`: the placement's occupancy test. */
  predicate OccupiedAt(bs: seq<Block>, x: int, y: int, f: int)
  {
    exists i :: 0 <= i < |bs| && bs[i].x == x && bs[i].y == y && bs[i].floor == f
  }

  /** After a block is appended its cell is occupied on its floor, and no other cell becomes occupied. */
  lemma OccupiedAppend(bs: seq<Block>, b: Block, x: int, y: int, f: int)
    ensures OccupiedAt(bs + [b], x, y, f) <==> OccupiedAt(bs, x, y, f) || (b.x == x && b.y == y && b.floor == f)
  {
    var s := bs + [b];
    if OccupiedAt(bs, x, y, f) {
      var i :| 0 <= i < |bs| && bs[i].x == x && bs[i].y == y && bs[i].floor == f;
      assert s[i] == bs[i];
    }
    if b.x == x && b.y == y && b.floor == f {
      assert s[|bs|] == b;
    }
    if OccupiedAt(s, x, y, f) {
      var i :| 0 <= i < |s| && s[i].x == x && s[i].y == y && s[i].floor == f;
      if i < |bs| {
        assert s[i] == bs[i];
      }
    }
  }

  /** At most one block per (x, y, floor): the same cell may be used once on each floor. */
  ghost predicate CellsUnique(bs: seq<Block>)
  {
    forall i, j :: 0 <= i < j < |bs| ==>
      !(bs[i].x == bs[j].x && bs[i].y == bs[j].y && bs[i].floor == bs[j].floor)
  }

  /** Appending a block to a free cell keeps cells unique. */
  lemma CellsUniqueAppend(bs: seq<Block>, b: Block)
    requires !OccupiedAt(bs, b.x, b.y, b.floor)
    ensures CellsUnique(bs) ==> CellsUnique(bs + [b])
  {
    if CellsUnique(bs) {
      var s := bs + [b];
      forall i, j | 0 <= i < j < |s|
        ensures !(s[i].x == s[j].x && s[i].y == s[j].y && s[i].floor == s[j].floor)
      {
        if j == |bs| {
          assert s[i] == bs[i];
        }
      }
    }
  }

  /** Taking a block out keeps cells unique. */
  lemma CellsUniqueWithout(bs: seq<Block>, i: nat)
    requires i < |bs| && CellsUnique(bs)
    ensures CellsUnique(Without(bs, i))
  {
  }

  // ---------------------------------------------------------------------
  // The material-count index (`materials2D`).

  /** The material kinds of the blocks, in order. */
  function Kinds(bs: seq<Block>): (ks: seq<string>)
    ensures |ks| == |bs|
    ensures forall i :: 0 <= i < |bs| ==> ks[i] == bs[i].kind
  {
    seq(|bs|, i requires 0 <= i < |bs| => bs[i].kind)
  }

  /** The count index a placement set determines: each block, in order, counted by `Inc`. */
  function Tally(bs: seq<Block>): map<string, nat>
  {
    if bs == [] then map[] else Inc(Tally(bs[..|bs| - 1]), bs[|bs| - 1].kind)
  }

  /** A count of zero for `t` when `t` has no entry, as `materials2D[t]` reads. */
  function Count(m: map<string, nat>, t: string): nat
  {
    if t in m then m[t] else 0
  }

  /** The index holds no zero entries (the editor deletes an entry that reaches 0). */
  ghost predicate NoZeroEntries(m: map<string, nat>)
  {
    forall t :: t in m ==> m[t] > 0
  }

  /** `if (!m[t]) m[t] = 0; m[t]++`: one more of kind `t`, nothing else changes. */
  function Inc(m: map<string, nat>, t: string): map<string, nat>
  {
    m[t := Count(m, t) + 1]
  }

  /** After `Inc(m, t)` the count of `t` is one higher, every other count is as before. */
  lemma IncCounts(m: map<string, nat>, t: string)
    ensures Inc(m, t).Keys == m.Keys + {t}
    ensures Count(Inc(m, t), t) == Count(m, t) + 1
    ensures forall u :: u != t ==> Count(Inc(m, t), u) == Count(m, u)
  {
  }

  /**
   * `if (m[t] > 0) { m[t]--; if (m[t] === 0) delete m[t]; }`: one fewer of kind `t`,
   * the entry removed when it reaches zero, and nothing at all when there was none.
   */
  function Dec(m: map<string, nat>, t: string): (r: map<string, nat>)
    ensures Count(m, t) > 0 ==> Count(r, t) == Count(m, t) - 1
    ensures Count(m, t) == 0 ==> r == m
    ensures Count(m, t) == 1 ==> t !in r
    ensures forall u :: u != t ==> (u in r <==> u in m)
    ensures forall u :: u != t && u in m ==> r[u] == m[u]
  {
    if Count(m, t) > 0 then
      if m[t] - 1 == 0 then m - {t} else m[t := m[t] - 1]
    else m
  }

  /** Incrementing then decrementing the same kind restores an index without zero entries. */
  lemma IncDecRoundTrip(m: map<string, nat>, t: string)
    requires NoZeroEntries(m)
    ensures Dec(Inc(m, t), t) == m
  {
    var r := Dec(Inc(m, t), t);
    assert r.Keys == m.Keys;
  }

  /** A tally never holds a zero entry. */
  lemma {:induction false} TallyNoZero(bs: seq<Block>)
    ensures NoZeroEntries(Tally(bs))
  {
    if bs != [] {
      TallyNoZero(bs[..|bs| - 1]);
      IncCounts(Tally(bs[..|bs| - 1]), bs[|bs| - 1].kind);
    }
  }

  /** The empty placement set has the empty index. */
  lemma TallyEmpty()
    ensures Tally([]) == map[]
  {
  }

  /** Two indexes without zero entries that agree on every count are the same map. */
  lemma SameCounts(l: map<string, nat>, r: map<string, nat>)
    requires NoZeroEntries(l) && NoZeroEntries(r)
    requires forall t :: Count(l, t) == Count(r, t)
    ensures l == r
  {
    assert forall t :: t in l <==> Count(l, t) > 0;
    assert forall t :: t in r <==> Count(r, t) > 0;
    assert l.Keys == r.Keys;
  }

  /** The count of `t` in a tally is the number of blocks of kind `t`. */
  lemma {:induction false} TallyCount(bs: seq<Block>, t: string)
    ensures Count(Tally(bs), t) == multiset(Kinds(bs))[t]
  {
    if bs != [] {
      var init := bs[..|bs| - 1];
      TallyCount(init, t);
      IncCounts(Tally(init), bs[|bs| - 1].kind);
      assert Kinds(bs) == Kinds(init) + [bs[|bs| - 1].kind];
    }
  }

  /** The index depends only on the kinds of the blocks, in order. */
  lemma {:induction false} TallyKinds(a: seq<Block>, b: seq<Block>)
    requires Kinds(a) == Kinds(b)
    ensures Tally(a) == Tally(b)
  {
    if a != [] {
      var n := |a|;
      assert Kinds(a[..n - 1]) == Kinds(a)[..n - 1] == Kinds(b)[..n - 1] == Kinds(b[..n - 1]);
      TallyKinds(a[..n - 1], b[..n - 1]);
      assert a[n - 1].kind == Kinds(a)[n - 1] == b[n - 1].kind;
    }
  }

  /** Placing a block bumps its kind's count by one and no other. */
  lemma TallyAppend(bs: seq<Block>, b: Block)
    ensures Tally(bs + [b]) == Inc(Tally(bs), b.kind)
  {
    assert (bs + [b])[..|bs|] == bs;
  }

  /** Removing block `i` lowers its kind's count by one (dropping the entry at zero). */
  lemma {:induction false} TallyWithout(bs: seq<Block>, i: nat)
    requires i < |bs|
    ensures Tally(Without(bs, i)) == Dec(Tally(bs), bs[i].kind)
  {
    var rest := Without(bs, i);
    assert Kinds(bs) == Kinds(bs)[..i] + [bs[i].kind] + Kinds(bs)[i + 1..];
    assert Kinds(rest) == Kinds(bs)[..i] + Kinds(bs)[i + 1..];
    assert multiset(Kinds(bs)) == multiset(Kinds(rest)) + multiset{bs[i].kind};
    var l, r := Tally(rest), Dec(Tally(bs), bs[i].kind);
    forall t ensures Count(l, t) == Count(r, t) {
      TallyCount(rest, t);
      TallyCount(bs, t);
    }
    TallyNoZero(rest);
    TallyNoZero(bs);
    SameCounts(l, r);
  }

  /** Placing `b` and then removing it again restores the set and the index exactly. */
  lemma PlaceRemoveRoundTrip(bs: seq<Block>, m: map<string, nat>, b: Block)
    requires m == Tally(bs)
    requires forall j :: 0 <= j < |bs| ==> bs[j].id != b.id
    ensures FindBlock(bs + [b], b.id) == |bs|
    ensures Without(bs + [b], |bs|) == bs
    ensures Dec(Inc(m, b.kind), b.kind) == m
  {
    var s := bs + [b];
    var k := FindBlock(s, b.id);
    assert s[|bs|].id == b.id;
    assert k != -1;
    assert forall j :: 0 <= j < |bs| ==> s[j] == bs[j];
    assert s[..|bs|] == bs;
    TallyNoZero(bs);
    IncDecRoundTrip(m, b.kind);
  }

  // ---------------------------------------------------------------------
  // Statistics (`update2DStats`).

  /** `Math.max(...bs.map(b => b.x))`. */
  function MaxX(bs: seq<Block>): (r: int)
    requires |bs| > 0
    ensures forall i :: 0 <= i < |bs| ==> bs[i].x <= r
    ensures exists i :: 0 <= i < |bs| && bs[i].x == r
  {
    if |bs| == 1 then bs[0].x
    else
      var rest := MaxX(bs[1..]);
      assert forall i :: 1 <= i < |bs| ==> bs[i] == bs[1..][i - 1];
      if bs[0].x >= rest then bs[0].x else rest
  }

  /** `Math.max(...bs.map(b => b.y))`. */
  function MaxY(bs: seq<Block>): (r: int)
    requires |bs| > 0
    ensures forall i :: 0 <= i < |bs| ==> bs[i].y <= r
    ensures exists i :: 0 <= i < |bs| && bs[i].y == r
  {
    if |bs| == 1 then bs[0].y
    else
      var rest := MaxY(bs[1..]);
      assert forall i :: 1 <= i < |bs| ==> bs[i] == bs[1..][i - 1];
      if bs[0].y >= rest then bs[0].y else rest
  }

  /** `Math.round`: halves round up, toward positive infinity. */
  function Round(v: real): (n: int)
    ensures n as real - 0.5 <= v < n as real + 0.5
  {
    (v + 0.5).Floor
  }

  /** The footprint side for a largest coordinate `m`: `round(m / 30 + 1)`. */
  function Side(m: int): int
  {
    Round(m as real / 30.0 + 1.0)
  }

  /** The rounded side is the integer quotient `(m + 45) div 30`, for every `m`. */
  lemma SideQuotient(m: int)
    ensures Side(m) == (m + 45) / 30
  {
    var q, r := (m + 45) / 30, (m + 45) % 30;
    assert m + 45 == 30 * q + r && 0 <= r < 30;
    assert m as real / 30.0 + 1.0 + 0.5 == q as real + r as real / 30.0;
    assert 0.0 <= r as real / 30.0 < 1.0;
  }

  /** The footprint width: 0 for an empty set, else the side for the largest x. */
  function Width(bs: seq<Block>): (w: int)
    ensures bs == [] ==> w == 0
    ensures bs != [] ==> w == (MaxX(bs) + 45) / 30
  {
    if bs == [] then 0 else SideQuotient(MaxX(bs)); Side(MaxX(bs))
  }

  /** The footprint height: 0 for an empty set, else the side for the largest y. */
  function Height(bs: seq<Block>): (h: int)
    ensures bs == [] ==> h == 0
    ensures bs != [] ==> h == (MaxY(bs) + 45) / 30
  {
    if bs == [] then 0 else SideQuotient(MaxY(bs)); Side(MaxY(bs))
  }

  /** Blocks on the grid inside the accepted bounds give a footprint of at most 165 by 165. */
  lemma FootprintBound(bs: seq<Block>)
    requires forall i :: 0 <= i < |bs| ==> 0 <= bs[i].x <= 4920 && 0 <= bs[i].y <= 4920
    ensures 0 <= Width(bs) <= 165 && 0 <= Height(bs) <= 165
  {
  }

  /** The unit cost table (`materialCosts`). */
  const MaterialCosts: map<string, nat> := map[
    "block" := 14, "steel" := 300, "roof" := 180,
    "tile" := 300, "wood" := 650, "door" := 8000, "window" := 5000,
    "cement" := 240, "sand" := 2400, "gravel" := 3500,
    "plywood" := 1140, "metal_sheet" := 312, "ceramic_tile" := 250, "tile_adhesive" := 400]

  /** `costs[t] || 0`: a kind missing from the table costs nothing. */
  function UnitCost(costs: map<string, nat>, t: string): nat
  {
    if t in costs then costs[t] else 0
  }

  /** The live cost of an index: the sum of unit cost times count over its entries. */
  ghost function MapCost(costs: map<string, nat>, m: map<string, nat>): nat
    decreases |m|
  {
    if m == map[] then 0
    else
      var t :| t in m;
      UnitCost(costs, t) * m[t] + MapCost(costs, m - {t})
  }

  /** The sum does not depend on which entry is taken first. */
  lemma {:induction false} MapCostPick(costs: map<string, nat>, m: map<string, nat>, t: string)
    requires t in m
    ensures MapCost(costs, m) == UnitCost(costs, t) * m[t] + MapCost(costs, m - {t})
    decreases |m|
  {
    var u :| u in m && MapCost(costs, m) == UnitCost(costs, u) * m[u] + MapCost(costs, m - {u});
    if u != t {
      assert (m - {u})[t] == m[t] && (m - {t})[u] == m[u];
      MapCostPick(costs, m - {u}, t);
      MapCostPick(costs, m - {t}, u);
      assert m - {u} - {t} == m - {t} - {u};
    }
  }

  /** Taking out an entry that was just set leaves the map without it. */
  lemma UpdateMinus(m: map<string, nat>, t: string, n: nat)
    ensures m[t := n] - {t} == m - {t}
  {
  }

  /** Raising the entry of `t` by one raises the sum by the unit cost of `t`. */
  lemma {:induction false} MapCostBump(costs: map<string, nat>, m: map<string, nat>, t: string, n: nat)
    requires t in m && m[t] == n
    ensures MapCost(costs, m[t := n + 1]) == MapCost(costs, m) + UnitCost(costs, t)
  {
    var r := m[t := n + 1];
    MapCostPick(costs, r, t);
    MapCostPick(costs, m, t);
    UpdateMinus(m, t, n + 1);
    assert UnitCost(costs, t) * (n + 1) == UnitCost(costs, t) * n + UnitCost(costs, t);
  }

  /** A new entry of one for `t` raises the sum by the unit cost of `t`. */
  lemma {:induction false} MapCostAdd(costs: map<string, nat>, m: map<string, nat>, t: string)
    requires t !in m
    ensures MapCost(costs, m[t := 1]) == MapCost(costs, m) + UnitCost(costs, t)
  {
    MapCostPick(costs, m[t := 1], t);
    UpdateMinus(m, t, 1);
    assert m - {t} == m;
  }

  /** One more block of kind `t` raises the live cost by its unit cost. */
  lemma {:induction false} MapCostInc(costs: map<string, nat>, m: map<string, nat>, t: string)
    ensures MapCost(costs, Inc(m, t)) == MapCost(costs, m) + UnitCost(costs, t)
  {
    if t in m {
      MapCostBump(costs, m, t, m[t]);
    } else {
      MapCostAdd(costs, m, t);
    }
  }

  /** The summed unit costs of the blocks, one by one. */
  function BlocksCost(costs: map<string, nat>, bs: seq<Block>): nat
  {
    if bs == [] then 0 else BlocksCost(costs, bs[..|bs| - 1]) + UnitCost(costs, bs[|bs| - 1].kind)
  }

  /** The live cost of a consistent index is the sum of the placed blocks' unit costs. */
  lemma {:induction false} TallyCost(costs: map<string, nat>, bs: seq<Block>)
    ensures MapCost(costs, Tally(bs)) == BlocksCost(costs, bs)
  {
    if bs == [] {
      TallyEmpty();
    } else {
      var init, last := bs[..|bs| - 1], bs[|bs| - 1];
      assert bs == init + [last];
      TallyCost(costs, init);
      TallyAppend(init, last);
      MapCostInc(costs, Tally(init), last.kind);
    }
  }

  /** The `forEach` over the index that sums the live cost. */
  method LiveCost(costs: map<string, nat>, m: map<string, nat>) returns (total: nat)
    ensures total == MapCost(costs, m)
  {
    total := 0;
    var rest := m;
    while rest != map[]
      invariant total + MapCost(costs, rest) == MapCost(costs, m)
      decreases |rest|
    {
      var t :| t in rest;
      var line := UnitCost(costs, t) * rest[t];
      MapCostPick(costs, rest, t);
      total := total + line;
      rest := rest - {t};
    }
  }
}
