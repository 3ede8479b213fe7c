/** The region grid of a zone: who is near a place. */
module RegionGrid {
  import opened Wrappers

  const VIEW_DISTANCE: int := 48

  type U16 = n: int | 0 <= n < 0x1_0000
  type SessionId = U16
  type Cell = (int, int)

  /** The users of each cell of the grid. */
  type Cells = map<Cell, set<SessionId>>

  // -------------------------------------------------------------------- coordinates

  /** `pos as u16`: truncated, and kept in range. */
  function AsU16(pos: real): U16
  {
    if pos < 0.0 then 0 else if pos >= 65535.0 then 65535 else pos.Floor
  }

  function CalcRegion(pos: real): U16 { AsU16(pos) / VIEW_DISTANCE }

  /** `n as i16`, also where an i16 sum wraps around. */
  function AsI16(n: int): int { if n < 0x8000 then n else n - 0x1_0000 }

  function GridSize(mapSize: U16): nat { mapSize / VIEW_DISTANCE + 1 }

  // --------------------------------------------------------------- the specification

  ghost predicate IsGrid(cells: Cells, size: nat) { cells.Keys == Square(size) }

  ghost function Square(size: nat): (r: set<Cell>)
    ensures forall c :: c in r <==> 0 <= c.0 < size && 0 <= c.1 < size
  {
    set x, z | 0 <= x < size && 0 <= z < size :: (x, z)
  }

  function Inserted(cells: Cells, c: Cell, id: SessionId): Cells
  {
    if c in cells then cells[c := cells[c] + {id}] else cells
  }

  function Removed(cells: Cells, c: Cell, id: SessionId): Cells
  {
    if c in cells then cells[c := cells[c] - {id}] else cells
  }

  /** The users that step `k` of the 3x3 scan adds. */
  function Part(cells: Cells, rx: U16, rz: U16, k: nat): set<SessionId>
  {
    var c := (AsI16(AsI16(rx) + k / 3 - 1), AsI16(AsI16(rz) + k % 3 - 1));
    if c.0 >= 0 && c.1 >= 0 && c in cells then cells[c] else {}
  }

  /** What the first `k` steps of the scan find. */
  ghost function Around(cells: Cells, rx: U16, rz: U16, k: nat): multiset<SessionId>
  {
    if k == 0 then multiset{} else Around(cells, rx, rz, k - 1) + multiset(Part(cells, rx, rz, k - 1))
  }

  // ---------------------------------------------------------------------- the grid

  method Listed(s: set<SessionId>) returns (q: seq<SessionId>)
    ensures multiset(q) == multiset(s)
  {
    q := [];
    var left := s;
    while left != {}
      invariant left <= s && multiset(q) + multiset(left) == multiset(s)
    {
      var x :| x in left;
      q, left := q + [x], left - {x};
    }
  }

  class ZoneState {
    const maxRegion: nat
    const regions: array2<set<SessionId>>

    ghost predicate Valid() { regions.Length0 == maxRegion && regions.Length1 == maxRegion }

    ghost function Contents(): (r: Cells)
      requires Valid()
      reads regions
      ensures IsGrid(r, maxRegion)
    {
      map c | c in Square(maxRegion) :: regions[c.0, c.1]
    }

    /** `build_region_grid`. */
    constructor (mapSize: U16)
      ensures Valid() && fresh(regions) && maxRegion == GridSize(mapSize)
      ensures forall c :: c in Contents() ==> Contents()[c] == {}
    {
      var gridSize := mapSize / VIEW_DISTANCE + 1;
      maxRegion := gridSize;
      regions := new set<SessionId>[gridSize, gridSize]((x, z) => {});
    }

    function GetRegion(rx: U16, rz: U16): (r: Option<set<SessionId>>)
      requires Valid()
      reads regions
      ensures r == if (rx, rz) in Contents() then Some(Contents()[(rx, rz)]) else None
    {
      if rx >= maxRegion || rz >= maxRegion then None else Some(regions[rx, rz])
    }

    method AddUser(rx: U16, rz: U16, id: SessionId)
      requires Valid()
      modifies regions
      ensures Contents() == Inserted(old(Contents()), (rx, rz), id)
    {
      if rx < maxRegion && rz < maxRegion {
        regions[rx, rz] := regions[rx, rz] + {id};
      }
    }

    method RemoveUser(rx: U16, rz: U16, id: SessionId)
      requires Valid()
      modifies regions
      ensures Contents() == Removed(old(Contents()), (rx, rz), id)
    {
      if rx < maxRegion && rz < maxRegion {
        regions[rx, rz] := regions[rx, rz] - {id};
      }
    }

    /** `get_users_in_3x3`: the order within a cell is not fixed. */
    method GetUsersIn3x3(rx: U16, rz: U16) returns (result: seq<SessionId>)
      requires Valid()
      ensures multiset(result) == Around(Contents(), rx, rz, 9)
    {
      hide Part;
      result := [];
      for dx := -1 to 2
        invariant multiset(result) == Around(Contents(), rx, rz, 3 * (dx + 1))
      {
        for dz := -1 to 2
          invariant multiset(result) == Around(Contents(), rx, rz, 3 * (dx + 1) + dz + 1)
        {
          var found := UsersAt(rx, rz, dx, dz);
          var more := Listed(found);
          result := result + more;
        }
      }
    }

    method UsersAt(rx: U16, rz: U16, dx: int, dz: int) returns (found: set<SessionId>)
      requires Valid() && -1 <= dx <= 1 && -1 <= dz <= 1
      ensures found == Part(Contents(), rx, rz, 3 * (dx + 1) + dz + 1)
    {
      assert (3 * (dx + 1) + dz + 1) / 3 == dx + 1 && (3 * (dx + 1) + dz + 1) % 3 == dz + 1;
      var nx, nz := AsI16(AsI16(rx) + dx), AsI16(AsI16(rz) + dz);
      found := {};
      if nx >= 0 && nz >= 0 {
        var region := GetRegion(nx, nz);
        if region.Some? {
          found := region.value;
        }
      }
    }

    /** `region_3x3_has_users`. */
    method Region3x3HasUsers(rx: U16, rz: U16) returns (r: bool)
      requires Valid()
      ensures r <==> Around(Contents(), rx, rz, 9) != multiset{}
    {
      hide Part;
      for dx := -1 to 2
        invariant Around(Contents(), rx, rz, 3 * (dx + 1)) == multiset{}
      {
        for dz := -1 to 2
          invariant Around(Contents(), rx, rz, 3 * (dx + 1) + dz + 1) == multiset{}
        {
          var k := 3 * (dx + 1) + dz + 1;
          var found := UsersAt(rx, rz, dx, dz);
          if found != {} {
            var u :| u in found;
            assert u in Around(Contents(), rx, rz, k + 1);
            AroundGrows(Contents(), rx, rz, k + 1, u);
            return true;
          }
        }
      }
      return false;
    }
  }

  lemma {:induction false} AroundGrows(cells: Cells, rx: U16, rz: U16, k: nat, u: SessionId)
    requires k <= 9 && u in Around(cells, rx, rz, k)
    ensures u in Around(cells, rx, rz, 9)
    decreases 9 - k
  {
    hide Part;
    if k < 9 {
      assert u in Around(cells, rx, rz, k + 1);
      AroundGrows(cells, rx, rz, k + 1, u);
    }
  }

  // --------------------------------------------------------- the grid as a map of users

  /** The grid holds each user in the cell `at` gives, or nowhere if that is outside. */
  ghost predicate Tracks(cells: Cells, at: map<SessionId, Cell>)
  {
    forall c, u :: c in cells ==> (u in cells[c] <==> u in at && at[u] == c)
  }

  lemma InsertTracks(cells: Cells, at: map<SessionId, Cell>, c: Cell, u: SessionId)
    requires Tracks(cells, at) && u !in at
    ensures Tracks(Inserted(cells, c, u), at[u := c])
  {
  }

  lemma RemoveTracks(cells: Cells, at: map<SessionId, Cell>, u: SessionId)
    requires Tracks(cells, at) && u in at
    ensures Tracks(Removed(cells, at[u], u), at - {u})
  {
  }

  /** Cell `a` is region `r` or next to it, on one axis. */
  predicate Near(a: int, r: U16) { -1 <= a - AsI16(r) <= 1 }

  predicate Beside(c: Cell, rx: U16, rz: U16) { Near(c.0, rx) && Near(c.1, rz) }

  /** The step of the scan that visits a cell. */
  function StepOf(c: Cell, rx: U16, rz: U16): int { 3 * (c.0 - AsI16(rx) + 1) + c.1 - AsI16(rz) + 1 }

  lemma PartExactly(cells: Cells, size: nat, at: map<SessionId, Cell>, rx: U16, rz: U16, k: nat, u: SessionId)
    requires IsGrid(cells, size) && size <= 0x7FFF && Tracks(cells, at) && k < 9
    ensures u in Part(cells, rx, rz, k)
      <==> u in at && at[u] in cells && Beside(at[u], rx, rz) && StepOf(at[u], rx, rz) == k
  {
    var dx, dz := k / 3 - 1, k % 3 - 1;
    var c := (AsI16(AsI16(rx) + dx), AsI16(AsI16(rz) + dz));
    if u in at && at[u] in cells && Beside(at[u], rx, rz) && StepOf(at[u], rx, rz) == k {
      var ex, ez := at[u].0 - AsI16(rx), at[u].1 - AsI16(rz);
      assert ex == dx && ez == dz;
      assert at[u] == c;
    }
  }

  lemma {:induction false} AroundCounts(cells: Cells, size: nat, at: map<SessionId, Cell>, rx: U16, rz: U16, k: nat,
      u: SessionId)
    requires IsGrid(cells, size) && size <= 0x7FFF && Tracks(cells, at) && k <= 9
    ensures Around(cells, rx, rz, k)[u]
      == if u in at && at[u] in cells && Beside(at[u], rx, rz) && StepOf(at[u], rx, rz) < k then 1 else 0
  {
    hide Part, Tracks, IsGrid, Beside;
    if k > 0 {
      PartExactly(cells, size, at, rx, rz, k - 1, u);
      AroundCounts(cells, size, at, rx, rz, k - 1, u);
    } else {
      StepInRange(at, rx, rz, u);
    }
  }

  lemma StepInRange(at: map<SessionId, Cell>, rx: U16, rz: U16, u: SessionId)
    ensures u in at && Beside(at[u], rx, rz) ==> 0 <= StepOf(at[u], rx, rz) < 9
  {
  }

  /** For any region, the query returns each user of the grid that is in it or beside it
    * exactly once, and nobody else. */
  lemma AroundExactly(cells: Cells, size: nat, at: map<SessionId, Cell>, rx: U16, rz: U16, u: SessionId)
    requires IsGrid(cells, size) && size <= 0x7FFF && Tracks(cells, at)
    ensures Around(cells, rx, rz, 9)[u] == if u in at && at[u] in cells && Beside(at[u], rx, rz) then 1 else 0
  {
    hide Around, Beside, StepOf, Tracks, IsGrid;
    AroundCounts(cells, size, at, rx, rz, 9, u);
    StepInRange(at, rx, rz, u);
  }

  // --------------------------------------------------------------------- distances

  function Distance(a: real, b: real): (d: real)
    ensures d >= 0.0
  {
    if a < b then b - a else a - b
  }

  lemma RegionBounds(pos: real)
    ensures 0 <= CalcRegion(pos) <= 1365
    ensures 0.0 <= pos ==> (48 * CalcRegion(pos)) as real <= pos
    ensures pos < 65535.0 ==> pos < (48 * CalcRegion(pos) + 48) as real
  {
  }

  /** Whoever is within 48 units on an axis is at most one region away on it. */
  lemma WithinViewIsNear(p: real, q: real)
    requires Distance(p, q) <= 48.0
    ensures Near(CalcRegion(p), CalcRegion(q))
  {
  }

  /** Whoever is at most one region away is within 96 units, on the map. */
  lemma NearIsWithinTwice(p: real, q: real)
    requires 0.0 <= p < 65535.0 && 0.0 <= q < 65535.0
    requires Near(CalcRegion(p), CalcRegion(q))
    ensures Distance(p, q) < 96.0
  {
  }

  /** Neither bound can be improved: a little over 48 units may be missed, and anything
    * under 96 may be found. */
  lemma BoundsAreTight(e: real)
    requires 0.0 < e <= 1.0
    ensures exists p, q :: Distance(p, q) == 48.0 + e && !Near(CalcRegion(p), CalcRegion(q))
    ensures exists p, q :: Distance(p, q) == 96.0 - e && Near(CalcRegion(p), CalcRegion(q))
  {
    assert Distance(48.0 - e, 96.0) == 48.0 + e && !Near(CalcRegion(48.0 - e), CalcRegion(96.0));
    assert Distance(0.0, 96.0 - e) == 96.0 - e && Near(CalcRegion(0.0), CalcRegion(96.0 - e));
  }

  // --------------------------------------------------------------------------- runs

  /** A position on the map, by its x and z. */
  type Position = (real, real)

  /** What the handlers do with a zone: bring a user in or move it, and take it out. */
  datatype Op = Put(id: SessionId, pos: Position) | TakeOut(id: SessionId)

  function CellOf(pos: Position): Cell { (CalcRegion(pos.0), CalcRegion(pos.1)) }

  /** The grid and the positions the sessions remember. */
  datatype World = World(cells: Cells, positions: map<SessionId, Position>)

  /** One operation: a user leaves the cell of its old position before it enters the new. */
  function Step(w: World, op: Op): World
  {
    var left := if op.id in w.positions then Removed(w.cells, CellOf(w.positions[op.id]), op.id) else w.cells;
    match op
    case TakeOut(id) => World(left, w.positions - {id})
    case Put(id, pos) => World(Inserted(left, CellOf(pos), id), w.positions[id := pos])
  }

  function RunOf(w: World, ops: seq<Op>): World
  {
    if ops == [] then w else Step(RunOf(w, ops[..|ops| - 1]), ops[|ops| - 1])
  }

  /** How the handlers place a user: out of the cell of its old position, into that of the new. */
  method PutUser(zone: ZoneState, ghost w: World, id: SessionId, old': Option<Position>, pos: Position)
    requires zone.Valid() && zone.Contents() == w.cells
    requires old' == if id in w.positions then Some(w.positions[id]) else None
    modifies zone.regions
    ensures zone.Contents() == Step(w, Put(id, pos)).cells
  {
    if old'.Some? {
      zone.RemoveUser(CalcRegion(old'.value.0), CalcRegion(old'.value.1), id);
    }
    zone.AddUser(CalcRegion(pos.0), CalcRegion(pos.1), id);
  }

  ghost function CellsOf(positions: map<SessionId, Position>): map<SessionId, Cell>
  {
    map u | u in positions :: CellOf(positions[u])
  }

  /** The grid agrees with the positions. */
  ghost predicate Agrees(w: World, size: nat)
  {
    IsGrid(w.cells, size) && Tracks(w.cells, CellsOf(w.positions))
  }

  lemma StepAgrees(w: World, size: nat, op: Op)
    requires Agrees(w, size)
    ensures Agrees(Step(w, op), size)
  {
    hide CellOf, Tracks, Inserted, Removed;
    var at := CellsOf(w.positions);
    var left := if op.id in at then Removed(w.cells, at[op.id], op.id) else w.cells;
    if op.id in at {
      RemoveTracks(w.cells, at, op.id);
      KeysKept(w.cells, at[op.id], op.id);
    } else {
      assert at - {op.id} == at;
    }
    assert CellsOf(w.positions - {op.id}) == at - {op.id};
    if op.Put? {
      InsertTracks(left, at - {op.id}, CellOf(op.pos), op.id);
      KeysKept(left, CellOf(op.pos), op.id);
      assert CellsOf(w.positions[op.id := op.pos]) == (at - {op.id})[op.id := CellOf(op.pos)];
    }
  }

  lemma KeysKept(cells: Cells, c: Cell, id: SessionId)
    ensures Removed(cells, c, id).Keys == cells.Keys == Inserted(cells, c, id).Keys
  {
  }

  ghost predicate Empty(w: World, size: nat)
  {
    IsGrid(w.cells, size) && w.positions == map[] && forall c :: c in w.cells ==> w.cells[c] == {}
  }

  lemma {:induction false} RunAgrees(w: World, size: nat, ops: seq<Op>)
    requires Empty(w, size)
    ensures Agrees(RunOf(w, ops), size)
  {
    hide Step;
    if ops != [] {
      RunAgrees(w, size, ops[..|ops| - 1]);
      StepAgrees(RunOf(w, ops[..|ops| - 1]), size, ops[|ops| - 1]);
    }
  }

  /** How often the query around a position returns a user. */
  ghost function Found(w: World, q: Position, u: SessionId): nat
  {
    Around(w.cells, CalcRegion(q.0), CalcRegion(q.1), 9)[u]
  }

  predicate OnMap(p: Position, mapSize: U16)
  {
    0.0 <= p.0 < mapSize as real && 0.0 <= p.1 < mapSize as real
  }

  /** After any run on a zone of any size, a query on the map returns nobody twice, nobody
    * who has left, everyone on the map within 48 units on both axes, and of those on the
    * map only such as are within 96. */
  lemma NearbyUsers(mapSize: U16, w: World, ops: seq<Op>, q: Position, u: SessionId)
    requires Empty(w, GridSize(mapSize)) && OnMap(q, mapSize)
    ensures var now := RunOf(w, ops);
      && Found(now, q, u) <= 1
      && (u !in now.positions ==> Found(now, q, u) == 0)
      && (u in now.positions && OnMap(now.positions[u], mapSize) ==>
            var p := now.positions[u];
            && (Distance(p.0, q.0) <= 48.0 && Distance(p.1, q.1) <= 48.0 ==> Found(now, q, u) == 1)
            && (Found(now, q, u) == 1 ==> Distance(p.0, q.0) < 96.0 && Distance(p.1, q.1) < 96.0))
  {
    hide Around, Tracks, IsGrid, RunOf, CalcRegion, Near, Distance;
    var now := RunOf(w, ops);
    RunAgrees(w, GridSize(mapSize), ops);
    AroundExactly(now.cells, GridSize(mapSize), CellsOf(now.positions), CalcRegion(q.0), CalcRegion(q.1), u);
    if u in now.positions && OnMap(now.positions[u], mapSize) {
      var p := now.positions[u];
      InGrid(p, mapSize, now.cells);
      if Distance(p.0, q.0) <= 48.0 && Distance(p.1, q.1) <= 48.0 {
        WithinViewIsNear(p.0, q.0);
        WithinViewIsNear(p.1, q.1);
      }
      if Found(now, q, u) == 1 {
        NearIsWithinTwice(p.0, q.0);
        NearIsWithinTwice(p.1, q.1);
      }
    }
  }

  lemma InGrid(p: Position, mapSize: U16, cells: Cells)
    requires OnMap(p, mapSize) && IsGrid(cells, GridSize(mapSize))
    ensures CellOf(p) in cells
  {
    hide CalcRegion;
    RegionBounds(p.0);
    RegionBounds(p.1);
  }

  /** The grid is square, and sized by one dimension of the map: a user can be seen from its
    * own place exactly when both its coordinates lie below the grid's edge (or the grid is
    * the largest there is, whose last cell takes every coordinate beyond). */
  lemma SeenAtOwnPlaceExactly(mapSize: U16, w: World, ops: seq<Op>, u: SessionId)
    requires Empty(w, GridSize(mapSize))
    requires u in RunOf(w, ops).positions
    ensures var p := RunOf(w, ops).positions[u];
      var edge := (48 * GridSize(mapSize)) as real;
      Found(RunOf(w, ops), p, u) == 1 <==> (p.0 < edge && p.1 < edge) || GridSize(mapSize) == 1366
  {
    hide Around, Tracks, RunOf, CalcRegion;
    var now := RunOf(w, ops);
    var p := now.positions[u];
    RunAgrees(w, GridSize(mapSize), ops);
    AroundExactly(now.cells, GridSize(mapSize), CellsOf(now.positions), CalcRegion(p.0), CalcRegion(p.1), u);
    BelowEdge(p.0, GridSize(mapSize));
    BelowEdge(p.1, GridSize(mapSize));
  }

  lemma BelowEdge(p: real, size: nat)
    requires 1 <= size <= 1366
    ensures size < 1366 ==> (CalcRegion(p) < size <==> p < (48 * size) as real)
    ensures size == 1366 ==> CalcRegion(p) < size
  {
    RegionBounds(p);
  }
}
