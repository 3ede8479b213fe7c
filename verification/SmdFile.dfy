/** The map file parser: sections of variable length, most of them skipped. */
module SmdFile {
  import opened Bytes
  import opened Sequences

  datatype Error = UnexpectedEof | InvalidMapSize | NegativeFaceCount | DimensionMismatch | NegativeObjectCount

  datatype Result<+T> = Ok(value: T) | Err(error: Error) {
    predicate IsFailure() { Err? }
    function PropagateFailure<U>(): Result<U>
      requires Err?
    {
      Err(error)
    }
    function Extract(): T
      requires Ok?
    {
      value
    }
  }

  /** The floating-point steps of the parser, which this model leaves open: how many cells
    * cover a dimension (a negative number means none), and whether the collision width
    * contradicts map size and unit distance. */
  datatype Floats = Floats(cells: seq<byte> -> int, mismatch: (int, seq<byte>, seq<byte>) -> bool)

  datatype RegeneEvent = RegeneEvent(raw: seq<byte>, pointId: nat)

  /** A warp gate: its id, and the record its other fields are cut from. */
  datatype WarpInfo = WarpInfo(warpId: int, raw: seq<byte>)

  datatype Smd = Smd(
    mapSize: int, unitDist: seq<byte>, mapWidth: seq<byte>, mapHeight: seq<byte>,
    eventGrid: seq<int>, warps: seq<WarpInfo>, regeneEvents: seq<RegeneEvent>)

  function I16Of(b: seq<byte>): int
    requires |b| == 2
  {
    Signed(Le2(b), 0x1_0000)
  }

  // ------------------------------------------------------------------------ reading

  /** `read_exact` of `k` bytes: what was read, and what follows. */
  function Take(s: seq<byte>, k: nat): (r: Result<(seq<byte>, seq<byte>)>)
    ensures r.Ok? ==> |r.value.0| == k && s == r.value.0 + r.value.1
  {
    if k <= |s| then Ok((s[..k], s[k..])) else Err(UnexpectedEof)
  }

  /** A relative seek: past the end there is nothing left to read. */
  function Skip(s: seq<byte>, k: nat): seq<byte> { if k <= |s| then s[k..] else [] }

  function ReadI32(s: seq<byte>): Result<(int, seq<byte>)>
  {
    var (b, rest) :- Take(s, 4);
    Ok((I32Of(b), rest))
  }

  function Positive(n: int): nat { if n > 0 then n else 0 }

  function Times(n: nat, width: nat): nat { n * width }

  /** An i32 count and so many records of `width` bytes, skipped; no record for a count that
    * is not positive. */
  function SkipCounted(s: seq<byte>, width: nat): Result<seq<byte>>
  {
    var (count, rest) :- ReadI32(s);
    Ok(Skip(rest, Times(Positive(count), width)))
  }

  /** The sub-cells of a cell: triangles of three u32 each. */
  function SkipSubCells(n: nat, s: seq<byte>): Result<seq<byte>>
  {
    if n == 0 then Ok(s) else
      var rest :- SkipCounted(s, 12);
      SkipSubCells(n - 1, rest)
  }

  function SkipCell(s: seq<byte>): Result<seq<byte>>
  {
    var (exists', s1) :- Take(s, 4);
    if Le4(exists') == 0 then Ok(s1) else
      var s2 :- SkipCounted(s1, 2);
      SkipSubCells(16, s2)
  }

  function SkipRow(n: nat, s: seq<byte>): Result<seq<byte>>
  {
    if n == 0 then Ok(s) else
      var rest :- SkipCell(s);
      SkipRow(n - 1, rest)
  }

  function SkipCells(rows: nat, columns: nat, s: seq<byte>): Result<seq<byte>>
  {
    if rows == 0 then Ok(s) else
      var rest :- SkipRow(columns, s);
      SkipCells(rows - 1, columns, rest)
  }

  function Collision(fl: Floats, s: seq<byte>): Result<((seq<byte>, seq<byte>), seq<byte>)>
  {
    var (width, s1) :- Take(s, 4);
    var (length, s2) :- Take(s1, 4);
    var (faces, s3) :- ReadI32(s2);
    if faces < 0 then Err(NegativeFaceCount) else
      var s4 :- SkipCells(Positive(fl.cells(length)), Positive(fl.cells(width)), Skip(s3, Times(faces, 36)));
      Ok(((width, length), s4))
  }

  function Tiles(n: nat, s: seq<byte>): (r: Result<(seq<int>, seq<byte>)>)
    ensures r.Ok? ==> |r.value.0| == n
  {
    if n == 0 then Ok(([], s)) else
      var (b, rest) :- Take(s, 2);
      var (tiles, s') :- Tiles(n - 1, rest);
      Ok(([I16Of(b)] + tiles, s'))
  }

  /** Spawn points numbered from `id`. */
  function Regenes(id: nat, n: nat, s: seq<byte>): (r: Result<(seq<RegeneEvent>, seq<byte>)>)
    ensures r.Ok? ==> |r.value.0| == n
    decreases n
  {
    if n == 0 then Ok(([], s)) else
      var (b, rest) :- Take(s, 20);
      var (events, s') :- Regenes(id + 1, n - 1, rest);
      Ok(([RegeneEvent(b, id)] + events, s'))
  }

  type WarpRecord = r: seq<byte> | |r| == 320 witness seq(320, _ => 0)

  /** The warp gate of a record, unless it is numbered 0. */
  function WarpOf(record: WarpRecord): seq<WarpInfo>
  {
    var id := I16Of(record[..2]);
    if id == 0 then [] else [WarpInfo(id, record)]
  }

  /** Up to `n` warp gates; the end of the file ends the list. */
  function Warps(n: nat, s: seq<byte>): seq<WarpInfo>
  {
    if n == 0 then [] else
      match Take(s, 320)
      case Err(_) => []
      case Ok((record, rest)) => WarpOf(record) + Warps(n - 1, rest)
  }

  function WarpList(s: seq<byte>): seq<WarpInfo>
  {
    match ReadI32(s)
    case Err(_) => []
    case Ok((count, rest)) => Warps(Positive(count), rest)
  }

  /** The sections in front of the warp list; what follows them. */
  function Mandatory(fl: Floats, s: seq<byte>): (r: Result<(Smd, seq<byte>)>)
    ensures r.Ok? ==> var f := r.value.0; 0 < f.mapSize <= 10000 && |f.eventGrid| == Times(f.mapSize, f.mapSize)
  {
    var (mapSize, s1) :- ReadI32(s);
    var (unitDist, s2) :- Take(s1, 4);
    if mapSize <= 0 || mapSize > 10000 then Err(InvalidMapSize) else
      var area := Times(mapSize, mapSize);
      var ((width, height), s3) :- Collision(fl, Skip(s2, 4 * area));
      if fl.mismatch(mapSize, unitDist, width) then Err(DimensionMismatch) else
        var (objects, s4) :- ReadI32(s3);
        if objects < 0 then Err(NegativeObjectCount) else
          var (grid, s5) :- Tiles(area, Skip(s4, Times(objects, 24)));
          var (regenes, s6) :- ReadI32(s5);
          var (events, s7) :- Regenes(0, Positive(regenes), s6);
          Ok((Smd(mapSize, unitDist, width, height, grid, [], events), s7))
  }

  /** `SmdFile::parse`. */
  function Parsed(fl: Floats, s: seq<byte>): Result<Smd>
  {
    var (f, rest) :- Mandatory(fl, s);
    Ok(f.(warps := WarpList(rest)))
  }

  // ---------------------------------------------------------------- a moving cursor

  class Cursor {
    const data: seq<byte>
    var pos: nat

    constructor (data: seq<byte>)
      ensures this.data == data && Rest() == data
    {
      this.data, pos := data, 0;
    }

    function Rest(): seq<byte>
      reads this
    {
      if pos <= |data| then data[pos..] else []
    }

    method ReadExact(k: nat) returns (r: Result<seq<byte>>)
      requires k > 0
      modifies this
      ensures match Take(old(Rest()), k)
        case Ok((b, rest)) => r == Ok(b) && Rest() == rest
        case Err(e) => r == Err(e)
    {
      if pos + k > |data| {
        return Err(UnexpectedEof);
      }
      assert data[pos..][..k] == data[pos..pos + k] && data[pos..][k..] == data[pos + k..];
      r := Ok(data[pos..pos + k]);
      pos := pos + k;
    }

    method SeekForward(k: nat)
      modifies this
      ensures Rest() == Skip(old(Rest()), k)
    {
      pos := pos + k;
    }

    method ReadInt() returns (r: Result<int>)
      modifies this
      ensures match ReadI32(old(Rest()))
        case Ok((n, rest)) => r == Ok(n) && Rest() == rest
        case Err(e) => r == Err(e)
    {
      var b :- ReadExact(4);
      r := Ok(I32Of(b));
    }

    method SkipRecords(width: nat) returns (r: Result<()>)
      modifies this
      ensures Follows(r, SkipCounted(old(Rest()), width), Rest())
    {
      var count :- ReadInt();
      if count > 0 {
        SeekForward(Times(count, width));
      } else {
        assert Times(0, width) == 0;
      }
      r := Ok(());
    }
  }

  /** A skip of the cursor does what the specification says. */
  predicate Follows(r: Result<()>, spec: Result<seq<byte>>, rest: seq<byte>)
  {
    if r.Ok? then spec == Ok(rest) else spec == Err(r.error)
  }

  method PassSubCells(cur: Cursor) returns (r: Result<()>)
    modifies cur
    ensures Follows(r, SkipSubCells(16, old(cur.Rest())), cur.Rest())
  {
    hide SkipCounted;
    ghost var start := cur.Rest();
    for sz := 0 to 4
      invariant SkipSubCells(16 - 4 * sz, cur.Rest()) == SkipSubCells(16, start)
    {
      for sx := 0 to 4
        invariant SkipSubCells(16 - 4 * sz - sx, cur.Rest()) == SkipSubCells(16, start)
      {
        var _ :- cur.SkipRecords(12);
      }
    }
    r := Ok(());
  }

  method PassCell(cur: Cursor) returns (r: Result<()>)
    modifies cur
    ensures Follows(r, SkipCell(old(cur.Rest())), cur.Rest())
  {
    hide SkipCounted, SkipSubCells, Le4;
    var exists' :- cur.ReadExact(4);
    if Le4(exists') == 0 {
      return Ok(());
    }
    var _ :- cur.SkipRecords(2);
    r := PassSubCells(cur);
  }

  method PassRow(columns: nat, cur: Cursor) returns (r: Result<()>)
    modifies cur
    ensures Follows(r, SkipRow(columns, old(cur.Rest())), cur.Rest())
  {
    hide SkipCell;
    ghost var start := cur.Rest();
    for x := 0 to columns
      invariant SkipRow(columns - x, cur.Rest()) == SkipRow(columns, start)
    {
      var _ :- PassCell(cur);
    }
    r := Ok(());
  }

  method PassCells(rows: nat, columns: nat, cur: Cursor) returns (r: Result<()>)
    modifies cur
    ensures Follows(r, SkipCells(rows, columns, old(cur.Rest())), cur.Rest())
  {
    hide SkipRow;
    ghost var start := cur.Rest();
    for z := 0 to rows
      invariant SkipCells(rows - z, columns, cur.Rest()) == SkipCells(rows, columns, start)
    {
      var _ :- PassRow(columns, cur);
    }
    r := Ok(());
  }

  /** `skip_collision_data`. */
  method SkipCollisionData(fl: Floats, cur: Cursor) returns (r: Result<(seq<byte>, seq<byte>)>)
    modifies cur
    ensures match Collision(fl, old(cur.Rest()))
      case Ok((dims, rest)) => r == Ok(dims) && cur.Rest() == rest
      case Err(e) => r == Err(e)
  {
    hide SkipCells, Times, Skip;
    var mapWidth :- cur.ReadExact(4);
    var mapLength :- cur.ReadExact(4);
    var faceCount :- cur.ReadInt();
    if faceCount < 0 {
      return Err(NegativeFaceCount);
    }
    cur.SeekForward(Times(faceCount, 36));
    var _ :- PassCells(Positive(fl.cells(mapLength)), Positive(fl.cells(mapWidth)), cur);
    r := Ok((mapWidth, mapLength));
  }

  method ReadTiles(n: nat, cur: Cursor) returns (r: Result<seq<int>>)
    modifies cur
    ensures match Tiles(n, old(cur.Rest()))
      case Ok((tiles, rest)) => r == Ok(tiles) && cur.Rest() == rest
      case Err(e) => r == Err(e)
  {
    hide I16Of;
    ghost var start := cur.Rest();
    var eventGrid: seq<int> := [];
    BeforeTwice([], [], Tiles(n, start));
    for i := 0 to n
      invariant Before(eventGrid, Tiles(n - i, cur.Rest())) == Tiles(n, start)
    {
      ghost var later := cur.Rest();
      var b :- cur.ReadExact(2);
      BeforeTwice(eventGrid, [I16Of(b)], Tiles(n - i - 1, cur.Rest()));
      eventGrid := eventGrid + [I16Of(b)];
    }
    assert eventGrid + [] == eventGrid;
    r := Ok(eventGrid);
  }

  /** Items read earlier, put in front. */
  function Before<T>(items: seq<T>, later: Result<(seq<T>, seq<byte>)>): Result<(seq<T>, seq<byte>)>
  {
    match later
    case Err(e) => Err(e)
    case Ok((more, rest)) => Ok((items + more, rest))
  }

  lemma BeforeTwice<T>(a: seq<T>, b: seq<T>, later: Result<(seq<T>, seq<byte>)>)
    ensures Before(a, Before(b, later)) == Before(a + b, later)
    ensures Before([], later) == later
  {
    if later.Ok? {
      assert [] + later.value.0 == later.value.0;
      assert a + (b + later.value.0) == (a + b) + later.value.0;
    }
  }

  method ReadRegenes(n: nat, cur: Cursor) returns (r: Result<seq<RegeneEvent>>)
    modifies cur
    ensures match Regenes(0, n, old(cur.Rest()))
      case Ok((events, rest)) => r == Ok(events) && cur.Rest() == rest
      case Err(e) => r == Err(e)
  {
    ghost var start := cur.Rest();
    var events: seq<RegeneEvent> := [];
    BeforeTwice([], [], Regenes(0, n, start));
    for i := 0 to n
      invariant Before(events, Regenes(i, n - i, cur.Rest())) == Regenes(0, n, start)
    {
      var b :- cur.ReadExact(20);
      BeforeTwice(events, [RegeneEvent(b, i)], Regenes(i + 1, n - i - 1, cur.Rest()));
      events := events + [RegeneEvent(b, i)];
    }
    assert events + [] == events;
    r := Ok(events);
  }

  /** `read_warp_list`. */
  method ReadWarpList(cur: Cursor) returns (warps: seq<WarpInfo>)
    modifies cur
    ensures warps == WarpList(old(cur.Rest()))
  {
    hide I16Of, I32Of;
    warps := [];
    var count := cur.ReadInt();
    if count.Err? {
      return;
    }
    ghost var start := cur.Rest();
    for i := 0 to Positive(count.value)
      invariant warps + Warps(Positive(count.value) - i, cur.Rest()) == Warps(Positive(count.value), start)
    {
      ghost var sofar := warps;
      var buf := cur.ReadExact(320);
      if buf.Err? {
        Regroup(warps, [], []);
        return;
      }
      var warpId := I16Of(buf.value[..2]);
      if warpId != 0 {
        warps := warps + [WarpInfo(warpId, buf.value)];
      }
      Regroup(sofar, WarpOf(buf.value), Warps(Positive(count.value) - i - 1, cur.Rest()));
    }
    Regroup(warps, [], []);
  }

  /** `SmdFile::parse`. */
  method Parse(fl: Floats, cur: Cursor) returns (r: Result<Smd>)
    modifies cur
    ensures r == Parsed(fl, old(cur.Rest()))
  {
    hide Collision, Tiles, Regenes, WarpList, Times;
    var mapSize :- cur.ReadInt();
    var unitDist :- cur.ReadExact(4);
    if mapSize <= 0 || mapSize > 10000 {
      return Err(InvalidMapSize);
    }
    var area := Times(mapSize, mapSize);
    cur.SeekForward(4 * area);
    var dims :- SkipCollisionData(fl, cur);
    if fl.mismatch(mapSize, unitDist, dims.0) {
      return Err(DimensionMismatch);
    }
    var objects :- cur.ReadInt();
    if objects < 0 {
      return Err(NegativeObjectCount);
    }
    cur.SeekForward(Times(objects, 24));
    var eventGrid :- ReadTiles(area, cur);
    var regenes :- cur.ReadInt();
    var events :- ReadRegenes(Positive(regenes), cur);
    var warps := ReadWarpList(cur);
    r := Ok(Smd(mapSize, unitDist, dims.0, dims.1, eventGrid, warps, events));
  }
}
