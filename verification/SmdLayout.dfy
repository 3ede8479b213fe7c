/** Map files laid out section by section, and map files cut short. */
module SmdLayout {
  import opened Bytes
  import opened SmdFile

  // --------------------------------------------------------------- the file format

  /** A cell of the collision grid. */
  datatype Cell = Absent | Present(flag: seq<byte>, shapes: seq<byte>, subCells: seq<seq<byte>>)

  /** A map file without its warp list's tail: lists of fixed-width records are kept as bytes. */
  datatype Layout = Layout(
    mapSize: nat, unitDist: seq<byte>, heights: seq<byte>, width: seq<byte>, length: seq<byte>, faces: seq<byte>,
    cells: seq<seq<Cell>>, objects: seq<byte>, tiles: seq<seq<Tile>>, regenes: seq<seq<byte>>, warps: seq<WarpRecord>)

  /** The event of a tile: an i16. */
  type Tile = t: int | -0x8000 <= t < 0x8000

  type Width = n: nat | n > 0 witness 1

  predicate Records(b: seq<byte>, width: Width) { |b| % width == 0 && |b| / width < 0x8000_0000 }

  predicate CellOk(c: Cell)
  {
    c.Present? ==>
      && |c.flag| == 4 && Le4(c.flag) != 0 && Records(c.shapes, 2)
      && |c.subCells| == 16 && forall k :: 0 <= k < 16 ==> Records(c.subCells[k], 12)
  }

  ghost predicate WellFormed(fl: Floats, l: Layout)
  {
    && 0 < l.mapSize <= 10000 && |l.unitDist| == 4 && |l.heights| == 4 * Times(l.mapSize, l.mapSize)
    && |l.width| == 4 && |l.length| == 4 && Records(l.faces, 36)
    && |l.cells| == Positive(fl.cells(l.length))
    && (forall z :: 0 <= z < |l.cells| ==> |l.cells[z]| == Positive(fl.cells(l.width)))
    && (forall z, x :: 0 <= z < |l.cells| && 0 <= x < |l.cells[z]| ==> CellOk(l.cells[z][x]))
    && Records(l.objects, 24)
    && |l.tiles| == l.mapSize
    && (forall x :: 0 <= x < |l.tiles| ==> |l.tiles[x]| == l.mapSize)
    && |l.regenes| < 0x8000_0000 && (forall i :: 0 <= i < |l.regenes| ==> |l.regenes[i]| == 20)
    && |l.warps| < 0x8000_0000
  }

  /** Each function puts the bytes of a section in front of the bytes that follow it. */
  function CountedThen(b: seq<byte>, width: Width, later: seq<byte>): seq<byte>
  {
    I32Bytes(|b| / width) + (b + later)
  }

  function SubCellsThen(subCells: seq<seq<byte>>, later: seq<byte>): seq<byte>
  {
    if subCells == [] then later else CountedThen(subCells[0], 12, SubCellsThen(subCells[1..], later))
  }

  function CellThen(c: Cell, later: seq<byte>): seq<byte>
  {
    match c
    case Absent => LeBytes(0, 4) + later
    case Present(flag, shapes, subCells) => flag + CountedThen(shapes, 2, SubCellsThen(subCells, later))
  }

  function RowThen(row: seq<Cell>, later: seq<byte>): seq<byte>
  {
    if row == [] then later else CellThen(row[0], RowThen(row[1..], later))
  }

  function CellsThen(cells: seq<seq<Cell>>, later: seq<byte>): seq<byte>
  {
    if cells == [] then later else RowThen(cells[0], CellsThen(cells[1..], later))
  }

  function I16Bytes(t: Tile): seq<byte> { LeBytes(Unsigned(t, 0x1_0000), 2) }

  function TilesThen(tiles: seq<Tile>, later: seq<byte>): seq<byte>
  {
    if tiles == [] then later else I16Bytes(tiles[0]) + TilesThen(tiles[1..], later)
  }

  function Joined(records: seq<seq<byte>>, later: seq<byte>): seq<byte>
  {
    if records == [] then later else records[0] + Joined(records[1..], later)
  }

  function Flat<T>(rows: seq<seq<T>>): seq<T> { if rows == [] then [] else rows[0] + Flat(rows[1..]) }

  function WarpsThen(l: Layout, tail: seq<byte>): seq<byte> { I32Bytes(|l.warps|) + Joined(l.warps, tail) }

  function EventsThen(l: Layout, later: seq<byte>): seq<byte>
  {
    CountedThen(l.objects, 24, TilesThen(Flat(l.tiles), I32Bytes(|l.regenes|) + Joined(l.regenes, later)))
  }

  function MapThen(l: Layout, later: seq<byte>): seq<byte>
  {
    I32Bytes(l.mapSize) + (l.unitDist + (l.heights
      + (l.width + (l.length + CountedThen(l.faces, 36, CellsThen(l.cells, later))))))
  }

  /** The whole file, and whatever follows it. */
  function FileBytes(l: Layout, tail: seq<byte>): seq<byte> { MapThen(l, EventsThen(l, WarpsThen(l, tail))) }

  // ------------------------------------------------------- reading what is laid out

  lemma TakeFront(a: seq<byte>, later: seq<byte>)
    ensures Take(a + later, |a|) == Ok((a, later)) && Skip(a + later, |a|) == later
  {
  }

  lemma ReadCount(n: nat, later: seq<byte>)
    requires n < 0x8000_0000
    ensures ReadI32(I32Bytes(n) + later) == Ok((n, later))
  {
    hide I32Of, I32Bytes;
    TakeFront(I32Bytes(n), later);
    I32RoundTrip(n);
  }

  lemma SkipRecordsOf(b: seq<byte>, width: Width, later: seq<byte>)
    requires Records(b, width)
    ensures SkipCounted(CountedThen(b, width, later), width) == Ok(later)
    ensures ReadI32(CountedThen(b, width, later)) == Ok((|b| / width, b + later))
    ensures Skip(b + later, Times(|b| / width, width)) == later
  {
    assert Times(|b| / width, width) == |b|;
    hide I32Bytes, ReadI32, Times, Skip;
    ReadCount(|b| / width, b + later);
    TakeFront(b, later);
  }

  lemma {:induction false} SubCellsSkipped(subCells: seq<seq<byte>>, later: seq<byte>)
    requires forall k :: 0 <= k < |subCells| ==> Records(subCells[k], 12)
    ensures SkipSubCells(|subCells|, SubCellsThen(subCells, later)) == Ok(later)
  {
    hide SkipCounted, Records, CountedThen;
    if subCells != [] {
      SkipRecordsOf(subCells[0], 12, SubCellsThen(subCells[1..], later));
      SubCellsSkipped(subCells[1..], later);
    }
  }

  lemma CellSkipped(c: Cell, later: seq<byte>)
    requires CellOk(c)
    ensures SkipCell(CellThen(c, later)) == Ok(later)
  {
    hide SkipCounted, Records, CountedThen, SkipSubCells, SubCellsThen, Le4, LeBytes;
    match c
    case Absent =>
      TakeFront(LeBytes(0, 4), later);
      FixedWidthRoundTrips(0);
    case Present(flag, shapes, subCells) =>
      TakeFront(flag, CountedThen(shapes, 2, SubCellsThen(subCells, later)));
      SkipRecordsOf(shapes, 2, SubCellsThen(subCells, later));
      SubCellsSkipped(subCells, later);
  }

  lemma {:induction false} RowSkipped(row: seq<Cell>, later: seq<byte>)
    requires forall x :: 0 <= x < |row| ==> CellOk(row[x])
    ensures SkipRow(|row|, RowThen(row, later)) == Ok(later)
  {
    hide SkipCell, CellThen, CellOk;
    if row != [] {
      CellSkipped(row[0], RowThen(row[1..], later));
      RowSkipped(row[1..], later);
    }
  }

  lemma {:induction false} CellsSkipped(cells: seq<seq<Cell>>, columns: nat, later: seq<byte>)
    requires forall z :: 0 <= z < |cells| ==> |cells[z]| == columns
    requires forall z, x :: 0 <= z < |cells| && 0 <= x < |cells[z]| ==> CellOk(cells[z][x])
    ensures SkipCells(|cells|, columns, CellsThen(cells, later)) == Ok(later)
  {
    hide SkipRow, RowThen, CellOk;
    if cells != [] {
      RowSkipped(cells[0], CellsThen(cells[1..], later));
      CellsSkipped(cells[1..], columns, later);
    }
  }

  lemma TileRoundTrip(t: Tile)
    ensures |I16Bytes(t)| == 2 && I16Of(I16Bytes(t)) == t
  {
    SignedRoundTrip(t, 0x1_0000);
    FixedWidthRoundTrips(Unsigned(t, 0x1_0000));
  }

  lemma {:induction false} TilesRead(tiles: seq<Tile>, later: seq<byte>)
    ensures Tiles(|tiles|, TilesThen(tiles, later)) == Ok((tiles, later))
  {
    hide I16Bytes, I16Of;
    if tiles != [] {
      TileRoundTrip(tiles[0]);
      TakeFront(I16Bytes(tiles[0]), TilesThen(tiles[1..], later));
      TilesRead(tiles[1..], later);
      assert tiles == [tiles[0]] + tiles[1..];
    }
  }

  function Numbered(id: nat, records: seq<seq<byte>>): seq<RegeneEvent>
    decreases |records|
  {
    if records == [] then [] else [RegeneEvent(records[0], id)] + Numbered(id + 1, records[1..])
  }

  lemma {:induction false} RegenesRead(id: nat, records: seq<seq<byte>>, later: seq<byte>)
    requires forall i :: 0 <= i < |records| ==> |records[i]| == 20
    ensures Regenes(id, |records|, Joined(records, later)) == Ok((Numbered(id, records), later))
    decreases |records|
  {
    if records != [] {
      TakeFront(records[0], Joined(records[1..], later));
      RegenesRead(id + 1, records[1..], later);
    }
  }

  /** The warp gates of the records, without those numbered 0. */
  function Gates(records: seq<WarpRecord>): seq<WarpInfo>
  {
    if records == [] then [] else WarpOf(records[0]) + Gates(records[1..])
  }

  lemma {:induction false} WarpsRead(records: seq<WarpRecord>, tail: seq<byte>)
    ensures Warps(|records|, Joined(records, tail)) == Gates(records)
  {
    hide WarpOf;
    if records != [] {
      TakeFront(records[0], Joined(records[1..], tail));
      WarpsRead(records[1..], tail);
    }
  }

  // -------------------------------------------------------------------- the grid

  /** `get_event_id`. */
  function GetEventId(f: Smd, x: int, z: int): int
    requires f.mapSize > 0 && |f.eventGrid| == Times(f.mapSize, f.mapSize)
  {
    if x < 0 || x >= f.mapSize || z < 0 || z >= f.mapSize then -1
    else
      InSquare(x, z, f.mapSize);
      f.eventGrid[x * f.mapSize + z]
  }

  lemma InSquare(x: nat, z: nat, n: nat)
    requires x < n && z < n
    ensures 0 <= x * n + z < Times(n, n)
  {
    assert x * n + n <= n * n by {
      assert (x + 1) * n <= n * n;
    }
  }

  lemma {:induction false} FlatLength<T>(rows: seq<seq<T>>, n: nat)
    requires forall x :: 0 <= x < |rows| ==> |rows[x]| == n
    ensures |Flat(rows)| == Times(|rows|, n)
  {
    if rows != [] {
      FlatLength(rows[1..], n);
      assert |rows| * n == (|rows| - 1) * n + n;
    }
  }

  lemma {:induction false} FlatAt<T>(rows: seq<seq<T>>, n: nat, x: nat, z: nat)
    requires forall r :: 0 <= r < |rows| ==> |rows[r]| == n
    requires x < |rows| && z < n
    ensures x * n + z < |Flat(rows)| && Flat(rows)[x * n + z] == rows[x][z]
  {
    if x > 0 {
      FlatAt(rows[1..], n, x - 1, z);
      assert x * n == (x - 1) * n + n;
    }
  }

  // ------------------------------------------------------------------ main results

  function Header(l: Layout): Smd
  {
    Smd(l.mapSize, l.unitDist, l.width, l.length, Flat(l.tiles), [], Numbered(0, l.regenes))
  }

  lemma CollisionPassed(fl: Floats, l: Layout, later: seq<byte>)
    requires WellFormed(fl, l)
    ensures Collision(fl, l.width + (l.length + CountedThen(l.faces, 36, CellsThen(l.cells, later))))
      == Ok(((l.width, l.length), later))
  {
    hide CountedThen, CellsThen, SkipCells, ReadI32, Take, Skip, Times, CellOk;
    TakeFront(l.width, l.length + CountedThen(l.faces, 36, CellsThen(l.cells, later)));
    TakeFront(l.length, CountedThen(l.faces, 36, CellsThen(l.cells, later)));
    SkipRecordsOf(l.faces, 36, CellsThen(l.cells, later));
    CellsSkipped(l.cells, Positive(fl.cells(l.width)), later);
  }

  /** Every section is read where it lies: the parser lands exactly behind the skipped ones, and
    * refuses the file exactly if the width of the collision grid contradicts the map. */
  lemma SectionsFound(fl: Floats, l: Layout, later: seq<byte>)
    requires WellFormed(fl, l)
    ensures Mandatory(fl, MapThen(l, EventsThen(l, later)))
      == if fl.mismatch(l.mapSize, l.unitDist, l.width) then Err(DimensionMismatch) else Ok((Header(l), later))
  {
    hide CountedThen, CellsThen, Collision, ReadI32, Take, Skip, Times, CellOk, Tiles, TilesThen, Regenes, Flat,
      Joined, I32Bytes;
    FlatLength(l.tiles, l.mapSize);
    var regenes := I32Bytes(|l.regenes|) + Joined(l.regenes, later);
    var events := EventsThen(l, later);
    var collision := l.width + (l.length + CountedThen(l.faces, 36, CellsThen(l.cells, events)));
    ReadCount(l.mapSize, l.unitDist + (l.heights + collision));
    TakeFront(l.unitDist, l.heights + collision);
    TakeFront(l.heights, collision);
    CollisionPassed(fl, l, events);
    SkipRecordsOf(l.objects, 24, TilesThen(Flat(l.tiles), regenes));
    TilesRead(Flat(l.tiles), regenes);
    ReadCount(|l.regenes|, Joined(l.regenes, later));
    RegenesRead(0, l.regenes, later);
  }

  /** A file laid out as documented is parsed to what it holds, whatever follows it, unless its
    * dimensions contradict each other. */
  lemma ParseLaidOut(fl: Floats, l: Layout, tail: seq<byte>)
    requires WellFormed(fl, l)
    ensures Parsed(fl, FileBytes(l, tail))
      == if fl.mismatch(l.mapSize, l.unitDist, l.width) then Err(DimensionMismatch)
         else Ok(Header(l).(warps := Gates(l.warps)))
  {
    hide Mandatory, MapThen, EventsThen, Joined, Flat, CellOk, Records, I32Bytes, ReadI32;
    SectionsFound(fl, l, WarpsThen(l, tail));
    ReadCount(|l.warps|, Joined(l.warps, tail));
    WarpsRead(l.warps, tail);
  }

  /** The event of every tile is the one stored for its row and column, and -1 off the map. */
  lemma EventIdsRecovered(fl: Floats, l: Layout, tail: seq<byte>, x: int, z: int)
    requires WellFormed(fl, l) && !fl.mismatch(l.mapSize, l.unitDist, l.width)
    ensures var r := Parsed(fl, FileBytes(l, tail));
      && r.Ok? && |r.value.eventGrid| == Times(l.mapSize, l.mapSize)
      && GetEventId(r.value, x, z) == if 0 <= x < l.mapSize && 0 <= z < l.mapSize then l.tiles[x][z] else -1
  {
    hide Parsed, FileBytes, CellOk, Records, Flat, Times;
    ParseLaidOut(fl, l, tail);
    FlatLength(l.tiles, l.mapSize);
    if 0 <= x < l.mapSize && 0 <= z < l.mapSize {
      FlatAt(l.tiles, l.mapSize, x, z);
    }
  }

  // --------------------------------------------------------------- files cut short

  /** The first `k` bytes, or all of them. */
  function First(s: seq<byte>, k: nat): seq<byte> { if k <= |s| then s[..k] else s }

  /** What a read makes of the first `k` bytes: the same, when it got by with those; else an
    * error. */
  ghost predicate ReadCut<T>(s: seq<byte>, k: nat, full: Result<(T, seq<byte>)>, cut: Result<(T, seq<byte>)>)
  {
    full.Ok? ==>
      && |full.value.1| <= |s|
      && var used := |s| - |full.value.1|;
      cut == if used <= k then Ok((full.value.0, First(full.value.1, k - used))) else Err(UnexpectedEof)
  }

  /** The same for a part that may end in a seek, which may leave nothing instead. */
  ghost predicate SkipCut(s: seq<byte>, k: nat, full: Result<seq<byte>>, cut: Result<seq<byte>>)
  {
    full.Ok? ==>
      && |full.value| <= |s|
      && var used := |s| - |full.value|;
      if used <= k then cut == Ok(First(full.value, k - used)) else cut == Err(UnexpectedEof) || cut == Ok([])
  }

  lemma TakeCut(s: seq<byte>, width: nat, k: nat)
    ensures ReadCut(s, k, Take(s, width), Take(First(s, k), width))
  {
    if width <= k <= |s| {
      assert s[..k][..width] == s[..width] && s[..k][width..] == s[width..][..k - width];
    }
  }

  lemma IntCut(s: seq<byte>, k: nat)
    ensures ReadCut(s, k, ReadI32(s), ReadI32(First(s, k)))
  {
    hide Take, I32Of;
    TakeCut(s, 4, k);
  }

  lemma SeekCut(s: seq<byte>, n: nat, k: nat)
    ensures |Skip(s, n)| <= |s|
    ensures Skip(First(s, k), n) == if n <= k then First(Skip(s, n), k - n) else []
    ensures |s| - |Skip(s, n)| == if n <= |s| then n else |s|
  {
  }

  lemma CountedCut(s: seq<byte>, width: nat, k: nat)
    ensures SkipCut(s, k, SkipCounted(s, width), SkipCounted(First(s, k), width))
  {
    hide ReadI32, Skip, Times;
    IntCut(s, k);
    if ReadI32(s).Ok? {
      var (count, rest) := ReadI32(s).value;
      var used := |s| - |rest|;
      if used <= k {
        SeekCut(rest, Times(Positive(count), width), k - used);
      } else {
        SeekCut(rest, Times(Positive(count), width), 0);
      }
    }
  }

  lemma {:induction false} SubCellsCut(n: nat, s: seq<byte>, k: nat)
    ensures SkipCut(s, k, SkipSubCells(n, s), SkipSubCells(n, First(s, k)))
    decreases n
  {
    hide SkipCounted;
    if n > 0 {
      CountedCut(s, 12, k);
      var full := SkipCounted(s, 12);
      if full.Ok? {
        var used := |s| - |full.value|;
        SubCellsCut(n - 1, full.value, if used <= k then k - used else 0);
      }
    }
  }

  lemma CellCut(s: seq<byte>, k: nat)
    ensures SkipCut(s, k, SkipCell(s), SkipCell(First(s, k)))
  {
    hide Take, SkipCounted, SkipSubCells, Le4;
    TakeCut(s, 4, k);
    var flag := Take(s, 4);
    if flag.Ok? && Le4(flag.value.0) != 0 {
      var s1, used1 := flag.value.1, |s| - |flag.value.1|;
      var k1 := if used1 <= k then k - used1 else 0;
      CountedCut(s1, 2, k1);
      var full := SkipCounted(s1, 2);
      if full.Ok? {
        var used := |s1| - |full.value|;
        SubCellsCut(16, full.value, if used <= k1 then k1 - used else 0);
      }
    }
  }

  lemma {:induction false} RowCut(n: nat, s: seq<byte>, k: nat)
    ensures SkipCut(s, k, SkipRow(n, s), SkipRow(n, First(s, k)))
    decreases n
  {
    hide SkipCell;
    if n > 0 {
      CellCut(s, k);
      var full := SkipCell(s);
      if full.Ok? {
        var used := |s| - |full.value|;
        RowCut(n - 1, full.value, if used <= k then k - used else 0);
      }
    }
  }

  lemma {:induction false} CellsCut(rows: nat, columns: nat, s: seq<byte>, k: nat)
    ensures SkipCut(s, k, SkipCells(rows, columns, s), SkipCells(rows, columns, First(s, k)))
    decreases rows
  {
    hide SkipRow;
    if rows > 0 {
      RowCut(columns, s, k);
      var full := SkipRow(columns, s);
      if full.Ok? {
        var used := |s| - |full.value|;
        CellsCut(rows - 1, columns, full.value, if used <= k then k - used else 0);
      }
    }
  }

  lemma {:induction false} TilesCut(n: nat, s: seq<byte>, k: nat)
    ensures ReadCut(s, k, Tiles(n, s), Tiles(n, First(s, k)))
    decreases n
  {
    hide Take, I16Of;
    if n > 0 {
      TakeCut(s, 2, k);
      var full := Take(s, 2);
      if full.Ok? {
        var used := |s| - |full.value.1|;
        TilesCut(n - 1, full.value.1, if used <= k then k - used else 0);
      }
    }
  }

  lemma {:induction false} RegenesCut(id: nat, n: nat, s: seq<byte>, k: nat)
    ensures ReadCut(s, k, Regenes(id, n, s), Regenes(id, n, First(s, k)))
    decreases n
  {
    hide Take;
    if n > 0 {
      TakeCut(s, 20, k);
      var full := Take(s, 20);
      if full.Ok? {
        var used := |s| - |full.value.1|;
        RegenesCut(id + 1, n - 1, full.value.1, if used <= k then k - used else 0);
      }
    }
  }

  /** What is left of the first `k` bytes of `s` when the bytes in front of `rest` are gone. */
  function Left(s: seq<byte>, rest: seq<byte>, k: nat): nat
  {
    if |s| - |rest| <= k then k - (|s| - |rest|) else 0
  }

  /** The collision section ends in seeks: cut inside it, it may still be got by, with
    * nothing left. */
  ghost predicate CollisionCutTo(s: seq<byte>, k: nat, full: Result<((seq<byte>, seq<byte>), seq<byte>)>,
      cut: Result<((seq<byte>, seq<byte>), seq<byte>)>)
  {
    full.Ok? ==>
      && |full.value.1| <= |s|
      && var used := |s| - |full.value.1|;
      if used <= k then cut == Ok((full.value.0, First(full.value.1, k - used)))
      else cut == Err(UnexpectedEof) || cut == Ok((full.value.0, []))
  }

  lemma CollisionCut(fl: Floats, s: seq<byte>, k: nat)
    ensures CollisionCutTo(s, k, Collision(fl, s), Collision(fl, First(s, k)))
  {
    hide Take, ReadI32, Skip, SkipCells, Times;
    if Collision(fl, s).Ok? {
      var (width, s1) := Take(s, 4).value;
      TakeCut(s, 4, k);
      var k1 := Left(s, s1, k);
      var (length, s2) := Take(s1, 4).value;
      TakeCut(s1, 4, k1);
      var k2 := Left(s1, s2, k1);
      var (faces, s3) := ReadI32(s2).value;
      IntCut(s2, k2);
      var k3 := Left(s2, s3, k2);
      SeekCut(s3, Times(faces, 36), k3);
      var s4 := Skip(s3, Times(faces, 36));
      CellsCut(Positive(fl.cells(length)), Positive(fl.cells(width)), s4, Left(s3, s4, k3));
    }
  }

  lemma NothingToRead(n: nat)
    ensures ReadI32([]) == Err(UnexpectedEof)
    ensures n > 0 ==> Tiles(n, []) == Err(UnexpectedEof)
  {
  }

  /** The part behind the collision section. */
  lemma EventsCut(area: nat, s: seq<byte>, k: nat)
    requires area > 0 && ReadI32(s).Ok? && ReadI32(s).value.0 >= 0
    requires Tiles(area, Skip(ReadI32(s).value.1, Times(ReadI32(s).value.0, 24))).Ok?
    ensures var (objects, s1) := ReadI32(s).value;
      var full := Tiles(area, Skip(s1, Times(objects, 24)));
      && |full.value.1| <= |s|
      && var used := |s| - |full.value.1|;
      var cut := ReadI32(First(s, k));
      if used <= k then
        && cut.Ok? && cut.value.0 == objects
        && Tiles(area, Skip(cut.value.1, Times(objects, 24))) == Ok((full.value.0, First(full.value.1, k - used)))
      else
        || cut == Err(UnexpectedEof)
        || (cut.Ok? && cut.value.0 == objects
            && Tiles(area, Skip(cut.value.1, Times(objects, 24))) == Err(UnexpectedEof))
  {
    hide ReadI32, Skip, Times, Tiles;
    var (objects, s1) := ReadI32(s).value;
    IntCut(s, k);
    var k1 := Left(s, s1, k);
    SeekCut(s1, Times(objects, 24), k1);
    var s2 := Skip(s1, Times(objects, 24));
    TilesCut(area, s2, Left(s1, s2, k1));
    NothingToRead(area);
  }

  lemma AreaPositive(n: nat)
    requires n > 0
    ensures Times(n, n) > 0
  {
  }

  lemma MandatoryCut(fl: Floats, s: seq<byte>, k: nat)
    ensures ReadCut(s, k, Mandatory(fl, s), Mandatory(fl, First(s, k)))
  {
    hide ReadI32, Skip, Times, Tiles, Take, Collision, Regenes;
    if Mandatory(fl, s).Ok? {
      var (mapSize, s1) := ReadI32(s).value;
      IntCut(s, k);
      var k1 := Left(s, s1, k);
      var (unitDist, s2) := Take(s1, 4).value;
      TakeCut(s1, 4, k1);
      var k2 := Left(s1, s2, k1);
      var area := Times(mapSize, mapSize);
      AreaPositive(mapSize);
      SeekCut(s2, 4 * area, k2);
      var s3 := Skip(s2, 4 * area);
      var k3 := Left(s2, s3, k2);
      CollisionCut(fl, s3, k3);
      var s4 := Collision(fl, s3).value.1;
      var k4 := Left(s3, s4, k3);
      NothingToRead(area);
      EventsCut(area, s4, k4);
      var (objects, s5) := ReadI32(s4).value;
      var s6 := Tiles(area, Skip(s5, Times(objects, 24))).value.1;
      var k6 := Left(s4, s6, k4);
      IntCut(s6, k6);
      var (regenes, s7) := ReadI32(s6).value;
      RegenesCut(0, Positive(regenes), s7, Left(s6, s7, k6));
    }
  }

  lemma {:induction false} WarpsCut(n: nat, s: seq<byte>, k: nat)
    ensures Warps(n, First(s, k)) <= Warps(n, s)
    decreases n
  {
    assert Take(s, 320).Err? ==> Take(First(s, k), 320).Err?;
    hide Take, WarpOf;
    if n > 0 && Take(s, 320).Ok? {
      TakeCut(s, 320, k);
      var (record, rest) := Take(s, 320).value;
      if |s| - |rest| <= k {
        WarpsCut(n - 1, rest, Left(s, rest, k));
      }
    }
  }

  lemma WarpListCut(s: seq<byte>, k: nat)
    ensures WarpList(First(s, k)) <= WarpList(s)
  {
    hide Warps;
    IntCut(s, k);
    if ReadI32(s).Ok? {
      var (count, rest) := ReadI32(s).value;
      if |s| - |rest| <= k {
        WarpsCut(Positive(count), rest, k - (|s| - |rest|));
      }
    }
  }

  /** A file cut short is rejected exactly when the cut comes before the warp list; a later
    * cut loses nothing but warp gates at the end of the list, without an error. */
  lemma TruncationExactly(fl: Floats, s: seq<byte>, k: nat)
    requires Mandatory(fl, s).Ok?
    ensures |Mandatory(fl, s).value.1| <= |s|
    ensures var needed := |s| - |Mandatory(fl, s).value.1|;
      if k < needed then Parsed(fl, First(s, k)) == Err(UnexpectedEof)
      else
        && Parsed(fl, s).Ok? && Parsed(fl, First(s, k)).Ok?
        && var (whole, cut) := (Parsed(fl, s).value, Parsed(fl, First(s, k)).value);
        cut == whole.(warps := cut.warps) && cut.warps <= whole.warps
  {
    hide Mandatory, WarpList;
    MandatoryCut(fl, s, k);
    var rest := Mandatory(fl, s).value.1;
    if |s| - |rest| <= k {
      WarpListCut(rest, k - (|s| - |rest|));
    }
  }
}
