/** The decrypted .tbl format: column schema and rows, written and read back. */
module TblCodec {
  import opened Bytes
  import opened Sequences

  datatype Result<+T> = Ok(value: T) | Err(error: ParseError)

  datatype ParseError =
    | UnexpectedEof
    | InvalidColumnCount(count: nat)
    | UnknownColumnType(id: int)
    | SuspiciousRowCount(count: nat)
    | StringTooLong(length: int)

  datatype ColumnType =
    | SignedByte | UnsignedByte | SignedShort | UnsignedShort | SignedInt | UnsignedInt
    | String | Float | Double | SignedLong | UnsignedLong

  type i8 = v: int | -0x80 <= v < 0x80
  type u8 = v: int | 0 <= v < 0x100
  type i16 = v: int | -0x8000 <= v < 0x8000
  type u16 = v: int | 0 <= v < 0x1_0000
  type i32 = v: int | -0x8000_0000 <= v < 0x8000_0000
  type u32 = v: int | 0 <= v < 0x1_0000_0000
  type i64 = v: int | -0x8000_0000_0000_0000 <= v < 0x8000_0000_0000_0000
  type u64 = v: int | 0 <= v < 0x1_0000_0000_0000_0000

  /** A cell. Floats are their bit patterns; a string is its UTF-8 bytes, as in Rust. */
  datatype Cell =
    | I8(i8: i8) | U8(u8: u8) | I16(i16: i16) | U16(u16: u16) | I32(i32: i32) | U32(u32: u32)
    | Str(text: seq<byte>) | F32(f32: u32) | F64(f64: u64) | I64(i64: i64) | U64(u64: u64)

  datatype Table = Table(columns: seq<ColumnType>, rows: seq<seq<Cell>>)

  /** The character-set library: EUC-KR encoding, UTF-8 validation, and what the
    * parser falls back to when the bytes are not UTF-8. */
  datatype Charset = Charset(
    eucKr: seq<byte> -> seq<byte>,
    isUtf8: seq<byte> -> bool,
    legacy: seq<byte> -> seq<byte>)
  {
    /** The string the parser makes of the stored bytes. */
    function Decode(b: seq<byte>): seq<byte> { if isUtf8(b) then b else legacy(b) }

    /** A string after being written and read. */
    function Reread(text: seq<byte>): seq<byte>
    {
      if eucKr(text) == [] then [] else Decode(eucKr(text))
    }

    /** Both encodings leave 7-bit text alone. */
    ghost predicate AsciiTransparent()
    {
      forall s: seq<byte> :: IsAscii(s) ==> eucKr(s) == s && isUtf8(s)
    }
  }

  predicate IsAscii(s: seq<byte>) { forall i :: 0 <= i < |s| ==> s[i] < 0x80 }

  const MAX_COLUMNS: nat := 1000
  const MAX_ROWS: nat := 10_000_000
  const MAX_STRING: nat := 65536

  /** The five bytes in front of a ChaosExpansion table. */
  const NEW_STRUCTURE_HEADER: seq<byte> := [1, 0, 0, 0, 0]

  function TypeId(c: ColumnType): (id: nat)
    ensures 1 <= id <= 11
  {
    match c
    case SignedByte => 1
    case UnsignedByte => 2
    case SignedShort => 3
    case UnsignedShort => 4
    case SignedInt => 5
    case UnsignedInt => 6
    case String => 7
    case Float => 8
    case Double => 9
    case SignedLong => 10
    case UnsignedLong => 11
  }

  /** `ColumnType::from_i32`. */
  function FromI32(v: int): (r: Result<ColumnType>)
    ensures r.Ok? <==> 1 <= v <= 11
    ensures r.Ok? ==> TypeId(r.value) == v
  {
    if v == 1 then Ok(SignedByte)
    else if v == 2 then Ok(UnsignedByte)
    else if v == 3 then Ok(SignedShort)
    else if v == 4 then Ok(UnsignedShort)
    else if v == 5 then Ok(SignedInt)
    else if v == 6 then Ok(UnsignedInt)
    else if v == 7 then Ok(String)
    else if v == 8 then Ok(Float)
    else if v == 9 then Ok(Double)
    else if v == 10 then Ok(SignedLong)
    else if v == 11 then Ok(UnsignedLong)
    else Err(UnknownColumnType(v))
  }

  predicate HasType(c: Cell, ct: ColumnType)
  {
    match ct
    case SignedByte => c.I8?
    case UnsignedByte => c.U8?
    case SignedShort => c.I16?
    case UnsignedShort => c.U16?
    case SignedInt => c.I32?
    case UnsignedInt => c.U32?
    case String => c.Str?
    case Float => c.F32?
    case Double => c.F64?
    case SignedLong => c.I64?
    case UnsignedLong => c.U64?
  }

  predicate RowTyped(row: seq<Cell>, columns: seq<ColumnType>)
  {
    |row| == |columns| && forall i :: 0 <= i < |row| ==> HasType(row[i], columns[i])
  }

  predicate CellFits(cs: Charset, c: Cell) { c.Str? ==> |cs.eucKr(c.text)| <= MAX_STRING }

  predicate RowFits(cs: Charset, row: seq<Cell>) { forall i :: 0 <= i < |row| ==> CellFits(cs, row[i]) }

  predicate RowsTyped(rows: seq<seq<Cell>>, columns: seq<ColumnType>)
  {
    forall r :: 0 <= r < |rows| ==> RowTyped(rows[r], columns)
  }

  predicate RowsFit(cs: Charset, rows: seq<seq<Cell>>)
  {
    forall r :: 0 <= r < |rows| ==> RowFits(cs, rows[r])
  }

  /** A table whose rows follow its columns, of a number the parser takes. */
  predicate WellTyped(t: Table) { 1 <= |t.columns| <= MAX_COLUMNS && RowsTyped(t.rows, t.columns) }

  /** Well-typed and within the limits of the parser. */
  predicate Storable(cs: Charset, t: Table)
  {
    WellTyped(t) && |t.rows| <= MAX_ROWS && RowsFit(cs, t.rows)
  }

  // --------------------------------------------------------------------- writing

  function CellBytes(cs: Charset, c: Cell): seq<byte>
  {
    match c
    case I8(v) => LeBytes(Unsigned(v, 0x100), 1)
    case U8(v) => LeBytes(v, 1)
    case I16(v) => LeBytes(Unsigned(v, 0x1_0000), 2)
    case U16(v) => LeBytes(v, 2)
    case I32(v) => LeBytes(Unsigned(v, 0x1_0000_0000), 4)
    case U32(v) => LeBytes(v, 4)
    case Str(s) => I32Bytes(|cs.eucKr(s)|) + cs.eucKr(s)
    case F32(v) => LeBytes(v, 4)
    case F64(v) => LeBytes(v, 8)
    case I64(v) => LeBytes(Unsigned(v, 0x1_0000_0000_0000_0000), 8)
    case U64(v) => LeBytes(v, 8)
  }

  function RowBytes(cs: Charset, row: seq<Cell>): seq<byte>
  {
    if row == [] then [] else CellBytes(cs, row[0]) + RowBytes(cs, row[1..])
  }

  function RowsBytes(cs: Charset, rows: seq<seq<Cell>>): seq<byte>
  {
    if rows == [] then [] else RowBytes(cs, rows[0]) + RowsBytes(cs, rows[1..])
  }

  function TypesBytes(columns: seq<ColumnType>): seq<byte>
  {
    if columns == [] then [] else I32Bytes(TypeId(columns[0])) + TypesBytes(columns[1..])
  }

  /** The table without the new-structure header. */
  function BodyBytes(cs: Charset, t: Table): seq<byte>
  {
    I32Bytes(|t.columns|) + (TypesBytes(t.columns) + (I32Bytes(|t.rows|) + RowsBytes(cs, t.rows)))
  }

  function Serialized(cs: Charset, t: Table, newStructure: bool): seq<byte>
  {
    (if newStructure then NEW_STRUCTURE_HEADER else []) + BodyBytes(cs, t)
  }

  method SerializeTbl(cs: Charset, t: Table, newStructure: bool) returns (buf: seq<byte>)
    ensures buf == Serialized(cs, t, newStructure)
  {
    hide I32Bytes, TypesBytes, RowsBytes;
    buf := [];
    if newStructure {
      buf := buf + [1, 0, 0, 0];
      buf := buf + [0];
    }
    ghost var header := buf;
    buf := buf + I32Bytes(|t.columns|);
    buf := WriteTypes(buf, t.columns);
    buf := buf + I32Bytes(|t.rows|);
    buf := WriteRows(cs, buf, t.rows);
    FourParts(header, I32Bytes(|t.columns|), TypesBytes(t.columns), I32Bytes(|t.rows|), RowsBytes(cs, t.rows));
  }

  lemma FourParts(h: seq<byte>, a: seq<byte>, b: seq<byte>, c: seq<byte>, d: seq<byte>)
    ensures h + a + b + c + d == h + (a + (b + (c + d)))
  {
  }

  method WriteTypes(start: seq<byte>, columns: seq<ColumnType>) returns (buf: seq<byte>)
    ensures buf == start + TypesBytes(columns)
  {
    buf := start;
    for c := 0 to |columns|
      invariant buf + TypesBytes(columns[c..]) == start + TypesBytes(columns)
    {
      assert columns[c..][1..] == columns[c + 1..];
      Regroup(buf, I32Bytes(TypeId(columns[c])), TypesBytes(columns[c + 1..]));
      buf := buf + I32Bytes(TypeId(columns[c]));
    }
  }

  method WriteRows(cs: Charset, start: seq<byte>, rows: seq<seq<Cell>>) returns (buf: seq<byte>)
    ensures buf == start + RowsBytes(cs, rows)
  {
    buf := start;
    for r := 0 to |rows|
      invariant buf + RowsBytes(cs, rows[r..]) == start + RowsBytes(cs, rows)
    {
      var row := rows[r];
      assert rows[r..][1..] == rows[r + 1..];
      Regroup(buf, RowBytes(cs, row), RowsBytes(cs, rows[r + 1..]));
      ghost var before := buf;
      for c := 0 to |row|
        invariant buf + RowBytes(cs, row[c..]) == before + RowBytes(cs, row)
      {
        assert row[c..][1..] == row[c + 1..];
        Regroup(buf, CellBytes(cs, row[c]), RowBytes(cs, row[c + 1..]));
        buf := buf + CellBytes(cs, row[c]);
      }
      assert buf == before + RowBytes(cs, row);
    }
  }

  // --------------------------------------------------------------------- reading

  /** `read_exact` of `k` bytes. */
  function Take(s: seq<byte>, k: nat): (r: Result<(seq<byte>, seq<byte>)>)
    ensures r.Ok? ==> |r.value.0| == k && s == r.value.0 + r.value.1
  {
    if k <= |s| then Ok((s[..k], s[k..])) else Err(UnexpectedEof)
  }

  /** Bytes of a cell of fixed width; for a string, of its length. */
  function Width(ct: ColumnType): (k: nat)
    ensures k == 1 || k == 2 || k == 4 || k == 8
  {
    match ct
    case SignedByte | UnsignedByte => 1
    case SignedShort | UnsignedShort => 2
    case SignedInt | UnsignedInt | String | Float => 4
    case Double | SignedLong | UnsignedLong => 8
  }

  function FixedCell(ct: ColumnType, b: seq<byte>): Cell
    requires |b| == Width(ct) && !ct.String?
  {
    match ct
    case SignedByte => I8(Signed(Le1(b), 0x100))
    case UnsignedByte => U8(Le1(b))
    case SignedShort => I16(Signed(Le2(b), 0x1_0000))
    case UnsignedShort => U16(Le2(b))
    case SignedInt => I32(I32Of(b))
    case UnsignedInt => U32(Le4(b))
    case Float => F32(Le4(b))
    case Double => F64(Le8(b))
    case SignedLong => I64(Signed(Le8(b), 0x1_0000_0000_0000_0000))
    case UnsignedLong => U64(Le8(b))
  }

  /** The cell of column type `ct` at the front of `s`, and what follows it. */
  function ReadCell(cs: Charset, ct: ColumnType, s: seq<byte>): Result<(Cell, seq<byte>)>
  {
    match Take(s, Width(ct))
    case Err(e) => Err(e)
    case Ok((b, rest)) =>
      if ct.String? then ReadText(cs, I32Of(b), rest) else Ok((FixedCell(ct, b), rest))
  }

  /** The text of a length-prefixed string; a length that is not positive reads as the empty string. */
  function ReadText(cs: Charset, strLen: int, s: seq<byte>): Result<(Cell, seq<byte>)>
  {
    if strLen <= 0 then Ok((Str([]), s))
    else if strLen > MAX_STRING then Err(StringTooLong(strLen))
    else
      match Take(s, strLen)
      case Err(e) => Err(e)
      case Ok((text, rest)) => Ok((Str(cs.Decode(text)), rest))
  }

  function ReadRow(cs: Charset, columns: seq<ColumnType>, s: seq<byte>): Result<(seq<Cell>, seq<byte>)>
  {
    if columns == [] then Ok(([], s)) else
      match ReadCell(cs, columns[0], s)
      case Err(e) => Err(e)
      case Ok((cell, rest)) => Prepend([cell], ReadRow(cs, columns[1..], rest))
  }

  function ReadRows(cs: Charset, columns: seq<ColumnType>, count: nat,
      s: seq<byte>): Result<(seq<seq<Cell>>, seq<byte>)>
  {
    if count == 0 then Ok(([], s)) else
      match ReadRow(cs, columns, s)
      case Err(e) => Err(e)
      case Ok((row, rest)) => Prepend([row], ReadRows(cs, columns, count - 1, rest))
  }

  function ReadTypes(count: nat, s: seq<byte>): Result<(seq<ColumnType>, seq<byte>)>
  {
    if count == 0 then Ok(([], s)) else
      match Take(s, 4)
      case Err(e) => Err(e)
      case Ok((b, rest)) =>
        match FromI32(I32Of(b))
        case Err(e) => Err(e)
        case Ok(ct) => Prepend([ct], ReadTypes(count - 1, rest))
  }

  /** Put what was read earlier in front of what was read later. */
  function Prepend<T>(first: seq<T>, later: Result<(seq<T>, seq<byte>)>): Result<(seq<T>, seq<byte>)>
  {
    match later
    case Err(e) => Err(e)
    case Ok((items, rest)) => Ok((first + items, rest))
  }

  /** The table after the new-structure header, if there is one. */
  function ParsedBody(cs: Charset, s: seq<byte>): Result<Table>
  {
    match Take(s, 4)
    case Err(e) => Err(e)
    case Ok((b, s1)) =>
      var columnCount := AsUsize(I32Of(b));
      if columnCount == 0 || columnCount > MAX_COLUMNS then Err(InvalidColumnCount(columnCount))
      else
        match ReadTypes(columnCount, s1)
        case Err(e) => Err(e)
        case Ok((columns, s2)) =>
          match Take(s2, 4)
          case Err(e) => Err(e)
          case Ok((b', s3)) =>
            var rowCount := AsUsize(I32Of(b'));
            if rowCount > MAX_ROWS then Err(SuspiciousRowCount(rowCount))
            else
              match ReadRows(cs, columns, rowCount, s3)
              case Err(e) => Err(e)
              case Ok((rows, _)) => Ok(Table(columns, rows))
  }

  function Parsed(cs: Charset, data: seq<byte>, newStructure: bool): Result<Table>
  {
    if !newStructure then ParsedBody(cs, data)
    else if |data| < 5 then Err(UnexpectedEof)
    else ParsedBody(cs, data[5..])
  }

  /** `parse_tbl`: a cursor moving over the data. */
  method ParseTbl(cs: Charset, data: seq<byte>, newStructure: bool) returns (r: Result<Table>)
    ensures r == Parsed(cs, data, newStructure)
  {
    var pos := 0;
    if newStructure {
      if |data| < 5 {
        return Err(UnexpectedEof);
      }
      pos := 5;
    }
    ghost var body := data[pos..];
    if pos + 4 > |data| {
      return Err(UnexpectedEof);
    }
    assert data[pos..pos + 4] == body[..4] && data[pos + 4..] == body[4..];
    var columnCount := AsUsize(I32Of(data[pos..pos + 4]));
    pos := pos + 4;
    if columnCount == 0 || columnCount > MAX_COLUMNS {
      return Err(InvalidColumnCount(columnCount));
    }
    var types := ParseTypes(data, pos, columnCount);
    if types.Err? {
      return Err(types.error);
    }
    var columns;
    columns, pos := types.value.0, types.value.1;
    if pos + 4 > |data| {
      return Err(UnexpectedEof);
    }
    assert data[pos..pos + 4] == data[pos..][..4] && data[pos + 4..] == data[pos..][4..];
    var rowCount := AsUsize(I32Of(data[pos..pos + 4]));
    pos := pos + 4;
    if rowCount > MAX_ROWS {
      return Err(SuspiciousRowCount(rowCount));
    }
    var rows := ParseRows(cs, columns, rowCount, data, pos);
    if rows.Err? {
      return Err(rows.error);
    }
    return Ok(Table(columns, rows.value.0));
  }

  /** A cursor result means the same as the function's, with the rest given by a position. */
  ghost predicate Agrees<T>(data: seq<byte>, r: Result<(T, nat)>, spec: Result<(T, seq<byte>)>)
  {
    match r
    case Err(e) => spec == Err(e)
    case Ok((v, pos)) => pos <= |data| && spec == Ok((v, data[pos..]))
  }

  method ParseTypes(data: seq<byte>, start: nat, count: nat) returns (r: Result<(seq<ColumnType>, nat)>)
    requires start <= |data|
    ensures Agrees(data, r, ReadTypes(count, data[start..]))
  {
    ghost var spec := ReadTypes(count, data[start..]);
    var columns, pos := [], start;
    PrependNothing(spec);
    for i := 0 to count
      invariant 0 <= pos <= |data|
      invariant Prepend(columns, ReadTypes(count - i, data[pos..])) == spec
    {
      if pos + 4 > |data| {
        return Err(UnexpectedEof);
      }
      assert data[pos..pos + 4] == data[pos..][..4] && data[pos + 4..] == data[pos..][4..];
      var ct := FromI32(I32Of(data[pos..pos + 4]));
      if ct.Err? {
        return Err(ct.error);
      }
      PrependTwice(columns, [ct.value], ReadTypes(count - i - 1, data[pos + 4..]));
      columns, pos := columns + [ct.value], pos + 4;
    }
    assert columns + [] == columns;
    return Ok((columns, pos));
  }

  method ParseRows(cs: Charset, columns: seq<ColumnType>, rowCount: nat, data: seq<byte>, start: nat)
    returns (r: Result<(seq<seq<Cell>>, nat)>)
    requires start <= |data|
    ensures Agrees(data, r, ReadRows(cs, columns, rowCount, data[start..]))
  {
    ghost var spec := ReadRows(cs, columns, rowCount, data[start..]);
    var rows, pos := [], start;
    PrependNothing(spec);
    for i := 0 to rowCount
      invariant 0 <= pos <= |data|
      invariant Prepend(rows, ReadRows(cs, columns, rowCount - i, data[pos..])) == spec
    {
      var row := ParseRow(cs, columns, data, pos);
      if row.Err? {
        return Err(row.error);
      }
      PrependTwice(rows, [row.value.0], ReadRows(cs, columns, rowCount - i - 1, data[row.value.1..]));
      rows, pos := rows + [row.value.0], row.value.1;
    }
    assert rows + [] == rows;
    return Ok((rows, pos));
  }

  method ParseRow(cs: Charset, columns: seq<ColumnType>, data: seq<byte>, start: nat)
    returns (r: Result<(seq<Cell>, nat)>)
    requires start <= |data|
    ensures Agrees(data, r, ReadRow(cs, columns, data[start..]))
  {
    ghost var spec := ReadRow(cs, columns, data[start..]);
    var row, pos := [], start;
    PrependNothing(spec);
    assert columns[0..] == columns;
    for c := 0 to |columns|
      invariant 0 <= pos <= |data|
      invariant Prepend(row, ReadRow(cs, columns[c..], data[pos..])) == spec
    {
      var cell := ParseCell(cs, columns[c], data, pos);
      if cell.Err? {
        return Err(cell.error);
      }
      assert columns[c..][1..] == columns[c + 1..];
      PrependTwice(row, [cell.value.0], ReadRow(cs, columns[c + 1..], data[cell.value.1..]));
      row, pos := row + [cell.value.0], cell.value.1;
    }
    assert row + [] == row;
    return Ok((row, pos));
  }

  lemma PrependNothing<T>(r: Result<(seq<T>, seq<byte>)>)
    ensures Prepend([], r) == r
  {
    if r.Ok? {
      assert [] + r.value.0 == r.value.0;
    }
  }

  lemma PrependTwice<T>(a: seq<T>, b: seq<T>, r: Result<(seq<T>, seq<byte>)>)
    ensures Prepend(a, Prepend(b, r)) == Prepend(a + b, r)
  {
    if r.Ok? {
      assert a + (b + r.value.0) == (a + b) + r.value.0;
    }
  }

  /** One cell at the cursor. */
  method ParseCell(cs: Charset, ct: ColumnType, data: seq<byte>, start: nat) returns (r: Result<(Cell, nat)>)
    requires start <= |data|
    ensures Agrees(data, r, ReadCell(cs, ct, data[start..]))
  {
    var width := Width(ct);
    if start + width > |data| {
      return Err(UnexpectedEof);
    }
    var b, pos := data[start..start + width], start + width;
    assert b == data[start..][..width] && data[pos..] == data[start..][width..];
    if !ct.String? {
      return Ok((FixedCell(ct, b), pos));
    }
    var strLen := I32Of(b);
    if strLen <= 0 {
      return Ok((Str([]), pos));
    } else if strLen > MAX_STRING {
      return Err(StringTooLong(strLen));
    } else if pos + strLen > |data| {
      return Err(UnexpectedEof);
    } else {
      assert data[pos..pos + strLen] == data[pos..][..strLen] && data[pos + strLen..] == data[pos..][strLen..];
      return Ok((Str(cs.Decode(data[pos..pos + strLen])), pos + strLen));
    }
  }

  // --------------------------------------------------------------- the round trip

  /** A cell after being written and read: only strings can change. */
  function RereadCell(cs: Charset, c: Cell): Cell { if c.Str? then Str(cs.Reread(c.text)) else c }

  function RereadRow(cs: Charset, row: seq<Cell>): (r: seq<Cell>)
    ensures |r| == |row|
  {
    seq(|row|, i requires 0 <= i < |row| => RereadCell(cs, row[i]))
  }

  function RereadRows(cs: Charset, rows: seq<seq<Cell>>): (r: seq<seq<Cell>>)
    ensures |r| == |rows|
  {
    seq(|rows|, i requires 0 <= i < |rows| => RereadRow(cs, rows[i]))
  }

  lemma TakeFront(b: seq<byte>, rest: seq<byte>)
    ensures Take(b + rest, |b|) == Ok((b, rest))
  {
  }

  /** Every fixed-width value comes back from its bytes, negative ones included. */
  lemma FixedRoundTrip(cs: Charset, ct: ColumnType, c: Cell)
    requires HasType(c, ct) && !ct.String?
    ensures |CellBytes(cs, c)| == Width(ct) && FixedCell(ct, CellBytes(cs, c)) == c
  {
    hide LeBytes, Le1, Le2, Le4, Le8, Signed, Unsigned;
    match c
    case I8(v) => SignedRoundTrip(v, 0x100); FixedWidthRoundTrips(Unsigned(v, 0x100));
    case I16(v) => SignedRoundTrip(v, 0x1_0000); FixedWidthRoundTrips(Unsigned(v, 0x1_0000));
    case I32(v) => SignedRoundTrip(v, 0x1_0000_0000); FixedWidthRoundTrips(Unsigned(v, 0x1_0000_0000));
    case I64(v) =>
      SignedRoundTrip(v, 0x1_0000_0000_0000_0000);
      FixedWidthRoundTrips(Unsigned(v, 0x1_0000_0000_0000_0000));
    case _ => UnsignedRoundTrip(cs, ct, c);
  }

  lemma UnsignedRoundTrip(cs: Charset, ct: ColumnType, c: Cell)
    requires HasType(c, ct) && (c.U8? || c.U16? || c.U32? || c.F32? || c.F64? || c.U64?)
    ensures |CellBytes(cs, c)| == Width(ct) && FixedCell(ct, CellBytes(cs, c)) == c
  {
    hide CellBytes, FixedCell, Width;
    match c
    case U8(v) => SmallRoundTrip(cs, ct, c);
    case U16(v) => SmallRoundTrip(cs, ct, c);
    case U32(v) => WordRoundTrip(cs, ct, c);
    case F32(v) => WordRoundTrip(cs, ct, c);
    case F64(v) => WideRoundTrip(cs, ct, c);
    case U64(v) => WideRoundTrip(cs, ct, c);
  }

  lemma SmallRoundTrip(cs: Charset, ct: ColumnType, c: Cell)
    requires HasType(c, ct) && (c.U8? || c.U16?)
    ensures |CellBytes(cs, c)| == Width(ct) && FixedCell(ct, CellBytes(cs, c)) == c
  {
    hide LeBytes, Le1, Le2, Le4, Le8;
    FixedWidthRoundTrips(if c.U8? then c.u8 else c.u16);
  }

  lemma WordRoundTrip(cs: Charset, ct: ColumnType, c: Cell)
    requires HasType(c, ct) && (c.U32? || c.F32?)
    ensures |CellBytes(cs, c)| == Width(ct) && FixedCell(ct, CellBytes(cs, c)) == c
  {
    hide LeBytes, Le1, Le2, Le4, Le8;
    FixedWidthRoundTrips(if c.U32? then c.u32 else c.f32);
  }

  lemma WideRoundTrip(cs: Charset, ct: ColumnType, c: Cell)
    requires HasType(c, ct) && (c.F64? || c.U64?)
    ensures |CellBytes(cs, c)| == Width(ct) && FixedCell(ct, CellBytes(cs, c)) == c
  {
    hide LeBytes, Le1, Le2, Le4, Le8;
    FixedWidthRoundTrips(if c.F64? then c.f64 else c.u64);
  }

  lemma CellRoundTrip(cs: Charset, ct: ColumnType, c: Cell, rest: seq<byte>)
    requires HasType(c, ct) && CellFits(cs, c)
    ensures ReadCell(cs, ct, CellBytes(cs, c) + rest) == Ok((RereadCell(cs, c), rest))
  {
    hide I32Bytes, I32Of, LeBytes, FixedCell;
    if ct.String? {
      var e := cs.eucKr(c.text);
      I32RoundTrip(|e|);
      Regroup(I32Bytes(|e|), e, rest);
      TakeFront(I32Bytes(|e|), e + rest);
      TakeFront(e, rest);
      if e == [] {
        assert e + rest == rest;
      }
    } else {
      FixedRoundTrip(cs, ct, c);
      TakeFront(CellBytes(cs, c), rest);
    }
  }

  lemma {:induction false} RowRoundTrip(cs: Charset, columns: seq<ColumnType>, row: seq<Cell>, rest: seq<byte>)
    requires RowTyped(row, columns) && RowFits(cs, row)
    ensures ReadRow(cs, columns, RowBytes(cs, row) + rest) == Ok((RereadRow(cs, row), rest))
  {
    hide CellBytes, ReadCell;
    if row == [] {
      assert RowBytes(cs, row) + rest == rest;
    } else {
      var later := RowBytes(cs, row[1..]) + rest;
      assert RowBytes(cs, row) + rest == CellBytes(cs, row[0]) + later;
      CellRoundTrip(cs, columns[0], row[0], later);
      RowRoundTrip(cs, columns[1..], row[1..], rest);
      assert RereadRow(cs, row) == [RereadCell(cs, row[0])] + RereadRow(cs, row[1..]);
    }
  }

  lemma {:induction false} RowsRoundTrip(cs: Charset, columns: seq<ColumnType>, rows: seq<seq<Cell>>, rest: seq<byte>)
    requires RowsTyped(rows, columns) && RowsFit(cs, rows)
    ensures ReadRows(cs, columns, |rows|, RowsBytes(cs, rows) + rest) == Ok((RereadRows(cs, rows), rest))
  {
    hide RowBytes, ReadRow;
    if rows == [] {
      assert RowsBytes(cs, rows) + rest == rest;
    } else {
      var later := RowsBytes(cs, rows[1..]) + rest;
      assert RowsBytes(cs, rows) + rest == RowBytes(cs, rows[0]) + later;
      RowRoundTrip(cs, columns, rows[0], later);
      RowsRoundTrip(cs, columns, rows[1..], rest);
      assert RereadRows(cs, rows) == [RereadRow(cs, rows[0])] + RereadRows(cs, rows[1..]);
    }
  }

  lemma TypeRoundTrip(ct: ColumnType)
    ensures FromI32(I32Of(I32Bytes(TypeId(ct)))) == Ok(ct)
  {
    hide I32Of, I32Bytes;
    I32RoundTrip(TypeId(ct));
  }

  lemma {:induction false} TypesRoundTrip(columns: seq<ColumnType>, rest: seq<byte>)
    ensures ReadTypes(|columns|, TypesBytes(columns) + rest) == Ok((columns, rest))
  {
    hide I32Bytes, I32Of, TypeId, FromI32, Take;
    if columns == [] {
      assert TypesBytes(columns) + rest == rest;
    } else {
      var later := TypesBytes(columns[1..]) + rest;
      Regroup(I32Bytes(TypeId(columns[0])), TypesBytes(columns[1..]), rest);
      TakeFront(I32Bytes(TypeId(columns[0])), later);
      TypeRoundTrip(columns[0]);
      TypesRoundTrip(columns[1..], rest);
      assert columns == [columns[0]] + columns[1..];
    }
  }

  /** Reading a written table: the row limit is checked, then its rows are read with its columns. */
  lemma BodyRead(cs: Charset, t: Table, tail: seq<byte>)
    requires 1 <= |t.columns| <= MAX_COLUMNS && |t.rows| < 0x8000_0000
    ensures ParsedBody(cs, BodyBytes(cs, t) + tail)
      == if |t.rows| > MAX_ROWS then Err(SuspiciousRowCount(|t.rows|))
         else AsTable(t.columns, ReadRows(cs, t.columns, |t.rows|, RowsBytes(cs, t.rows) + tail))
  {
    hide I32Bytes, I32Of, TypesBytes, RowsBytes, ReadTypes, ReadRows;
    var s3 := RowsBytes(cs, t.rows) + tail;
    var s2 := I32Bytes(|t.rows|) + s3;
    var s1 := TypesBytes(t.columns) + s2;
    FourParts(I32Bytes(|t.columns|), TypesBytes(t.columns), I32Bytes(|t.rows|), RowsBytes(cs, t.rows), tail);
    FourParts([], I32Bytes(|t.columns|), TypesBytes(t.columns), I32Bytes(|t.rows|), RowsBytes(cs, t.rows));
    assert BodyBytes(cs, t) + tail == I32Bytes(|t.columns|) + s1;
    TakeFront(I32Bytes(|t.columns|), s1);
    TakeFront(I32Bytes(|t.rows|), s3);
    I32RoundTrip(|t.columns|);
    I32RoundTrip(|t.rows|);
    TypesRoundTrip(t.columns, s2);
  }

  /** The table of the rows that were read. */
  function AsTable(columns: seq<ColumnType>, rows: Result<(seq<seq<Cell>>, seq<byte>)>): Result<Table>
  {
    match rows
    case Err(e) => Err(e)
    case Ok((cells, _)) => Ok(Table(columns, cells))
  }

  /** The same with the header, if there is one. */
  lemma SerializedRead(cs: Charset, t: Table, newStructure: bool, tail: seq<byte>)
    ensures Parsed(cs, Serialized(cs, t, newStructure) + tail, newStructure)
      == ParsedBody(cs, BodyBytes(cs, t) + tail)
  {
    hide BodyBytes, ParsedBody;
    var s := Serialized(cs, t, newStructure) + tail;
    if newStructure {
      assert s[5..] == BodyBytes(cs, t) + tail;
    } else {
      assert s == BodyBytes(cs, t) + tail;
    }
  }

  /** A storable table, whatever follows it, reads back with only its strings re-encoded. */
  lemma RoundTripReread(cs: Charset, t: Table, newStructure: bool, tail: seq<byte>)
    requires Storable(cs, t)
    ensures Parsed(cs, Serialized(cs, t, newStructure) + tail, newStructure)
      == Ok(Table(t.columns, RereadRows(cs, t.rows)))
  {
    hide BodyBytes, ParsedBody, ReadRows, RowsBytes;
    SerializedRead(cs, t, newStructure, tail);
    BodyRead(cs, t, tail);
    RowsRoundTrip(cs, t.columns, t.rows, tail);
  }

  /** A cell is unchanged by writing and reading: a string survives EUC-KR and the parser's guess. */
  predicate Stable(cs: Charset, c: Cell) { c.Str? ==> cs.Reread(c.text) == c.text }

  /** The table comes back unchanged exactly when every string survives EUC-KR and the parser's guess. */
  lemma RoundTripExactly(cs: Charset, t: Table, newStructure: bool, tail: seq<byte>)
    requires Storable(cs, t)
    ensures Parsed(cs, Serialized(cs, t, newStructure) + tail, newStructure) == Ok(t)
      <==> forall r, c :: 0 <= r < |t.rows| && 0 <= c < |t.rows[r]| ==> Stable(cs, t.rows[r][c])
  {
    RoundTripReread(cs, t, newStructure, tail);
    var rows := RereadRows(cs, t.rows);
    forall r, c | 0 <= r < |t.rows| && 0 <= c < |t.rows[r]|
      ensures rows[r][c] == t.rows[r][c] <==> Stable(cs, t.rows[r][c])
    {
      assert rows[r][c] == RereadCell(cs, t.rows[r][c]);
    }
    if forall r, c :: 0 <= r < |t.rows| && 0 <= c < |t.rows[r]| ==> Stable(cs, t.rows[r][c]) {
      forall r | 0 <= r < |t.rows| ensures rows[r] == t.rows[r] { }
      assert rows == t.rows;
    }
  }

  predicate AsciiCells(rows: seq<seq<Cell>>)
  {
    forall r, c :: 0 <= r < |rows| && 0 <= c < |rows[r]| && rows[r][c].Str? ==> IsAscii(rows[r][c].text)
  }

  /** Tables of 7-bit text come back unchanged. */
  lemma AsciiRoundTrip(cs: Charset, t: Table, newStructure: bool, tail: seq<byte>)
    requires cs.AsciiTransparent() && Storable(cs, t) && AsciiCells(t.rows)
    ensures Parsed(cs, Serialized(cs, t, newStructure) + tail, newStructure) == Ok(t)
  {
    RoundTripExactly(cs, t, newStructure, tail);
  }

  // ---------------------------------------------------------- what reads back at all

  lemma CellReadTyped(cs: Charset, ct: ColumnType, s: seq<byte>)
    ensures var r := ReadCell(cs, ct, s);
      r.Ok? ==> HasType(r.value.0, ct)
  {
    hide Le1, Le2, Le4, Le8, I32Of, Signed;
  }

  lemma {:induction false} RowReadTyped(cs: Charset, columns: seq<ColumnType>, s: seq<byte>)
    ensures var r := ReadRow(cs, columns, s);
      r.Ok? ==> RowTyped(r.value.0, columns)
    decreases |columns|
  {
    hide ReadCell, HasType;
    if columns != [] {
      CellReadTyped(cs, columns[0], s);
      var cell := ReadCell(cs, columns[0], s);
      if cell.Ok? {
        RowReadTyped(cs, columns[1..], cell.value.1);
      }
    }
  }

  lemma {:induction false} RowsReadTyped(cs: Charset, columns: seq<ColumnType>, count: nat, s: seq<byte>)
    ensures var r := ReadRows(cs, columns, count, s);
      r.Ok? ==> |r.value.0| == count && RowsTyped(r.value.0, columns)
    decreases count
  {
    hide ReadRow, RowTyped;
    if count > 0 {
      RowReadTyped(cs, columns, s);
      var row := ReadRow(cs, columns, s);
      if row.Ok? {
        RowsReadTyped(cs, columns, count - 1, row.value.1);
      }
    }
  }

  lemma {:induction false} TypesReadCount(count: nat, s: seq<byte>)
    ensures var r := ReadTypes(count, s);
      r.Ok? ==> |r.value.0| == count
    decreases count
  {
    hide I32Of, FromI32;
    if count > 0 && |s| >= 4 {
      TypesReadCount(count - 1, s[4..]);
    }
  }

  /** Whatever is parsed follows its columns and is within the limits of the parser. */
  lemma ParsedTyped(cs: Charset, data: seq<byte>, newStructure: bool)
    ensures var r := Parsed(cs, data, newStructure);
      r.Ok? ==> WellTyped(r.value) && |r.value.rows| <= MAX_ROWS
  {
    hide I32Of, ReadTypes, ReadRows, RowsTyped;
    forall count, s
      ensures ReadTypes(count, s).Ok? ==> |ReadTypes(count, s).value.0| == count
    {
      TypesReadCount(count, s);
    }
    forall columns, count, s
      ensures ReadRows(cs, columns, count, s).Ok? ==>
        |ReadRows(cs, columns, count, s).value.0| == count
          && RowsTyped(ReadRows(cs, columns, count, s).value.0, columns)
    {
      RowsReadTyped(cs, columns, count, s);
    }
  }

  /** A text too long for the parser stops it. */
  lemma CellRejected(cs: Charset, ct: ColumnType, c: Cell, rest: seq<byte>)
    requires HasType(c, ct) && !CellFits(cs, c) && |CellBytes(cs, c)| < 0x8000_0000
    ensures ReadCell(cs, ct, CellBytes(cs, c) + rest).Err?
  {
    hide I32Bytes, I32Of, LeBytes;
    var e := cs.eucKr(c.text);
    I32RoundTrip(|e|);
    Regroup(I32Bytes(|e|), e, rest);
    TakeFront(I32Bytes(|e|), e + rest);
  }

  lemma {:induction false} RowRejected(cs: Charset, columns: seq<ColumnType>, row: seq<Cell>, rest: seq<byte>)
    requires RowTyped(row, columns) && !RowFits(cs, row) && |RowBytes(cs, row)| < 0x8000_0000
    ensures ReadRow(cs, columns, RowBytes(cs, row) + rest).Err?
  {
    hide CellBytes, ReadCell, CellFits;
    var later := RowBytes(cs, row[1..]) + rest;
    assert RowBytes(cs, row) + rest == CellBytes(cs, row[0]) + later;
    if CellFits(cs, row[0]) {
      CellRoundTrip(cs, columns[0], row[0], later);
      assert !RowFits(cs, row[1..]);
      RowRejected(cs, columns[1..], row[1..], rest);
    } else {
      CellRejected(cs, columns[0], row[0], later);
    }
  }

  lemma {:induction false} RowsRejected(cs: Charset, columns: seq<ColumnType>, rows: seq<seq<Cell>>, rest: seq<byte>)
    requires RowsTyped(rows, columns) && !RowsFit(cs, rows) && |RowsBytes(cs, rows)| < 0x8000_0000
    ensures ReadRows(cs, columns, |rows|, RowsBytes(cs, rows) + rest).Err?
  {
    hide RowBytes, ReadRow, RowFits, RowTyped;
    var later := RowsBytes(cs, rows[1..]) + rest;
    assert RowsBytes(cs, rows) + rest == RowBytes(cs, rows[0]) + later;
    if RowFits(cs, rows[0]) {
      RowRoundTrip(cs, columns, rows[0], later);
      assert !RowsFit(cs, rows[1..]);
      RowsRejected(cs, columns, rows[1..], rest);
    } else {
      RowRejected(cs, columns, rows[0], later);
    }
  }

  lemma {:induction false} RowsBytesAtLeast(cs: Charset, columns: seq<ColumnType>, rows: seq<seq<Cell>>)
    requires |columns| >= 1 && RowsTyped(rows, columns)
    ensures |RowsBytes(cs, rows)| >= |rows|
  {
    hide CellBytes;
    if rows != [] {
      assert |CellBytes(cs, rows[0][0])| >= 1 by { CellNotEmpty(cs, rows[0][0]); }
      RowsBytesAtLeast(cs, columns, rows[1..]);
    }
  }

  lemma CellNotEmpty(cs: Charset, c: Cell)
    ensures |CellBytes(cs, c)| >= 1
  {
    hide LeBytes, Unsigned;
  }

  /** A well-typed table below 2 GiB is readable exactly when it has no more rows and no
    * longer texts than the parser takes. */
  lemma ReadableExactly(cs: Charset, t: Table, newStructure: bool, tail: seq<byte>)
    requires WellTyped(t) && |Serialized(cs, t, newStructure)| < 0x8000_0000
    ensures Parsed(cs, Serialized(cs, t, newStructure) + tail, newStructure).Ok? <==> Storable(cs, t)
  {
    hide ParsedBody, ReadRows, RowsBytes, RowTyped, RowFits, TypesBytes, I32Bytes;
    if Storable(cs, t) {
      RoundTripReread(cs, t, newStructure, tail);
    } else {
      RowsBytesAtLeast(cs, t.columns, t.rows);
      SerializedRead(cs, t, newStructure, tail);
      BodyRead(cs, t, tail);
      if |t.rows| <= MAX_ROWS {
        RowsRejected(cs, t.columns, t.rows, tail);
      }
    }
  }
}
