/** Appending entries to a .tbl file: decrypt, parse, merge, sort, serialise,
  * encrypt, write, and read the written file back. */
module TblAppend {
  import opened Bytes
  import opened BlockCipher
  import opened TblCipher
  import opened TblCodec
  import opened Sorting
  import T = Text
  import opened TblLines
  import opened Wrappers

  datatype Outcome =
    | Panicked                           // the input body is not a positive number of blocks
    | Unreadable(error: ParseError)      // the input table does not parse
    | BadLine                            // an id that is not a number
    | Written(file: seq<byte>, verified: Option<Result<Table>>)  // the file, and what re-reading it gave

  // ------------------------------------------------------------------- merging

  predicate HasId(row: seq<Cell>) { |row| > 0 && row[0].U32? }

  /** The sort key of a row: its id, or 0 when it does not start with one. */
  function Key(row: seq<Cell>): u32 { if HasId(row) then row[0].u32 else 0 }

  ghost function Ids(rows: seq<seq<Cell>>): set<u32>
  {
    set r | 0 <= r < |rows| && HasId(rows[r]) :: rows[r][0].u32
  }

  function NewRow(l: Line): seq<Cell>
    requires l.Entry?
  {
    [U32(l.id), Str(l.text)]
  }

  /** The rows the lines add to `seen`: one for each id not seen before, in order. */
  function Added(seen: set<u32>, lines: seq<Line>): seq<seq<Cell>>
    decreases |lines|
  {
    if lines == [] then []
    else if lines[0].Entry? && lines[0].id !in seen then
      [NewRow(lines[0])] + Added(seen + {lines[0].id}, lines[1..])
    else Added(seen, lines[1..])
  }

  /** The merge loop of `handle_append`; `None` when an id does not parse. */
  method MergeLines(oldRows: seq<seq<Cell>>, utf8: Utf8, raw: seq<string>) returns (rows: Option<seq<seq<Cell>>>)
    ensures var lines := Classified(utf8, raw);
      rows == if InvalidId in lines then None else Some(oldRows + Added(Ids(oldRows), lines))
  {
    hide LineOf;
    ghost var lines := Classified(utf8, raw);
    var existingIds: set<u32> := {};
    for r := 0 to |oldRows|
      invariant existingIds == Ids(oldRows[..r])
    {
      if HasId(oldRows[r]) {
        existingIds := existingIds + {oldRows[r][0].u32};
      }
      IdsExtended(oldRows, r);
    }
    assert oldRows[..|oldRows|] == oldRows;
    var all := oldRows;
    for i := 0 to |raw|
      invariant InvalidId !in lines[..i]
      invariant all + Added(existingIds, lines[i..]) == oldRows + Added(Ids(oldRows), lines)
    {
      var line := LineOf(utf8, raw[i]);
      assert line == lines[i] && lines[i..][1..] == lines[i + 1..];
      assert lines[..i + 1] == lines[..i] + [lines[i]];
      match line
      case Ignored =>
      case NoTab =>
      case InvalidId => return None;
      case Entry(id, text) =>
        if id !in existingIds {
          assert all + ([NewRow(line)] + Added(existingIds + {id}, lines[i + 1..]))
              == (all + [NewRow(line)]) + Added(existingIds + {id}, lines[i + 1..]);
          all := all + [[U32(id), Str(text)]];
          existingIds := existingIds + {id};
        }
    }
    assert lines[..|lines|] == lines && all + [] == all;
    return Some(all);
  }

  lemma IdsExtended(rows: seq<seq<Cell>>, r: nat)
    requires r < |rows|
    ensures Ids(rows[..r + 1]) == Ids(rows[..r]) + (if HasId(rows[r]) then {rows[r][0].u32} else {})
  {
    var a, b := rows[..r], rows[..r + 1];
    forall id | id in Ids(b)
      ensures id in Ids(a) || (HasId(rows[r]) && id == rows[r][0].u32)
    {
      var i :| 0 <= i < |b| && HasId(b[i]) && b[i][0].u32 == id;
      assert i < r ==> a[i] == b[i];
    }
    forall id | id in Ids(a)
      ensures id in Ids(b)
    {
      var i :| 0 <= i < |a| && HasId(a[i]) && a[i][0].u32 == id;
      assert b[i] == a[i];
    }
    if HasId(rows[r]) {
      assert b[r] == rows[r];
    }
  }

  /** Every added row starts with an id that was not there, and no id is added twice. */
  lemma {:induction false} AddedIdsNew(seen: set<u32>, lines: seq<Line>)
    ensures forall i :: 0 <= i < |Added(seen, lines)| ==>
      HasId(Added(seen, lines)[i]) && Key(Added(seen, lines)[i]) !in seen
    ensures forall i, j :: 0 <= i < j < |Added(seen, lines)| ==>
      Key(Added(seen, lines)[i]) != Key(Added(seen, lines)[j])
    decreases |lines|
  {
    if lines == [] {
    } else if lines[0].Entry? && lines[0].id !in seen {
      AddedIdsNew(seen + {lines[0].id}, lines[1..]);
      var rest := Added(seen + {lines[0].id}, lines[1..]);
      assert Added(seen, lines) == [NewRow(lines[0])] + rest;
      assert Key(NewRow(lines[0])) == lines[0].id;
    } else {
      AddedIdsNew(seen, lines[1..]);
    }
  }

  predicate HasKey(rows: seq<seq<Cell>>, id: u32)
  {
    exists i :: 0 <= i < |rows| && Key(rows[i]) == id
  }

  lemma HasKeyFirst(row: seq<Cell>, rest: seq<seq<Cell>>, id: u32)
    ensures HasKey([row] + rest, id) <==> Key(row) == id || HasKey(rest, id)
  {
    var all := [row] + rest;
    assert all[0] == row && forall i :: 0 < i < |all| ==> all[i] == rest[i - 1];
    if HasKey(rest, id) {
      var i :| 0 <= i < |rest| && Key(rest[i]) == id;
      assert Key(all[i + 1]) == id;
    }
  }

  /** An added row is the first line with its id, and no line's id is left out. */
  lemma {:induction false} AddedExactly(seen: set<u32>, lines: seq<Line>, id: u32)
    ensures HasKey(Added(seen, lines), id) <==> id !in seen && FirstWith(id, lines).Some?
    ensures id !in seen && FirstWith(id, lines).Some? ==> NewRow(FirstWith(id, lines).value) in Added(seen, lines)
    decreases |lines|
  {
    if lines == [] {
    } else if lines[0].Entry? && lines[0].id !in seen {
      var rest := Added(seen + {lines[0].id}, lines[1..]);
      AddedExactly(seen + {lines[0].id}, lines[1..], id);
      HasKeyFirst(NewRow(lines[0]), rest, id);
      assert Key(NewRow(lines[0])) == lines[0].id;
    } else {
      AddedExactly(seen, lines[1..], id);
    }
  }

  /** The first entry line with a given id. */
  function FirstWith(id: u32, lines: seq<Line>): (r: Option<Line>)
    ensures r.Some? ==> r.value.Entry? && r.value.id == id && r.value in lines
    ensures r.None? ==> forall l :: l in lines && l.Entry? ==> l.id != id
  {
    if lines == [] then None
    else if lines[0].Entry? && lines[0].id == id then Some(lines[0])
    else
      assert forall l :: l in lines ==> l == lines[0] || l in lines[1..];
      FirstWith(id, lines[1..])
  }

  /** The order `sort_by_key` uses. */
  predicate KeyLe(a: seq<Cell>, b: seq<Cell>) { Key(a) <= Key(b) }

  function SortedRows(rows: seq<seq<Cell>>): seq<seq<Cell>> { StableSort(KeyLe, rows) }

  /** Of two rows that start with an id, the later has no smaller one. */
  predicate AscendingIds(rows: seq<seq<Cell>>)
  {
    forall i, j :: 0 <= i < j < |rows| && rows[i] != [] && rows[i][0].U32? && rows[j] != [] && rows[j][0].U32? ==>
      rows[i][0].u32 <= rows[j][0].u32
  }

  // ------------------------------------------------------------------ the command

  /** The rows the lines add to a table. */
  ghost function NewRows(t: Table, lines: seq<Line>): seq<seq<Cell>> { Added(Ids(t.rows), lines) }

  /** The table after merging, before the sort. */
  ghost function Unsorted(t: Table, lines: seq<Line>): Table { Table(t.columns, t.rows + NewRows(t, lines)) }

  /** The table `handle_append` writes. */
  ghost function MergedTable(t: Table, lines: seq<Line>): Table
  {
    Table(t.columns, SortedRows(Unsorted(t, lines).rows))
  }

  /** Decrypt and parse, as at the start and again in the final verification. */
  function Loaded(c: Cipher, cs: Charset, raw: seq<byte>): Option<Result<Table>>
  {
    match Decrypted(c, raw)
    case None => None
    case Some((plain, newStructure)) => Some(Parsed(cs, plain, newStructure))
  }

  ghost predicate IsOutcome(c: Cipher, cs: Charset, raw: seq<byte>, lines: seq<Line>, o: Outcome)
  {
    match Decrypted(c, raw)
    case None => o == Panicked
    case Some((plain, newStructure)) =>
      match Parsed(cs, plain, newStructure)
      case Err(e) => o == Unreadable(e)
      case Ok(t) =>
        if InvalidId in lines then o == BadLine
        else
          var file := Encrypted(c, Serialized(cs, MergedTable(t, lines), newStructure));
          o == Written(file, Loaded(c, cs, file))
  }

  /** `handle_append`: the bytes of the table file, and the text of the lines to append. */
  method HandleAppend(c: Cipher, cs: Charset, utf8: Utf8, raw: seq<byte>, content: string) returns (o: Outcome)
    ensures IsOutcome(c, cs, raw, LinesOf(utf8, content), o)
  {
    hide Decrypted, Parsed, Serialized, Encrypted;
    var d := DecryptTbl(c, raw);
    if d.None? {
      return Panicked;
    }
    var (decrypted, newStructure) := d.value;
    var parsed := ParseTbl(cs, decrypted, newStructure);
    if parsed.Err? {
      return Unreadable(parsed.error);
    }
    var merged := MergeLines(parsed.value.rows, utf8, T.Lines(content));
    if merged.None? {
      return BadLine;
    }
    var table := Table(parsed.value.columns, SortedRows(merged.value));
    var plaintext := SerializeTbl(cs, table, newStructure);
    var encrypted := EncryptTbl(c, plaintext);
    var verifyDec := DecryptTbl(c, encrypted);
    if verifyDec.None? {
      return Written(encrypted, None);
    }
    var verifyTable := ParseTbl(cs, verifyDec.value.0, verifyDec.value.1);
    return Written(encrypted, Some(verifyTable));
  }

  // --------------------------------------------------------------- what is written

  predicate FileSizeOk(cs: Charset, t: Table, newStructure: bool)
  {
    |Serialized(cs, t, newStructure)| < 0x8000_0000
  }

  lemma SerializedNotEmpty(cs: Charset, t: Table, newStructure: bool)
    ensures Serialized(cs, t, newStructure) != []
  {
    assert |BodyBytes(cs, t)| >= 4;
  }

  /** A table written with the new-structure header reads back, strings re-encoded. */
  lemma WrittenReadsBack(c: Cipher, cs: Charset, t: Table)
    requires Storable(cs, t) && FileSizeOk(cs, t, true)
    ensures Loaded(c, cs, Encrypted(c, Serialized(cs, t, true))) == Some(Ok(Table(t.columns, RereadRows(cs, t.rows))))
  {
    hide Encrypted, Decrypted, Parsed;
    var s := Serialized(cs, t, true);
    SerializedNotEmpty(cs, t, true);
    RoundTrip(c, s);
    RoundTripReread(cs, t, true, []);
    assert s + [] == s;
  }

  /** Without the header the encrypted file cannot be read back: its column count is
    * taken from the wrong bytes, and is always out of range. */
  lemma HeaderlessUnreadable(c: Cipher, cs: Charset, t: Table)
    requires |t.columns| >= 1 && FileSizeOk(cs, t, false)
    ensures exists n :: Loaded(c, cs, Encrypted(c, Serialized(cs, t, false))) == Some(Err(InvalidColumnCount(n)))
  {
    hide Encrypted, Decrypted;
    var s := Serialized(cs, t, false);
    SerializedNotEmpty(cs, t, false);
    RoundTrip(c, s);
    ShiftedColumnCount(cs, t);
    assert s == BodyBytes(cs, t);
    var n := AsUsize(I32Of(s[5..][..4]));
    assert Parsed(cs, s, true) == ParsedBody(cs, s[5..]) == Err(InvalidColumnCount(n));
  }

  lemma ShiftedColumnCount(cs: Charset, t: Table)
    requires |t.columns| >= 1
    ensures |BodyBytes(cs, t)| >= 12
    ensures var n := AsUsize(I32Of(BodyBytes(cs, t)[5..][..4])); n == 0 || n > MAX_COLUMNS
  {
    hide I32Bytes, I32Of, RowsBytes;
    var id := TypeId(t.columns[0]);
    var more := TypesBytes(t.columns[1..]) + (I32Bytes(|t.rows|) + RowsBytes(cs, t.rows));
    var body := BodyBytes(cs, t);
    assert body == I32Bytes(|t.columns|) + (I32Bytes(id) + more);
    assert |more| >= 4;
    SmallBytes(id);
    FromFive(I32Bytes(|t.columns|), I32Bytes(id), more);
    TopByteOnly(body[5..][..4]);
  }

  lemma FromFive(a: seq<byte>, b: seq<byte>, more: seq<byte>)
    requires |a| == 4 && |b| == 4 && |more| >= 4
    ensures (a + (b + more))[5..][..4] == [b[1], b[2], b[3], more[0]]
  {
  }

  lemma SmallBytes(id: nat)
    requires id < 256
    ensures I32Bytes(id) == [ByteOf(id), 0, 0, 0]
  {
    hide ByteOf;
    ZeroBytes(3);
    assert id % 0x1_0000_0000 == id && id % 256 == id && id / 256 == 0;
    assert LeBytes(id, 4) == [ByteOf(id % 256)] + LeBytes(id / 256, 3);
  }

  lemma {:induction false} ZeroBytes(k: nat)
    ensures forall i :: 0 <= i < k ==> LeBytes(0, k)[i] == 0
  {
    if k > 0 {
      ZeroBytes(k - 1);
      assert LeBytes(0, k) == [ByteOf(0)] + LeBytes(0, k - 1);
    }
  }

  lemma TopByteOnly(b: seq<byte>)
    requires |b| == 4 && b[0] == 0 && b[1] == 0 && b[2] == 0
    ensures var n := AsUsize(I32Of(b)); n == 0 || n > MAX_COLUMNS
  {
    hide LeValue;
    TopByteValue(b);
    var v := b[3] as int;
    assert Le4(b) == 0x100_0000 * v;
  }

  lemma TopByteValue(b: seq<byte>)
    requires |b| == 4 && b[0] == 0 && b[1] == 0 && b[2] == 0
    ensures LeValue(b) == 0x100_0000 * (b[3] as int)
  {
    assert LeValue(b[3..]) == b[3] as int by { assert b[3..][1..] == []; }
    assert b[2..][1..] == b[3..] && b[1..][1..] == b[2..];
    assert LeValue(b[2..]) == 256 * LeValue(b[3..]);
    assert LeValue(b[1..]) == 256 * LeValue(b[2..]);
    assert LeValue(b) == 256 * LeValue(b[1..]);
  }

  // ------------------------------------------------------- what sorting does not change

  /** Sorting changes neither which rows there are nor how many bytes they take. */
  lemma SortKeeps(cs: Charset, rows: seq<seq<Cell>>)
    ensures forall row :: row in SortedRows(rows) <==> row in rows
    ensures |RowsBytes(cs, SortedRows(rows))| == |RowsBytes(cs, rows)|
  {
    StableSortCorrect(KeyLe, rows);
    forall row
      ensures row in SortedRows(rows) <==> row in rows
    {
      SameElements(KeyLe, rows, row);
    }
    SameSize(cs, SortedRows(rows), rows);
  }

  lemma WithoutOne<T>(s: seq<T>, i: nat)
    requires i < |s|
    ensures multiset(s[..i] + s[i + 1..]) == multiset(s) - multiset{s[i]}
  {
    assert s == s[..i] + ([s[i]] + s[i + 1..]);
  }

  lemma WithoutFirst<T>(s: seq<T>)
    requires s != []
    ensures multiset(s[1..]) == multiset(s) - multiset{s[0]}
  {
    assert s == [s[0]] + s[1..];
  }

  /** Where the first element of a permutation stands, and what is left without it. */
  lemma FirstRemoved<T>(a: seq<T>, b: seq<T>) returns (i: nat)
    requires a != [] && multiset(a) == multiset(b)
    ensures i < |b| && b[i] == a[0] && multiset(a[1..]) == multiset(b[..i] + b[i + 1..])
  {
    assert a[0] in multiset(b);
    i :| 0 <= i < |b| && b[i] == a[0];
    WithoutOne(b, i);
    WithoutFirst(a);
  }

  lemma SizeAt(cs: Charset, b: seq<seq<Cell>>, i: nat)
    requires i < |b|
    ensures |RowsBytes(cs, b)| == |RowBytes(cs, b[i])| + |RowsBytes(cs, b[..i] + b[i + 1..])|
  {
    hide RowBytes;
    var front, back := b[..i], b[i + 1..];
    SizeSplit(cs, front, back);
    SizeSplit(cs, front, b[i..]);
    assert b == front + b[i..] && b[i..][1..] == back;
  }

  lemma {:induction false} SameSize(cs: Charset, a: seq<seq<Cell>>, b: seq<seq<Cell>>)
    requires multiset(a) == multiset(b)
    ensures |RowsBytes(cs, a)| == |RowsBytes(cs, b)|
  {
    hide RowBytes;
    if a == [] {
      assert |multiset(b)| == 0;
    } else {
      var i := FirstRemoved(a, b);
      SizeAt(cs, b, i);
      SameSize(cs, a[1..], b[..i] + b[i + 1..]);
    }
  }

  lemma {:induction false} SizeSplit(cs: Charset, a: seq<seq<Cell>>, b: seq<seq<Cell>>)
    ensures |RowsBytes(cs, a + b)| == |RowsBytes(cs, a)| + |RowsBytes(cs, b)|
  {
    hide RowBytes;
    if a == [] {
      assert a + b == b;
    } else {
      assert (a + b)[1..] == a[1..] + b;
      SizeSplit(cs, a[1..], b);
    }
  }

  lemma MergedSize(cs: Charset, t: Table, lines: seq<Line>, newStructure: bool)
    ensures FileSizeOk(cs, MergedTable(t, lines), newStructure) <==> FileSizeOk(cs, Unsorted(t, lines), newStructure)
  {
    hide TypesBytes, I32Bytes;
    SortKeeps(cs, Unsorted(t, lines).rows);
  }

  // ------------------------------------------------------ when the append is readable

  /** The row that is always appended is an id and a text, whatever the columns are. */
  predicate TakesLines(columns: seq<ColumnType>) { columns == [UnsignedInt, String] }

  /** What a caller can check before the call: nothing is added or the columns are those of
    * the rows added, and the merged rows are within the limits of the parser. */
  ghost predicate Appendable(cs: Charset, t: Table, lines: seq<Line>)
  {
    && (NewRows(t, lines) == [] || TakesLines(t.columns))
    && |t.rows| + |NewRows(t, lines)| <= MAX_ROWS
    && RowsFit(cs, t.rows) && RowsFit(cs, NewRows(t, lines))
  }

  lemma {:induction false} AddedShape(seen: set<u32>, lines: seq<Line>)
    ensures forall row: seq<Cell> :: row in Added(seen, lines) ==> |row| == 2 && row[0].U32? && row[1].Str?
    decreases |lines|
  {
    if lines == [] {
    } else if lines[0].Entry? && lines[0].id !in seen {
      AddedShape(seen + {lines[0].id}, lines[1..]);
    } else {
      AddedShape(seen, lines[1..]);
    }
  }

  lemma AddedTyped(t: Table, lines: seq<Line>)
    ensures RowsTyped(NewRows(t, lines), t.columns) <==> NewRows(t, lines) == [] || TakesLines(t.columns)
  {
    var added := NewRows(t, lines);
    AddedShape(Ids(t.rows), lines);
    if added != [] && RowsTyped(added, t.columns) {
      assert added[0] in added && RowTyped(added[0], t.columns);
      assert HasType(added[0][0], t.columns[0]) && HasType(added[0][1], t.columns[1]);
      assert t.columns == [t.columns[0], t.columns[1]];
    }
  }

  lemma SortedTyped(cs: Charset, rows: seq<seq<Cell>>, columns: seq<ColumnType>)
    ensures RowsTyped(SortedRows(rows), columns) <==> RowsTyped(rows, columns)
    ensures RowsFit(cs, SortedRows(rows)) <==> RowsFit(cs, rows)
  {
    hide RowTyped, RowFits;
    SortKeeps(cs, rows);
    var sorted := SortedRows(rows);
    assert forall r :: 0 <= r < |rows| ==> rows[r] in sorted;
    assert forall r :: 0 <= r < |sorted| ==> sorted[r] in rows;
  }

  lemma JoinTyped(cs: Charset, a: seq<seq<Cell>>, b: seq<seq<Cell>>, columns: seq<ColumnType>)
    ensures RowsTyped(a + b, columns) <==> RowsTyped(a, columns) && RowsTyped(b, columns)
    ensures RowsFit(cs, a + b) <==> RowsFit(cs, a) && RowsFit(cs, b)
  {
    hide RowTyped, RowFits;
    assert forall r :: 0 <= r < |a| ==> (a + b)[r] == a[r];
    assert forall r :: 0 <= r < |b| ==> (a + b)[|a| + r] == b[r];
  }

  lemma MergedStorable(cs: Charset, t: Table, lines: seq<Line>)
    requires WellTyped(t)
    ensures Storable(cs, MergedTable(t, lines)) <==> Appendable(cs, t, lines)
    ensures WellTyped(MergedTable(t, lines)) <==> NewRows(t, lines) == [] || TakesLines(t.columns)
  {
    hide RowsTyped, RowsFit, NewRows, TakesLines;
    AddedTyped(t, lines);
    SortedTyped(cs, Unsorted(t, lines).rows, t.columns);
    JoinTyped(cs, t.rows, NewRows(t, lines), t.columns);
  }

  /** A table with its strings as they come back. */
  function RereadTable(cs: Charset, t: Table): Table { Table(t.columns, RereadRows(cs, t.rows)) }

  lemma RereadTyped(cs: Charset, t: Table)
    ensures WellTyped(RereadTable(cs, t)) <==> WellTyped(t)
  {
    hide HasType;
    var rows := RereadRows(cs, t.rows);
    forall r | 0 <= r < |rows|
      ensures RowTyped(rows[r], t.columns) <==> RowTyped(t.rows[r], t.columns)
    {
      forall i | 0 <= i < |rows[r]| && i < |t.columns|
        ensures HasType(rows[r][i], t.columns[i]) <==> HasType(t.rows[r][i], t.columns[i])
      {
        RereadType(cs, t.rows[r][i], t.columns[i]);
      }
    }
  }

  lemma RereadType(cs: Charset, c: Cell, ct: ColumnType)
    ensures HasType(RereadCell(cs, c), ct) <==> HasType(c, ct)
  {
  }

  /** The file `handle_append` writes for the table `t` it has read. */
  ghost function AppendedFile(c: Cipher, cs: Charset, t: Table, lines: seq<Line>, newStructure: bool): seq<byte>
  {
    Encrypted(c, Serialized(cs, MergedTable(t, lines), newStructure))
  }

  /** A file that reads back to a table of the columns and the number of rows written
    * was written from an appendable table. */
  lemma OnlyAppendable(c: Cipher, cs: Charset, t: Table, lines: seq<Line>, t': Table)
    requires WellTyped(t) && FileSizeOk(cs, Unsorted(t, lines), true)
    requires Loaded(c, cs, AppendedFile(c, cs, t, lines, true)) == Some(Ok(t'))
    requires WellTyped(t') ==> WellTyped(MergedTable(t, lines))
    ensures Appendable(cs, t, lines)
  {
    hide Encrypted, Decrypted, Parsed, Storable, Appendable, WellTyped;
    var merged := MergedTable(t, lines);
    var s := Serialized(cs, merged, true);
    MergedSize(cs, t, lines, true);
    SerializedNotEmpty(cs, merged, true);
    RoundTrip(c, s);
    ParsedTyped(cs, s, true);
    assert s + [] == s;
    ReadableExactly(cs, merged, true, []);
    MergedStorable(cs, t, lines);
  }

  /** The written file reads back as the merged table, its strings re-encoded, exactly when
    * the input was a ChaosExpansion file and the lines can be appended to it.  Other
    * input is written without the header that re-reading expects, and never reads back. */
  lemma VerifiesExactly(c: Cipher, cs: Charset, raw: seq<byte>, lines: seq<Line>, plain: seq<byte>,
      newStructure: bool, t: Table)
    requires Decrypted(c, raw) == Some((plain, newStructure)) && Parsed(cs, plain, newStructure) == Ok(t)
    requires FileSizeOk(cs, Unsorted(t, lines), newStructure)
    ensures var read := Loaded(c, cs, AppendedFile(c, cs, t, lines, newStructure));
      && (read == Some(Ok(RereadTable(cs, MergedTable(t, lines))))
        <==> Detected(raw) == ChaosExpansion && Appendable(cs, t, lines))
      && (Detected(raw) != ChaosExpansion ==> read.Some? && read.value.Err?)
  {
    var merged := MergedTable(t, lines);
    assert newStructure <==> Detected(raw) == ChaosExpansion;
    ParsedTyped(cs, plain, newStructure);
    hide Encrypted, Decrypted, Parsed, Loaded, Appendable, WellTyped, Storable;
    MergedSize(cs, t, lines, newStructure);
    MergedStorable(cs, t, lines);
    if !newStructure {
      assert |t.columns| >= 1 by { SomeColumn(t); }
      HeaderlessUnreadable(c, cs, merged);
    } else {
      if Appendable(cs, t, lines) {
        WrittenReadsBack(c, cs, merged);
      }
      if Loaded(c, cs, AppendedFile(c, cs, t, lines, true)) == Some(Ok(RereadTable(cs, merged))) {
        RereadTyped(cs, merged);
        OnlyAppendable(c, cs, t, lines, RereadTable(cs, merged));
      }
    }
  }

  lemma SomeColumn(t: Table)
    requires WellTyped(t)
    ensures |t.columns| >= 1
  {
  }

  /** Every string of the rows survives writing and reading. */
  predicate RowsStable(cs: Charset, rows: seq<seq<Cell>>)
  {
    forall row :: row in rows ==> RowStable(cs, row)
  }

  predicate RowStable(cs: Charset, row: seq<Cell>) { forall i :: 0 <= i < |row| ==> Stable(cs, row[i]) }

  lemma StableReread(cs: Charset, rows: seq<seq<Cell>>)
    ensures RereadRows(cs, rows) == rows <==> RowsStable(cs, rows)
  {
    var again := RereadRows(cs, rows);
    forall r | 0 <= r < |rows|
      ensures again[r] == rows[r] <==> forall i :: 0 <= i < |rows[r]| ==> Stable(cs, rows[r][i])
    {
      assert forall i :: 0 <= i < |rows[r]| ==> again[r][i] == RereadCell(cs, rows[r][i]);
    }
    if RowsStable(cs, rows) {
      assert forall r :: 0 <= r < |rows| ==> rows[r] in rows;
    }
  }

  /** `handle_append` writes a file that reads back as exactly the merged table, if and only
    * if the input was a ChaosExpansion file, the lines can be appended to it, and every string
    * survives the charset libraries. */
  lemma AppendExactly(c: Cipher, cs: Charset, raw: seq<byte>, lines: seq<Line>, plain: seq<byte>, newStructure: bool,
      t: Table, o: Outcome)
    requires Decrypted(c, raw) == Some((plain, newStructure)) && Parsed(cs, plain, newStructure) == Ok(t)
    requires FileSizeOk(cs, Unsorted(t, lines), newStructure)
    requires InvalidId !in lines && IsOutcome(c, cs, raw, lines, o)
    ensures o.Written? && o.verified == Loaded(c, cs, o.file)
    ensures o.verified == Some(Ok(MergedTable(t, lines))) <==>
      && Detected(raw) == ChaosExpansion
      && Appendable(cs, t, lines)
      && RowsStable(cs, t.rows) && RowsStable(cs, NewRows(t, lines))
  {
    var merged := MergedTable(t, lines);
    assert newStructure <==> Detected(raw) == ChaosExpansion;
    ParsedTyped(cs, plain, newStructure);
    VerifiesExactly(c, cs, raw, lines, plain, newStructure, t);
    hide Encrypted, Decrypted, Parsed, Serialized, Loaded, Appendable, WellTyped, RowsStable, FileSizeOk, RereadRows;
    StableReread(cs, merged.rows);
    MergedStable(cs, t, lines);
    if newStructure && o.verified == Some(Ok(merged)) {
      OnlyAppendable(c, cs, t, lines, merged);
    }
  }

  lemma MergedStable(cs: Charset, t: Table, lines: seq<Line>)
    ensures RowsStable(cs, MergedTable(t, lines).rows) <==> RowsStable(cs, t.rows) && RowsStable(cs, NewRows(t, lines))
  {
    hide Stable;
    SortKeeps(cs, Unsorted(t, lines).rows);
  }

  /** The merged table has the old rows and one row for each new id, sorted by id; rows of
    * one id stay in order. */
  lemma MergedRows(t: Table, lines: seq<Line>)
    ensures var rows, added := MergedTable(t, lines).rows, NewRows(t, lines);
      && multiset(rows) == multiset(t.rows) + multiset(added)
      && SortedBy(KeyLe, rows) && AscendingIds(rows)
      && (forall k :: EqualTo(KeyLe, k, rows) == EqualTo(KeyLe, k, t.rows + added))
  {
    StableSortCorrect(KeyLe, t.rows + NewRows(t, lines));
  }

  predicate AsciiLines(lines: seq<Line>)
  {
    forall l :: l in lines && l.Entry? ==> IsAscii(l.text) && |l.text| <= MAX_STRING
  }

  lemma NewRowAscii(cs: Charset, l: Line)
    requires cs.AsciiTransparent() && l.Entry? && IsAscii(l.text) && |l.text| <= MAX_STRING
    ensures RowStable(cs, NewRow(l)) && RowFits(cs, NewRow(l))
  {
  }

  lemma {:induction false} AddedAscii(cs: Charset, seen: set<u32>, lines: seq<Line>)
    requires cs.AsciiTransparent() && AsciiLines(lines)
    ensures RowsStable(cs, Added(seen, lines)) && RowsFit(cs, Added(seen, lines))
    decreases |lines|
  {
    hide RowStable, RowFits, IsAscii, NewRow;
    if lines == [] {
    } else if lines[0].Entry? && lines[0].id !in seen {
      assert lines[0] in lines && forall l :: l in lines[1..] ==> l in lines;
      NewRowAscii(cs, lines[0]);
      AddedAscii(cs, seen + {lines[0].id}, lines[1..]);
    } else {
      assert forall l :: l in lines[1..] ==> l in lines;
      AddedAscii(cs, seen, lines[1..]);
    }
  }

  /** On a ChaosExpansion file of 7-bit text within the limits, the file written reads back as
    * the merged table exactly when the columns are an id and a text, or nothing is added.  That
    * table has the old rows and one row for each new id, sorted by id. */
  lemma AppendReadsBack(c: Cipher, cs: Charset, raw: seq<byte>, lines: seq<Line>, t: Table, o: Outcome)
    requires cs.AsciiTransparent() && AsciiCells(t.rows) && RowsFit(cs, t.rows) && AsciiLines(lines)
    requires Detected(raw) == ChaosExpansion && Loaded(c, cs, raw) == Some(Ok(t)) && InvalidId !in lines
    requires |t.rows| + |lines| <= MAX_ROWS && FileSizeOk(cs, Unsorted(t, lines), true)
    requires IsOutcome(c, cs, raw, lines, o)
    ensures o.Written? && o.verified == Loaded(c, cs, o.file)
    ensures o.verified == Some(Ok(MergedTable(t, lines))) <==> NewRows(t, lines) == [] || TakesLines(t.columns)
    ensures var rows, added := MergedTable(t, lines).rows, NewRows(t, lines);
      && multiset(rows) == multiset(t.rows) + multiset(added)
      && SortedBy(KeyLe, rows) && AscendingIds(rows)
      && (forall k :: EqualTo(KeyLe, k, rows) == EqualTo(KeyLe, k, t.rows + added))
  {
    var plain := Decrypted(c, raw).value.0;
    assert Decrypted(c, raw) == Some((plain, true)) && Parsed(cs, plain, true) == Ok(t);
    AppendExactly(c, cs, raw, lines, plain, true, t, o);
    MergedRows(t, lines);
    AddedFewer(Ids(t.rows), lines);
    AddedAscii(cs, Ids(t.rows), lines);
    AsciiStable(cs, t.rows);
  }

  lemma AsciiStable(cs: Charset, rows: seq<seq<Cell>>)
    requires cs.AsciiTransparent() && AsciiCells(rows)
    ensures RowsStable(cs, rows)
  {
  }

  lemma {:induction false} AddedFewer(seen: set<u32>, lines: seq<Line>)
    ensures |Added(seen, lines)| <= |lines|
    decreases |lines|
  {
    if lines == [] {
    } else if lines[0].Entry? && lines[0].id !in seen {
      AddedFewer(seen + {lines[0].id}, lines[1..]);
    } else {
      AddedFewer(seen, lines[1..]);
    }
  }

  // ----------------------------------------------------------- columns of another kind

  /** Tables of unsigned integers without rows, and a line with an empty text. */
  function Integers(n: nat): Table { Table(seq(n, i => UnsignedInt), []) }

  /** Such a table can be read from the file made of it. */
  lemma IntegersLoad(c: Cipher, cs: Charset, n: nat)
    requires 1 <= n <= 3
    ensures Loaded(c, cs, Encrypted(c, Serialized(cs, Integers(n), true))) == Some(Ok(Integers(n)))
  {
    hide Encrypted, Decrypted, Parsed, Loaded;
    IntegersSize(cs, Integers(n));
    WrittenReadsBack(c, cs, Integers(n));
  }

  lemma {:induction false} TypesSize(columns: seq<ColumnType>)
    ensures |TypesBytes(columns)| == 4 * |columns|
  {
    hide I32Bytes;
    if columns != [] {
      TypesSize(columns[1..]);
    }
  }

  lemma IntegersSize(cs: Charset, t: Table)
    requires |t.columns| <= 3 && t.rows == []
    ensures FileSizeOk(cs, t, true)
  {
    hide TypesBytes, I32Bytes;
    TypesSize(t.columns);
  }

  lemma IntegersMerged(n: nat, id: u32, text: seq<byte>)
    ensures NewRows(Integers(n), [Entry(id, text)]) == [[U32(id), Str(text)]]
    ensures MergedTable(Integers(n), [Entry(id, text)]) == Table(Integers(n).columns, [[U32(id), Str(text)]])
  {
    var line := Entry(id, text);
    assert Ids([]) == {};
    assert Added({}, [line]) == [NewRow(line)] + Added({id}, []);
    assert [] + [NewRow(line)] == [NewRow(line)];
    assert SortedRows([NewRow(line)]) == [NewRow(line)];
  }

  lemma IntegerCell(cs: Charset, v: u32, rest: seq<byte>)
    ensures ReadCell(cs, UnsignedInt, LeBytes(v, 4) + rest) == Ok((U32(v), rest))
  {
    hide LeBytes, Le4;
    FixedWidthRoundTrips(v);
    TakeFront(LeBytes(v, 4), rest);
  }

  lemma AddedBytes(cs: Charset, id: u32, text: seq<byte>)
    ensures RowsBytes(cs, [[U32(id), Str(text)]])
      == LeBytes(id, 4) + (I32Bytes(|cs.eucKr(text)|) + cs.eucKr(text))
  {
    hide LeBytes, I32Bytes;
    var row: seq<Cell> := [U32(id), Str(text)];
    assert row[1..] == [Str(text)] && row[1..][1..] == [];
    assert RowBytes(cs, row[1..]) == I32Bytes(|cs.eucKr(text)|) + cs.eucKr(text) + [];
    assert RowBytes(cs, row) == LeBytes(id, 4) + (I32Bytes(|cs.eucKr(text)|) + cs.eucKr(text));
  }

  lemma OneRowRead(cs: Charset, columns: seq<ColumnType>, s: seq<byte>)
    ensures ReadRows(cs, columns, 1, s) == match ReadRow(cs, columns, s)
      case Err(e) => Err(e)
      case Ok((row, rest)) => Ok(([row], rest))
  {
    hide ReadRow;
    var r := ReadRow(cs, columns, s);
    if r.Ok? {
      assert ReadRows(cs, columns, 0, r.value.1) == Ok(([], r.value.1));
      assert [r.value.0] + [] == [r.value.0];
    }
  }

  /** A text of one to three bytes: too short for a third integer. */
  predicate ShortText(cs: Charset, text: seq<byte>) { 1 <= |cs.eucKr(text)| <= 3 }

  lemma LastColumn(cs: Charset, n: nat, e: seq<byte>)
    requires n <= 1 && |e| < 4
    ensures ReadRow(cs, Integers(n).columns, e) == if n == 0 then Ok(([], e)) else Err(UnexpectedEof)
  {
  }

  /** What the two cells of the row added are for columns of unsigned integers. */
  lemma IntegersRow(cs: Charset, n: nat, id: u32, text: seq<byte>)
    requires (n == 2 || n == 3) && ShortText(cs, text)
    ensures ReadRows(cs, Integers(n).columns, 1, RowsBytes(cs, [[U32(id), Str(text)]]))
      == if n == 2 then Ok(([[U32(id), U32(|cs.eucKr(text)|)]], cs.eucKr(text))) else Err(UnexpectedEof)
  {
    hide LeBytes, ReadCell;
    var e := cs.eucKr(text);
    var size: u32 := |e|;
    AddedBytes(cs, id, text);
    IntegerCell(cs, id, LeBytes(size, 4) + e);
    IntegerCell(cs, size, e);
    var cols := Integers(n).columns;
    var third := ReadRow(cs, Integers(n - 2).columns, e);
    assert third == if n == 2 then Ok(([], e)) else Err(UnexpectedEof) by { LastColumn(cs, n - 2, e); }
    assert cols[1..] == Integers(n - 1).columns && cols[1..][1..] == Integers(n - 2).columns;
    var second := ReadRow(cs, cols[1..], LeBytes(size, 4) + e);
    assert second == Prepend([U32(size)], third);
    var first := ReadRow(cs, cols, LeBytes(id, 4) + (LeBytes(size, 4) + e));
    assert first == Prepend([U32(id)], second);
    if n == 2 {
      assert [U32(id)] + ([U32(size)] + []) == [U32(id), U32(size)];
    }
    OneRowRead(cs, cols, LeBytes(id, 4) + (LeBytes(size, 4) + e));
  }

  /** A line appended to a readable ChaosExpansion file of three integer columns makes it
    * unreadable; with two, the verification succeeds on a table that is not the one merged. */
  lemma OtherColumnsFail(c: Cipher, cs: Charset, n: nat, id: u32, text: seq<byte>)
    requires (n == 2 || n == 3) && ShortText(cs, text)
    ensures Loaded(c, cs, Encrypted(c, Serialized(cs, Integers(n), true))) == Some(Ok(Integers(n)))
    ensures Loaded(c, cs, AppendedFile(c, cs, Integers(n), [Entry(id, text)], true)) == Some(
      if n == 2 then Ok(Table(Integers(2).columns, [[U32(id), U32(|cs.eucKr(text)|)]])) else Err(UnexpectedEof))
  {
    hide Encrypted, Decrypted, ParsedBody, BodyBytes, TypesBytes, I32Bytes, ReadRows, RowsBytes, RowBytes;
    var merged := Table(Integers(n).columns, [[U32(id), Str(text)]]);
    IntegersLoad(c, cs, n);
    IntegersMerged(n, id, text);
    IntegersRow(cs, n, id, text);
    var s := Serialized(cs, merged, true);
    OneRowSize(cs, merged, id, text);
    SerializedNotEmpty(cs, merged, true);
    RoundTrip(c, s);
    SerializedRead(cs, merged, true, []);
    BodyRead(cs, merged, []);
    assert s + [] == s && RowsBytes(cs, merged.rows) + [] == RowsBytes(cs, merged.rows);
  }

  lemma OneRowSize(cs: Charset, t: Table, id: u32, text: seq<byte>)
    requires |t.columns| <= 3 && t.rows == [[U32(id), Str(text)]] && ShortText(cs, text)
    ensures FileSizeOk(cs, t, true)
  {
    hide TypesBytes, I32Bytes, LeBytes, RowsBytes;
    TypesSize(t.columns);
    AddedBytes(cs, id, text);
  }
}
