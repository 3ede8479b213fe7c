/** The tab-separated lines that are appended to a table. */
module TblLines {
  import opened Bytes
  import opened TblCodec
  import opened Text
  import opened Wrappers

  /** A line of the input, after trimming and splitting at the first tab. */
  datatype Line =
    | Ignored                              // empty, or a comment
    | NoTab                                // reported and skipped
    | InvalidId                            // stops the whole run
    | Entry(id: u32, text: seq<byte>)

  /** How Rust stores a string. */
  type Utf8 = string -> seq<byte>

  /** `parse::<u32>()`: digits, and possibly a plus sign in front. */
  function ParseU32(s: string): (r: Option<u32>)
  {
    var digits := if s != "" && s[0] == '+' then s[1..] else s;
    if digits == "" || !(forall c :: c in digits ==> IsDigit(c)) || NatValue(digits) >= 0x1_0000_0000 then None
    else Some(NatValue(digits))
  }

  /** What `handle_append` makes of one line. */
  function LineOf(utf8: Utf8, raw: string): Line
  {
    var line := Trim(raw);
    if line == "" || StartsWith(line, "#") then Ignored
    else
      match Find(line, "\t")
      case None => NoTab
      case Some(i) =>
        match ParseU32(Trim(line[..i]))
        case None => InvalidId
        case Some(id) => Entry(id, utf8(Trim(line[i + 1..])))
  }

  function Classified(utf8: Utf8, raw: seq<string>): (r: seq<Line>)
    ensures |r| == |raw|
  {
    seq(|raw|, i requires 0 <= i < |raw| => LineOf(utf8, raw[i]))
  }

  /** The lines of a whole file. */
  function LinesOf(utf8: Utf8, content: string): seq<Line> { Classified(utf8, Lines(content)) }

  // ------------------------------------------------------------ which texts can be given

  ghost predicate Injective(utf8: Utf8) { forall a, b :: utf8(a) == utf8(b) ==> a == b }

  /** A text that no trimming changes, and that is not empty. */
  predicate Givable(text: string) { text != "" && Trim(text) == text }

  lemma {:induction false} TrimStartKeepsEnd(s: string)
    requires s != "" && !IsWhite(s[|s| - 1])
    ensures var r := TrimStart(s); r != "" && r[|r| - 1] == s[|s| - 1]
  {
    if IsWhite(s[0]) {
      assert s[1..][|s| - 2] == s[|s| - 1];
      TrimStartKeepsEnd(s[1..]);
    }
  }

  lemma TrimGives(s: string)
    ensures Trim(s) != "" ==> Givable(Trim(s)) && !IsWhite(Trim(s)[|Trim(s)| - 1])
  {
    var t := Trim(s);
    if t != "" {
      assert t[0] == TrimStart(s)[0];
      TrimmedAlready(t);
    }
  }

  lemma TrimKeepsSomething(s: string)
    requires s != "" && !IsWhite(s[|s| - 1])
    ensures Trim(s) != ""
  {
    TrimStartKeepsEnd(s);
  }

  /** The text of an entry is never empty: trimming the line takes the tab in front of nothing. */
  lemma EntryText(utf8: Utf8, raw: string) returns (text: string)
    requires LineOf(utf8, raw).Entry?
    ensures LineOf(utf8, raw).text == utf8(text) && Givable(text)
  {
    hide TrimEnd, TrimStart, ParseU32, NatValue;
    var line := Trim(raw);
    var i := Find(line, "\t").value;
    CharAt(line, '\t', i);
    TrimGives(raw);
    assert line[i + 1..] != "" && line[i + 1..][|line| - i - 2] == line[|line| - 1];
    TrimKeepsSomething(line[i + 1..]);
    TrimGives(line[i + 1..]);
    text := Trim(line[i + 1..]);
  }

  /** A text that is a number of 32 bits without sign: digits, possibly behind a plus. */
  predicate IsNumber(s: string)
  {
    var digits := if s != "" && s[0] == '+' then s[1..] else s;
    digits != "" && (forall c :: c in digits ==> '0' <= c <= '9') && NatValue(digits) < 4294967296
  }

  lemma NumberIs(s: string)
    ensures IsNumber(s) <==> ParseU32(s).Some?
  {
    hide NatValue;
    var digits := if s != "" && s[0] == '+' then s[1..] else s;
    assert forall c :: c in digits ==> (IsDigit(c) <==> '0' <= c <= '9');
  }

  lemma NoFirstTab(line: string)
    requires '\t' !in line
    ensures !BadId(line)
  {
    hide IsNumber;
  }

  /** What becomes of a line: blank lines and comments are ignored, lines without a tab skipped, and a
    * line whose first part is no number stops the run. */
  lemma LineKinds(utf8: Utf8, raw: string)
    ensures var line := Trim(raw);
      && (LineOf(utf8, raw) == Ignored <==> line == "" || line[0] == '#')
      && (LineOf(utf8, raw) == NoTab <==> line != "" && line[0] != '#' && '\t' !in line)
      && (LineOf(utf8, raw) == InvalidId <==> line != "" && line[0] != '#' && BadId(line))
  {
    hide Find, Trim, NatValue, IsNumber, ParseU32, IsFirstTab;
    var line := Trim(raw);
    var r := Find(line, "\t");
    assert line != "" ==> (StartsWith(line, "#") <==> line[0] == '#');
    if r.Some? {
      CharAt(line, '\t', r.value);
      FirstTabOnly(line, r.value);
      NumberIs(Trim(line[..r.value]));
      if ParseU32(Trim(line[..r.value])).None? {
        assert IsFirstTab(line, r.value) && !IsNumber(Trim(line[..r.value]));
      }
    } else if '\t' in line {
      var i :| 0 <= i < |line| && line[i] == '\t';
      CharAt(line, '\t', i);
    } else {
      NoFirstTab(line);
    }
  }

  /** What stands before the first tab is no number. */
  ghost predicate BadId(line: string) { exists i: nat :: IsFirstTab(line, i) && !IsNumber(Trim(line[..i])) }

  predicate IsFirstTab(line: string, i: nat)
  {
    i < |line| && line[i] == '\t' && forall j :: 0 <= j < i ==> line[j] != '\t'
  }

  lemma FirstTabOnly(line: string, i: nat)
    requires Find(line, "\t") == Some(i)
    ensures IsFirstTab(line, i) && forall j: nat :: IsFirstTab(line, j) ==> j == i
  {
    hide Find;
    forall j: nat | j < |line|
      ensures OccursAt(line, "\t", j) <==> line[j] == '\t'
    {
      CharAt(line, '\t', j);
    }
    CharAt(line, '\t', i);
  }

  /** An entry as a line of the file. */
  function EntryLine(id: u32, text: string): string { DecimalNat(id) + ("\t" + text) }

  lemma IdRead(id: u32)
    ensures ParseU32(Trim(DecimalNat(id))) == Some(id)
  {
    hide DecimalNat, NatValue, TrimStart, TrimEnd;
    var d := DecimalNat(id);
    assert d[0] in d && d[|d| - 1] in d;
    DigitsNotWhite();
    TrimmedAlready(d);
    NatRoundTrip(id);
  }

  lemma DigitsNotWhite()
    ensures forall c :: IsDigit(c) ==> !IsWhite(c) && c != '+' && c != '#' && c != '\t'
  {
  }

  lemma TabFound(d: string, text: string)
    requires forall c :: c in d ==> IsDigit(c)
    ensures Find(d + ("\t" + text), "\t") == Some(|d|)
  {
    hide Find;
    DigitsNotWhite();
    CharBehind(d, '\t', text);
  }

  lemma EntryRead(utf8: Utf8, id: u32, text: string)
    requires Givable(text)
    ensures LineOf(utf8, EntryLine(id, text)) == Entry(id, utf8(text))
  {
    hide TrimStart, TrimEnd, ParseU32, DecimalNat, Find;
    var d, line := DecimalNat(id), EntryLine(id, text);
    assert d[0] in d;
    DigitsNotWhite();
    assert line[0] == d[0] && line[|line| - 1] == text[|text| - 1];
    TrimGives(text);
    TrimmedAlready(line);
    TabFound(d, text);
    assert line[..|d|] == d && line[|d| + 1..] == text;
    IdRead(id);
  }

  /** A line gives its text to the table exactly when the text is trimmed and not empty. */
  lemma EntryReadExactly(utf8: Utf8, id: u32, text: string)
    requires Injective(utf8)
    ensures LineOf(utf8, EntryLine(id, text)) == Entry(id, utf8(text)) <==> Givable(text)
  {
    hide LineOf, Givable, EntryLine;
    if Givable(text) {
      EntryRead(utf8, id, text);
    }
    if LineOf(utf8, EntryLine(id, text)) == Entry(id, utf8(text)) {
      var t := EntryText(utf8, EntryLine(id, text));
    }
  }

  function EntryLines(entries: seq<(u32, string)>): (r: seq<string>)
    ensures |r| == |entries|
  {
    seq(|entries|, i requires 0 <= i < |entries| => EntryLine(entries[i].0, entries[i].1))
  }

  /** A file written from entries is read as those entries, in order. */
  lemma FileRead(utf8: Utf8, entries: seq<(u32, string)>)
    requires forall e :: e in entries ==> Givable(e.1) && NoNewline(e.1)
    ensures var lines := LinesOf(utf8, Written(EntryLines(entries)));
      |lines| == |entries| && forall i :: 0 <= i < |entries| ==> lines[i] == Entry(entries[i].0, utf8(entries[i].1))
  {
    hide LineOf, Givable, EntryLine, Lines, Written;
    var raw := EntryLines(entries);
    forall i | 0 <= i < |entries|
      ensures NoNewline(raw[i]) && LineOf(utf8, raw[i]) == Entry(entries[i].0, utf8(entries[i].1))
    {
      assert entries[i] in entries;
      EntryRead(utf8, entries[i].0, entries[i].1);
      EntryOneLine(entries[i].0, entries[i].1);
    }
    LinesOfWritten(raw);
  }

  lemma EntryOneLine(id: u32, text: string)
    requires NoNewline(text)
    ensures NoNewline(EntryLine(id, text))
  {
    hide DecimalNat;
    DigitsNotWhite();
  }
}
