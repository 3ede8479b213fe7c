/** The Lua scanner: which events a quest script handles. */
module LuaParser {
  import opened LuaCalls
  import opened Text
  import opened Wrappers

  // ----------------------------------------------------------------- line parsers

  /** `parse_event_equals`: the number after the first "EVENT", if an "==" stands between. */
  function ParseEventEquals(s: string): (r: Option<int>)
    ensures r.Some? ==> I32_MIN <= r.value <= I32_MAX
  {
    match Find(s, "EVENT")
    case None => None
    case Some(pos) =>
      var afterEvent := TrimStart(s[pos + 5..]);
      if !StartsWith(afterEvent, "==") then None
      else
        var n := Numeral(TrimStart(afterEvent[2..]));
        if n == "" then None else ParseI32(n)
  }

  /** `parse_event_if`. */
  function ParseEventIf(line: string): (r: Option<int>)
    ensures r.Some? ==> I32_MIN <= r.value <= I32_MAX
  {
    var l := Trim(line);
    if !StartsWith(l, "if") then None else ParseEventEquals(l[2..])
  }

  /** `parse_elseif_event`. */
  function ParseElseifEvent(line: string): (r: Option<int>)
    ensures r.Some? ==> I32_MIN <= r.value <= I32_MAX
  {
    var l := Trim(line);
    if !StartsWith(l, "elseif") then None else ParseEventEquals(l[6..])
  }

  /** The event a line of the file opens. */
  function EventOf(line: string): (r: Option<int>)
    ensures r.Some? ==> I32_MIN <= r.value <= I32_MAX
  {
    var trimmed := Trim(line);
    var e := ParseEventIf(trimmed);
    if e.Some? then e else ParseElseifEvent(trimmed)
  }

  // --------------------------------------------------------------------- the scan

  /** A handler block, and the calls inside it that the scanner keeps. */
  datatype EventHandler = EventHandler(eventId: int, lineStart: nat, lineCount: nat, calls: Calls)

  /** Which event a line opens: the scanner works for any such rule. */
  type Rule = string -> Option<int>

  /** Events opened by some line. */
  function EventsBy(rule: Rule, lines: seq<string>): set<int>
  {
    set i | 0 <= i < |lines| && rule(lines[i]).Some? :: rule(lines[i]).value
  }

  function EventsIn(lines: seq<string>): set<int> { EventsBy(EventOf, lines) }

  /** The events a file handles. */
  function EventKeys(content: string): set<int> { EventsIn(Lines(content)) }

  /** `h` is the block of the last line that opens its event, up to the next opening line. */
  ghost predicate IsLastBlock(rule: Rule, lines: seq<string>, h: EventHandler)
  {
    && 1 <= h.lineStart && h.lineStart + h.lineCount <= |lines|
    && rule(lines[h.lineStart - 1]) == Some(h.eventId)
    && (forall i :: h.lineStart <= i < h.lineStart + h.lineCount ==> rule(lines[i]).None?)
    && (h.lineStart + h.lineCount < |lines| ==> rule(lines[h.lineStart + h.lineCount]).Some?)
    && (forall i :: h.lineStart <= i < |lines| ==> rule(lines[i]) != Some(h.eventId))
    && h.calls == CallsIn(lines[h.lineStart..h.lineStart + h.lineCount])
  }

  /** A block that a later opening line has closed. */
  ghost predicate IsClosed(rule: Rule, seen: seq<string>, e: int, h: EventHandler)
  {
    h.eventId == e && h.lineStart + h.lineCount < |seen| && IsLastBlock(rule, seen, h)
  }

  /** The scanner's state after some lines: the running block and the closed ones.  The
    * map may still hold an older block of the running event. */
  ghost predicate Tracked(rule: Rule, seen: seq<string>, handlers: map<int, EventHandler>, current: Option<int>,
      start: nat, count: nat, calls: Calls)
  {
    && (current.None? ==> handlers == map[] && EventsBy(rule, seen) == {} && count == 0 && calls == CallsIn([]))
    && (current.Some? ==>
          && handlers.Keys + {current.value} == EventsBy(rule, seen)
          && IsLastBlock(rule, seen, EventHandler(current.value, start, count, calls))
          && start + count == |seen|)
    && (forall e :: e in handlers && current != Some(e) ==> IsClosed(rule, seen, e, handlers[e]))
  }

  /** `parse_lua_file`: the block scanner.  Each event keeps one handler, from its last block. */
  method ParseLua(content: string) returns (handlers: map<int, EventHandler>)
    ensures handlers.Keys == EventKeys(content)
    ensures forall e :: e in handlers ==> handlers[e].eventId == e && IsLastBlock(EventOf, Lines(content), handlers[e])
  {
    hide EventOf, Tracked, IsLastBlock, IsClosed, EventsBy, ParseEventIf, ParseElseifEvent, Trim, Lines, TrimmedCalls;
    var lines := Lines(content);
    handlers := map[];
    var current: Option<int> := None;
    var start, count := 0, 0;
    var selects: seq<SelectMsg>, exchanges: seq<I32>, saves: seq<I32> := [], [], [];
    TrackedAtStart(EventOf);
    for i := 0 to |lines|
      invariant Tracked(EventOf, lines[..i], handlers, current, start, count, Calls(selects, exchanges, saves))
    {
      var trimmed := Trim(lines[i]);
      var e := ParseEventIf(trimmed);
      if e.None? {
        e := ParseElseifEvent(trimmed);
      }
      EventOfLine(lines[i]);
      assert lines[..i + 1] == lines[..i] + [lines[i]];
      if e.Some? {
        AfterOpening(EventOf, lines[..i], lines[i], handlers, current, start, count, Calls(selects, exchanges, saves));
        if current.Some? {
          var calls := Calls(selects, exchanges, saves);
          handlers := handlers[current.value := EventHandler(current.value, start, count, calls)];
          selects, exchanges, saves, count := [], [], [], 0;
        }
        current, start := e, i + 1;
      } else {
        AfterOther(EventOf, lines[..i], lines[i], handlers, current, start, count, Calls(selects, exchanges, saves));
        if current.Some? {
          count := count + 1;
          selects, exchanges, saves := CollectCalls(trimmed, selects, exchanges, saves);
        }
      }
    }
    assert lines[..|lines|] == lines;
    var calls := Calls(selects, exchanges, saves);
    AtEnd(EventOf, lines, handlers, current, start, count, calls);
    if current.Some? {
      handlers := handlers[current.value := EventHandler(current.value, start, count, calls)];
    }
  }

  /** The calls of one trimmed line, added to those of its block. */
  method CollectCalls(trimmed: string, selects: seq<SelectMsg>, exchanges: seq<I32>, saves: seq<I32>)
    returns (selects': seq<SelectMsg>, exchanges': seq<I32>, saves': seq<I32>)
    ensures Calls(selects', exchanges', saves') == Both(Calls(selects, exchanges, saves), TrimmedCalls(trimmed))
  {
    hide ParseSelectMsg, ParseExchange, ParseSaveEvent;
    selects', exchanges', saves' := selects, exchanges, saves;
    if StartsWith(trimmed, "--") {
      return;
    }
    var sm := ParseSelectMsg(trimmed);
    if sm.Some? {
      selects' := selects' + [sm.value];
    }
    var ex := ParseExchange(trimmed);
    if ex.Some? {
      exchanges' := exchanges' + [ex.value];
    }
    var se := ParseSaveEvent(trimmed);
    if se.Some? {
      saves' := saves' + [se.value];
    }
  }

  function Saved(handlers: map<int, EventHandler>, current: Option<int>, start: nat, count: nat, calls: Calls)
    : map<int, EventHandler>
  {
    if current.Some? then handlers[current.value := EventHandler(current.value, start, count, calls)] else handlers
  }

  lemma TrackedAtStart(rule: Rule)
    ensures Tracked(rule, [], map[], None, 0, 0, Calls([], [], []))
  {
  }

  lemma AfterOpening(rule: Rule, seen: seq<string>, line: string, handlers: map<int, EventHandler>,
      current: Option<int>, start: nat, count: nat, calls: Calls)
    requires rule(line).Some? && Tracked(rule, seen, handlers, current, start, count, calls)
    ensures Tracked(rule, seen + [line], Saved(handlers, current, start, count, calls), rule(line), |seen| + 1, 0,
      Calls([], [], []))
    ensures current.None? ==> count == 0 && calls == Calls([], [], [])
  {
    hide EventsBy;
    EventsExtended(rule, seen, line);
    var e := rule(line).value;
    var saved := Saved(handlers, current, start, count, calls);
    assert IsLastBlock(rule, seen + [line], EventHandler(e, |seen| + 1, 0, CallsIn([])));
    forall x | x in saved && x != e
      ensures IsClosed(rule, seen + [line], x, saved[x])
    {
      if current == Some(x) {
        BlockStays(rule, seen, line, saved[x]);
      } else {
        BlockStays(rule, seen, line, handlers[x]);
      }
    }
  }

  /** A line that opens another event ends the last block, and one that opens none leaves
    * a block that has ended alone. */
  lemma BlockStays(rule: Rule, seen: seq<string>, line: string, h: EventHandler)
    requires rule(line) != Some(h.eventId) && IsLastBlock(rule, seen, h)
    requires rule(line).Some? || h.lineStart + h.lineCount < |seen|
    ensures IsClosed(rule, seen + [line], h.eventId, h)
  {
    hide CallsIn;
    var from, to := h.lineStart, h.lineStart + h.lineCount;
    assert (seen + [line])[from..to] == seen[from..to];
  }

  lemma AfterOther(rule: Rule, seen: seq<string>, line: string, handlers: map<int, EventHandler>,
      current: Option<int>, start: nat, count: nat, calls: Calls)
    requires rule(line).None? && Tracked(rule, seen, handlers, current, start, count, calls)
    ensures Tracked(rule, seen + [line], handlers, current, start, if current.Some? then count + 1 else count,
      if current.Some? then Both(calls, TrimmedCalls(Trim(line))) else calls)
  {
    hide EventsBy, CallsIn, TrimmedCalls, Trim;
    EventsExtended(rule, seen, line);
    forall x | x in handlers && current != Some(x)
      ensures IsClosed(rule, seen + [line], x, handlers[x])
    {
      BlockStays(rule, seen, line, handlers[x]);
    }
    if current.Some? {
      assert (seen + [line])[start..start + count + 1] == seen[start..start + count] + [line];
      CallsMore(seen[start..start + count], line);
    }
  }

  lemma AtEnd(rule: Rule, lines: seq<string>, handlers: map<int, EventHandler>, current: Option<int>, start: nat,
      count: nat, calls: Calls)
    requires Tracked(rule, lines, handlers, current, start, count, calls)
    ensures var all := Saved(handlers, current, start, count, calls);
      && all.Keys == EventsBy(rule, lines)
      && forall e :: e in all ==> all[e].eventId == e && IsLastBlock(rule, lines, all[e])
  {
  }

  lemma EventsExtended(rule: Rule, seen: seq<string>, line: string)
    ensures EventsBy(rule, seen + [line]) == EventsBy(rule, seen)
      + (if rule(line).Some? then {rule(line).value} else {})
  {
    EventsAppend(rule, seen, [line]);
    assert EventsBy(rule, [line]) == if rule(line).Some? then {rule(line).value} else {} by {
      assert [line][0] == line;
    }
  }

  lemma EventsAppend(rule: Rule, a: seq<string>, b: seq<string>)
    ensures EventsBy(rule, a + b) == EventsBy(rule, a) + EventsBy(rule, b)
  {
    var c := a + b;
    forall e | e in EventsBy(rule, a)
      ensures e in EventsBy(rule, c)
    {
      var i :| 0 <= i < |a| && rule(a[i]) == Some(e);
      assert c[i] == a[i];
    }
    forall e | e in EventsBy(rule, b)
      ensures e in EventsBy(rule, c)
    {
      var i :| 0 <= i < |b| && rule(b[i]) == Some(e);
      assert c[|a| + i] == b[i];
    }
    forall e | e in EventsBy(rule, c)
      ensures e in EventsBy(rule, a) || e in EventsBy(rule, b)
    {
      var i :| 0 <= i < |c| && rule(c[i]) == Some(e);
      if i < |a| {
        assert a[i] == c[i];
      } else {
        assert b[i - |a|] == c[i];
      }
    }
  }

  lemma EventOfLine(line: string)
    ensures EventOf(line) == if ParseEventIf(Trim(line)).Some? then ParseEventIf(Trim(line))
      else ParseElseifEvent(Trim(line))
  {
  }

  // ------------------------------------------------------------ lines that open nothing

  /** Nothing in the line can be taken for the keyword. */
  lemma NoKeyword(line: string)
    requires 'V' !in line
    ensures EventOf(line).None?
  {
    hide Trim, ParseEventEquals;
    var l := Trim(line);
    var m := Trim(l);
    TrimChars(line);
    TrimChars(l);
    assert 'V' !in m;
    if StartsWith(m, "if") {
      NothingEquals(m[2..]);
    }
    if StartsWith(m, "elseif") {
      NothingEquals(m[6..]);
    }
  }

  lemma NothingEquals(s: string)
    requires 'V' !in s
    ensures ParseEventEquals(s).None?
  {
    if Find(s, "EVENT").Some? {
      KeywordChars(s, Find(s, "EVENT").value);
    }
  }

  lemma KeywordChars(s: string, i: nat)
    requires OccursAt(s, "EVENT", i)
    ensures 'V' in s
  {
    assert s[i..i + 5][1] == s[i + 1] && s[i + 1] in s;
  }

  lemma TrimChars(s: string)
    ensures forall c :: c in Trim(s) ==> c in s
  {
  }

  /** A line whose text starts with neither "i" nor "e" opens nothing. */
  lemma OtherStart(line: string)
    requires line != "" && !IsWhite(line[0]) && line[0] != 'i' && line[0] != 'e'
    ensures EventOf(line).None?
  {
    var l := Trim(line);
    assert l <= line;
    assert l != "" ==> l[0] == line[0];
    assert TrimStart(line) == line;
    assert TrimStart(l) == l by {
      assert l != "" ==> !IsWhite(l[0]);
    }
    var m := Trim(l);
    assert m <= l;
    assert m != "" ==> m[0] == line[0];
  }

  /** The header line of a generated handler. */
  function HeaderLine(e: int): string { "if (EVENT == " + Decimal(e) + ") then" }

  lemma DecimalChars(n: int)
    ensures Decimal(n) != "" && forall c :: c in Decimal(n) ==> IsDigit(c) || c == '-'
  {
  }

  /** A line that opens an event, in the four forms scripts use. */
  function OpeningLine(elseif: bool, parens: bool, e: int): string
  {
    (if elseif then "elseif" else "if") + AfterKeyword(parens, e)
  }

  function AfterKeyword(parens: bool, e: int): string
  {
    (if parens then " (" else " ") + ("EVENT" + (" == " + Decimal(e) + Closing(parens)))
  }

  function Closing(parens: bool): string { if parens then ") then" else " then" }

  /** Each of the four opens its event, for every i32. */
  lemma OpeningParsed(elseif: bool, parens: bool, e: int)
    requires I32_MIN <= e <= I32_MAX
    ensures EventOf(OpeningLine(elseif, parens, e)) == Some(e)
  {
    hide Decimal, ParseEventEquals, Trim;
    var line := OpeningLine(elseif, parens, e);
    assert line[|line| - 1] == 'n' && line[0] == if elseif then 'e' else 'i';
    TrimmedAlready(line);
    EqualsParsed(parens, e);
    if elseif {
      assert StartsWith(line, "elseif") && line[6..] == AfterKeyword(parens, e);
    } else {
      assert StartsWith(line, "if") && line[2..] == AfterKeyword(parens, e);
    }
  }

  /** The parser reads back the event the generator printed. */
  lemma HeaderParsed(e: int)
    requires I32_MIN <= e <= I32_MAX
    ensures EventOf(HeaderLine(e)) == Some(e)
  {
    hide Decimal, EventOf;
    assert HeaderLine(e) == OpeningLine(false, true, e);
    OpeningParsed(false, true, e);
  }

  lemma EqualsParsed(parens: bool, e: int)
    requires I32_MIN <= e <= I32_MAX
    ensures ParseEventEquals(AfterKeyword(parens, e)) == Some(e)
  {
    hide Find, Decimal, TrimStart, Numeral, ParseI32;
    var d, c := Decimal(e), Closing(parens);
    var s, pos := AfterKeyword(parens, e), if parens then 2 else 1;
    FoundAfterLead(parens, " == " + d + c);
    assert s[pos + 5..] == " " + ("== " + d + c);
    OneSpace("== " + d + c);
    assert ("== " + d + c)[2..] == " " + (d + c);
    DecimalChars(e);
    assert d[0] in d;
    OneSpace(d + c);
    NumeralOf(d, c);
    IntRoundTrip(e);
  }

  lemma OneSpace(s: string)
    requires s != "" && !IsWhite(s[0])
    ensures TrimStart(" " + s) == s
  {
    assert (" " + s)[1..] == s;
  }

  lemma FoundAfterLead(parens: bool, rest: string)
    ensures Find((if parens then " (" else " ") + ("EVENT" + rest), "EVENT") == Some(if parens then 2 else 1)
  {
    var s := (if parens then " (" else " ") + ("EVENT" + rest);
    if parens {
      assert s[2..2 + 5] == "EVENT";
      assert OccursAt(s, "EVENT", 2);
      assert s[0..5][0] == ' ' && s[1..6][0] == '(';
      assert !OccursAt(s, "EVENT", 0) && !OccursAt(s, "EVENT", 1);
    } else {
      assert s[1..1 + 5] == "EVENT";
      assert OccursAt(s, "EVENT", 1);
      assert s[0..5][0] == ' ';
      assert !OccursAt(s, "EVENT", 0);
    }
  }
}
