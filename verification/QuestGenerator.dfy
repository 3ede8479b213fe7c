/** The Lua code for missing handlers, and the generated block at the end of a quest file. */
module QuestGenerator {
  import opened Sequences
  import opened Sorting
  import opened Text
  import opened LuaCalls
  import opened LuaParser
  import opened QuestAnalyzer
  import opened Wrappers

  // ------------------------------------------------------------------ one handler

  /** Text that can neither end a line nor spell the keyword. */
  predicate Plain(s: string) { forall i :: 0 <= i < |s| ==> s[i] != 'V' && s[i] != '\n' && s[i] != '\r' }

  ghost predicate AllPlain(lines: seq<string>) { forall l :: l in lines ==> Plain(l) }

  lemma DecimalPlain(n: int)
    ensures Plain(Decimal(n))
  {
    hide Decimal;
    DecimalChars(n);
    assert forall i :: 0 <= i < |Decimal(n)| ==> Decimal(n)[i] in Decimal(n);
  }

  lemma {:induction false} CallPlain(name: string, args: seq<string>)
    requires Plain(name) && AllPlain(args)
    ensures Plain(Call(name, args))
  {
    JoinedPlain(args);
  }

  lemma {:induction false} JoinedPlain(args: seq<string>)
    requires AllPlain(args)
    ensures Plain(Joined(args))
  {
    if |args| == 1 {
      assert args[0] in args;
    } else if |args| > 1 {
      assert args[0] in args && forall a :: a in args[1..] ==> a in args;
      JoinedPlain(args[1..]);
    }
  }

  lemma NumberCallPlain(name: string, n: int)
    ensures Plain(name) ==> Plain(Call(name, ["UID", Decimal(n)]))
  {
    hide Decimal, Call;
    DecimalPlain(n);
    assert Plain("UID");
    if Plain(name) {
      CallPlain(name, ["UID", Decimal(n)]);
    }
  }

  /** A call with the user and a number. */
  function NumberCall(name: string, n: int): (r: string)
    ensures Plain(name) ==> Plain(r)
  {
    NumberCallPlain(name, n);
    Call(name, ["UID", Decimal(n)])
  }

  type Button = (I32, I32)

  /** The texts of buttons and the events they lead to, as arguments. */
  function ButtonArgs(buttons: seq<Button>): (r: seq<string>)
    ensures AllPlain(r) && |r| == 2 * |buttons|
  {
    if buttons == [] then [] else
      DecimalPlain(buttons[0].0);
      DecimalPlain(buttons[0].1);
      [Decimal(buttons[0].0), Decimal(buttons[0].1)] + ButtonArgs(buttons[1..])
  }

  function SelectArgs(flag: I32, quest: I32, header: I32, buttons: seq<Button>): (r: seq<string>)
    ensures AllPlain(r)
  {
    DecimalPlain(flag);
    DecimalPlain(quest);
    DecimalPlain(header);
    assert Plain("UID") && Plain("NPC");
    ["UID", Decimal(flag), Decimal(quest), Decimal(header), "NPC"] + ButtonArgs(buttons)
  }

  /** The call that shows a message with buttons. */
  function SelectLine(flag: I32, quest: I32, header: I32, buttons: seq<Button>): (r: string)
    ensures Plain(r)
  {
    hide SelectArgs;
    CallPlain("SelectMsg", SelectArgs(flag, quest, header, buttons));
    Call("SelectMsg", SelectArgs(flag, quest, header, buttons)) + ";"
  }

  /** A choice, and a message. */
  function Dialog(quest: I32, header: I32, first: Button, second: Button): (r: string)
    ensures Plain(r)
  {
    SelectLine(4, quest, header, [first, second])
  }

  function Message(quest: I32, header: I32, button: Button): (r: string)
    ensures Plain(r)
  {
    SelectLine(2, quest, header, [button])
  }

  function Comment(m: MissingHandler): (r: string)
    ensures Plain(r) && StartsWith(r, "--")
  {
    DecimalPlain(m.source.questId);
    DecimalPlain(m.source.status);
    DecimalPlain(m.source.index);
    "-- [AUTO-GEN] quest=" + (Decimal(m.source.questId) + (" status=" + (Decimal(m.source.status)
      + (" n_index=" + Decimal(m.source.index)))))
  }

  function SaveLine(save: I32): (r: string)
    ensures Plain(r)
  {
    NumberCall("SaveEvent", save) + ";"
  }

  function RunExchange(exchange: I32): (r: string)
    ensures Plain(r)
  {
    NumberCall("RunQuestExchange", exchange) + ";"
  }

  function MapLine(zone: I32): (r: string)
    ensures Plain(r)
  {
    NumberCall("ShowMap", zone) + ";"
  }

  function SearchLine(npc: I32): (r: string)
    ensures Plain(r)
  {
    NumberCall("SearchQuest", npc) + ";"
  }

  function CountItem(item: I32): (r: string)
    ensures Plain(r)
  {
    "ItemA = " + (NumberCall("HowmuchItem", item) + ";")
  }

  function IfFewer(count: I32): (r: string)
    ensures Plain(r)
  {
    DecimalPlain(count);
    "if (ItemA < " + (Decimal(count) + ") then")
  }

  function StatusCheck(quest: I32): (r: string)
    ensures Plain(r)
  {
    "QuestStatusCheck = " + NumberCall("GetQuestStatus", quest)
  }

  function MonsterSub(): (r: string)
    ensures Plain(r)
  {
    "MonsterSub = ExistMonsterQuestSub" + "(UID);"
  }

  function Tab(line: string): (r: string)
    ensures Plain(line) ==> Plain(r)
  {
    "\t" + line
  }

  function MonsterCheck(quest: I32, talk: I32, complete: I32, incomplete: I32): (r: seq<string>)
    ensures AllPlain(r)
  {
    hide MonsterSub, Dialog, Message, Tab;
    assert Plain("if (MonsterSub == 0) then") && Plain("else") && Plain("end");
    [ Tab(MonsterSub()), Tab("if (MonsterSub == 0) then"),
      Tab(Tab(Dialog(quest, talk, (22, complete), (23, -1)))), Tab("else"),
      Tab(Tab(Message(quest, talk, (18, incomplete)))), Tab("end") ]
  }

  function ItemCheck(item: (I32, I32), quest: I32, talk: I32, complete: I32, incomplete: I32): (r: seq<string>)
    ensures AllPlain(r)
  {
    hide CountItem, IfFewer, Dialog, Message, Tab;
    assert Plain("else") && Plain("end");
    [ Tab(CountItem(item.0)), Tab(IfFewer(item.1)),
      Tab(Tab(Message(quest, talk, (18, incomplete)))), Tab("else"),
      Tab(Tab(Dialog(quest, talk, (41, complete), (27, -1)))), Tab("end") ]
  }

  function Completing(quest: I32, exchange: I32, save: I32): (r: seq<string>)
    ensures AllPlain(r)
  {
    hide StatusCheck, Message, RunExchange, SaveLine, Tab;
    assert Plain("if(QuestStatusCheck == 2) then") && Plain("else") && Plain("end");
    [Tab(StatusCheck(quest)), Tab("if(QuestStatusCheck == 2) then"), Tab(Tab(Message(-1, 8779, (10, -1)))), Tab("else")]
    + (if exchange > 0 then [Tab(Tab(RunExchange(exchange)))] else [])
    + [Tab(Tab(SaveLine(save))), Tab("end")]
  }

  function TalkOrDefault(quest: I32, talk: I32): (r: string)
    ensures Plain(r)
  {
    if talk > 0 then Message(quest, talk, (10, -1)) else Message(-1, 331, (10, -1))
  }

  /** The lines between the header and the `end` of a handler. */
  function BodyLines(h: HandlerType, tbl: Tables): (r: seq<string>)
    ensures AllPlain(r)
  {
    hide SaveLine, Dialog, Message, MonsterCheck, ItemCheck, Completing, TalkOrDefault, MapLine, SearchLine, Tab, Plain;
    match h
    case IntroAccept(save) => [Tab(SaveLine(save))]
    case QuestOffer(quest, talk, menu, accept) =>
      [Tab(Dialog(quest, talk, (if menu > 0 then menu else 22, accept), (23, -1)))]
    case QuestAccept(save) => [Tab(SaveLine(save))]
    case ProgressCheck(quest, talk, exchange, hasMonster, complete, incomplete) =>
      if hasMonster then MonsterCheck(quest, talk, complete, incomplete)
      else if exchange > 0 && exchange in tbl.originItems then
        var items := tbl.originItems[exchange];
        if items != [] then ItemCheck(items[0], quest, talk, complete, incomplete)
        else [Tab(Dialog(quest, talk, (41, complete), (27, -1)))]
      else [Tab(Message(quest, talk, (10, -1)))]
    case QuestComplete(quest, exchange, save) => Completing(quest, exchange, save)
    case CompletionConfirm(quest, exchange, save) => Completing(quest, exchange, save)
    case SubStep(quest, talk) => [Tab(TalkOrDefault(quest, talk))]
    case QuestDone(quest, talk) => [Tab(TalkOrDefault(quest, talk))]
    case ShowMap(zone) => [Tab(MapLine(zone))]
    case SearchQuestDispatch(npc) => [Tab(SearchLine(npc))]
  }

  /** `generate_handler`, as the lines it writes. */
  function HandlerLines(m: MissingHandler, tbl: Tables): seq<string>
  {
    [Comment(m), HeaderLine(m.eventId)] + BodyLines(m.handler, tbl) + ["end"]
  }

  // ------------------------------------------------------------------- a file's block

  /** The rule above and below the title. */
  function Sep(): (r: string)
    ensures Plain(r) && r != "" && r[0] == '-'
  {
    "-- " + seq(67, _ => '\U{2550}')
  }

  function Title(): (r: string)
    ensures NoNewline(r)
  {
    "AUTO-GENERATED EVENT HANDLERS"
  }

  function TitleLine(): (r: string)
    ensures NoNewline(r) && r != "" && r[0] == '-'
  {
    hide Title;
    "-- " + Title() + " (ko-quest-gen)"
  }

  function Banner(): seq<string> { ["", Sep(), TitleLine(), Sep(), ""] }

  predicate ById(a: MissingHandler, b: MissingHandler) { a.eventId <= b.eventId }

  function Ids(ms: seq<MissingHandler>): seq<int> { seq(|ms|, i requires 0 <= i < |ms| => ms[i].eventId) }

  function IdSet(ms: seq<MissingHandler>): set<int> { set m | m in ms :: m.eventId }

  lemma IdsAppend(ms: seq<MissingHandler>, m: MissingHandler)
    ensures IdSet(ms + [m]) == IdSet(ms) + {m.eventId}
  {
    assert m in ms + [m];
  }

  /** The handlers, without those whose event came earlier. */
  function Dedup(ms: seq<MissingHandler>): (r: seq<MissingHandler>)
    ensures IdSet(r) == IdSet(ms)
  {
    if ms == [] then [] else
      var front, last := ms[..|ms| - 1], ms[|ms| - 1];
      IdsAppend(front, last);
      IdsAppend(Dedup(front), last);
      assert ms == front + [last];
      if last.eventId in IdSet(front) then Dedup(front) else Dedup(front) + [last]
  }

  /** The handlers of a file that are printed. */
  function Kept(ms: seq<MissingHandler>): seq<MissingHandler> { Dedup(StableSort(ById, ms)) }

  function HandlersLines(ms: seq<MissingHandler>, tbl: Tables): seq<string>
  {
    if ms == [] then [] else
      HandlersLines(ms[..|ms| - 1], tbl) + (HandlerLines(ms[|ms| - 1], tbl) + [""])
  }

  function BlockLines(ms: seq<MissingHandler>, tbl: Tables): seq<string> { Banner() + HandlersLines(Kept(ms), tbl) }

  /** The generated code of one file. */
  function Code(ms: seq<MissingHandler>, tbl: Tables): string { Written(BlockLines(ms, tbl)) }

  method Writeln(code: string, line: string, ghost before: seq<string>) returns (r: string)
    requires code == Written(before)
    ensures r == Written(before + [line])
  {
    WrittenAppend(before, [line]);
    assert [line][1..] == [];
    r := code + (line + "\n");
  }

  method GenerateBlock(ms: seq<MissingHandler>, tbl: Tables) returns (code: string)
    ensures code == Code(ms, tbl)
  {
    hide Written, HandlerLines, StableSort, Dedup, Sep, TitleLine;
    code := WriteBanner();
    var sorted := StableSort(ById, ms);
    var seenEvents: set<int> := {};
    Empties();
    assert Banner() + [] == Banner();
    for i := 0 to |sorted|
      invariant seenEvents == IdSet(sorted[..i])
      invariant code == Written(Banner() + HandlersLines(Dedup(sorted[..i]), tbl))
    {
      DedupStep(sorted, i);
      if sorted[i].eventId !in seenEvents {
        ghost var others := HandlersLines(Dedup(sorted[..i]), tbl);
        ghost var before := Banner() + others;
        ghost var own := HandlerLines(sorted[i], tbl);
        var handlerCode := Written(HandlerLines(sorted[i], tbl));
        WrittenAppend(before, own);
        code := Writeln(code + handlerCode, "", before + own);
        RegroupFour(Banner(), others, own, [""]);
        HandlersSnoc(Dedup(sorted[..i]), sorted[i], tbl);
      }
      seenEvents := seenEvents + {sorted[i].eventId};
    }
    assert sorted[..|sorted|] == sorted;
  }

  method WriteBanner() returns (code: string)
    ensures code == Written(Banner())
  {
    ghost var lines: seq<string> := [];
    assert Written(lines) == "";
    hide Written, Sep, TitleLine;
    code := Writeln("", "", lines);
    lines := lines + [""];
    code := Writeln(code, Sep(), lines);
    lines := lines + [Sep()];
    code := Writeln(code, TitleLine(), lines);
    lines := lines + [TitleLine()];
    code := Writeln(code, Sep(), lines);
    lines := lines + [Sep()];
    code := Writeln(code, "", lines);
    assert lines + [""] == Banner();
  }

  lemma HandlersSnoc(ms: seq<MissingHandler>, m: MissingHandler, tbl: Tables)
    ensures HandlersLines(ms + [m], tbl) == HandlersLines(ms, tbl) + (HandlerLines(m, tbl) + [""])
  {
    hide HandlerLines;
    assert (ms + [m])[..|ms|] == ms;
  }

  lemma DedupStep(ms: seq<MissingHandler>, i: nat)
    requires i < |ms|
    ensures IdSet(ms[..i + 1]) == IdSet(ms[..i]) + {ms[i].eventId}
    ensures Dedup(ms[..i + 1]) == if ms[i].eventId in IdSet(ms[..i]) then Dedup(ms[..i]) else Dedup(ms[..i]) + [ms[i]]
  {
    var to := ms[..i + 1];
    assert to[..i] == ms[..i] && to[i] == ms[i];
    assert to == ms[..i] + [ms[i]];
  }

  // -------------------------------------------------------------------- all files

  /** The handlers of one file, in order. */
  function For(ms: seq<MissingHandler>, f: string): seq<MissingHandler>
  {
    if ms == [] then [] else
      For(ms[..|ms| - 1], f) + (if ms[|ms| - 1].luaFile == f then [ms[|ms| - 1]] else [])
  }

  function FilesOf(ms: seq<MissingHandler>): set<string> { set m | m in ms :: m.luaFile }

  function Generated(ms: seq<MissingHandler>, tbl: Tables): map<string, string>
  {
    map f | f in FilesOf(ms) :: Code(For(ms, f), tbl)
  }

  ghost predicate GroupedByFile(ms: seq<MissingHandler>, byFile: map<string, seq<MissingHandler>>)
  {
    && byFile.Keys == FilesOf(ms)
    && forall f :: For(ms, f) == if f in byFile then byFile[f] else []
  }

  lemma OneMoreGrouped(ms: seq<MissingHandler>, byFile: map<string, seq<MissingHandler>>, h: MissingHandler)
    requires GroupedByFile(ms, byFile)
    ensures var already := if h.luaFile in byFile then byFile[h.luaFile] else [];
      GroupedByFile(ms + [h], byFile[h.luaFile := already + [h]])
  {
    hide FilesOf;
    FilesSnoc(ms, h);
    assert (ms + [h])[..|ms|] == ms;
  }

  lemma FilesSnoc(ms: seq<MissingHandler>, m: MissingHandler)
    ensures FilesOf(ms + [m]) == FilesOf(ms) + {m.luaFile}
  {
    assert m in ms + [m];
  }

  method GroupByFile(handlers: seq<MissingHandler>) returns (byFile: map<string, seq<MissingHandler>>)
    ensures GroupedByFile(handlers, byFile)
  {
    byFile := map[];
    assert GroupedByFile(handlers[..0], byFile);
    hide For, FilesOf, GroupedByFile;
    for i := 0 to |handlers|
      invariant GroupedByFile(handlers[..i], byFile)
    {
      var h := handlers[i];
      OneMoreGrouped(handlers[..i], byFile, h);
      assert handlers[..i + 1] == handlers[..i] + [h];
      var already := if h.luaFile in byFile then byFile[h.luaFile] else [];
      byFile := byFile[h.luaFile := already + [h]];
    }
    assert handlers[..|handlers|] == handlers;
  }

  /** `generate_all`. */
  method GenerateAll(handlers: seq<MissingHandler>, tbl: Tables) returns (result: map<string, string>)
    ensures result == Generated(handlers, tbl)
  {
    hide Code, For, FilesOf;
    var byFile := GroupByFile(handlers);
    result := map[];
    var left := byFile.Keys;
    while left != {}
      invariant left <= byFile.Keys && result.Keys == byFile.Keys - left
      invariant forall f :: f in result ==> result[f] == Code(For(handlers, f), tbl)
    {
      var filename :| filename in left;
      var code := GenerateBlock(byFile[filename], tbl);
      result := result[filename := code];
      left := left - {filename};
    }
  }

  // ------------------------------------------------------- the lines of the block

  lemma BannerOpensNothing()
    ensures forall l :: l in Banner() ==> NoNewline(l) && EventOf(l).None?
  {
    hide EventOf, Title, Sep, TitleLine;
    NoKeyword("");
    OtherStart(Sep());
    OtherStart(TitleLine());
  }

  lemma HandlerOpens(m: MissingHandler, tbl: Tables)
    ensures forall l :: l in HandlerLines(m, tbl) ==> NoNewline(l)
    ensures Opened(HandlerLines(m, tbl) + [""]) == [m.eventId]
  {
    hide EventOf, Comment, BodyLines, HeaderLine;
    var body := BodyLines(m.handler, tbl) + ["end", ""];
    assert Plain("") && Plain("end");
    assert AllPlain(body);
    HeaderNoNewline(m.eventId);
    NoKeyword(Comment(m));
    HeaderParsed(m.eventId);
    PlainOpensNothing(body);
    var lines := HandlerLines(m, tbl) + [""];
    assert lines == [Comment(m)] + ([HeaderLine(m.eventId)] + body);
    OpenedAppend([Comment(m)], [HeaderLine(m.eventId)] + body);
    OpenedAppend([HeaderLine(m.eventId)], body);
  }

  lemma HeaderNoNewline(e: int)
    ensures NoNewline(HeaderLine(e))
  {
    hide Decimal;
    DecimalChars(e);
    var start, end := "if (EVENT == ", ") then";
    assert NoNewline(start) && NoNewline(end);
    assert HeaderLine(e) == start + Decimal(e) + end;
  }

  function OpenedBy(line: string): seq<int> { match EventOf(line) case None => [] case Some(e) => [e] }

  /** The events that lines open, in order. */
  function Opened(lines: seq<string>): seq<int>
  {
    if lines == [] then [] else OpenedBy(lines[0]) + Opened(lines[1..])
  }

  lemma {:induction false} OpenedAppend(a: seq<string>, b: seq<string>)
    ensures Opened(a + b) == Opened(a) + Opened(b)
  {
    hide OpenedBy;
    if a == [] {
      assert a + b == b;
    } else {
      OpenedAppend(a[1..], b);
      assert (a + b)[1..] == a[1..] + b && (a + b)[0] == a[0];
      Regroup(OpenedBy(a[0]), Opened(a[1..]), Opened(b));
    }
  }

  lemma {:induction false} PlainOpensNothing(lines: seq<string>)
    requires AllPlain(lines)
    ensures Opened(lines) == []
  {
    hide EventOf;
    if lines != [] {
      assert Plain(lines[0]);
      NoKeyword(lines[0]);
      PlainOpensNothing(lines[1..]);
    }
  }

  /** The opened events, as the scanner's set. */
  lemma {:induction false} OpenedIsEvents(lines: seq<string>)
    ensures forall e :: e in Opened(lines) <==> e in EventsIn(lines)
  {
    hide EventOf;
    if lines != [] {
      OpenedIsEvents(lines[1..]);
      assert lines == [lines[0]] + lines[1..];
      EventsAppend(EventOf, [lines[0]], lines[1..]);
      assert forall e :: e in EventsIn([lines[0]]) <==> EventOf(lines[0]) == Some(e) by {
        assert [lines[0]][0] == lines[0];
      }
    }
  }

  lemma IdsSnoc(ms: seq<MissingHandler>, m: MissingHandler)
    ensures Ids(ms + [m]) == Ids(ms) + [m.eventId]
  {
  }

  lemma Empties()
    ensures Dedup([]) == [] && Ids([]) == [] && Opened([]) == [] && NoNewline("")
  {
  }

  lemma {:induction false} HandlersOpen(ms: seq<MissingHandler>, tbl: Tables)
    ensures Opened(HandlersLines(ms, tbl)) == Ids(ms)
    ensures forall l :: l in HandlersLines(ms, tbl) ==> NoNewline(l)
  {
    hide Opened, HandlerLines, NoNewline, Ids;
    Empties();
    if ms != [] {
      var front, last := ms[..|ms| - 1], ms[|ms| - 1];
      HandlersOpen(front, tbl);
      HandlerOpens(last, tbl);
      OpenedAppend(HandlersLines(front, tbl), HandlerLines(last, tbl) + [""]);
      IdsSnoc(front, last);
      assert ms == front + [last];
    }
  }

  /** The generated lines, read back: they open the kept events, in order, and nothing else. */
  lemma BlockOpens(ms: seq<MissingHandler>, tbl: Tables)
    ensures Lines(Code(ms, tbl)) == BlockLines(ms, tbl)
    ensures Opened(Lines(Code(ms, tbl))) == Ids(Kept(ms))
  {
    hide Opened, HandlersLines, NoNewline, Banner, Kept, Lines, Written;
    BannerOpensNothing();
    NothingOpened(Banner());
    HandlersOpen(Kept(ms), tbl);
    OpenedAppend(Banner(), HandlersLines(Kept(ms), tbl));
    LinesOfWritten(BlockLines(ms, tbl));
  }

  lemma {:induction false} NothingOpened(lines: seq<string>)
    requires forall l :: l in lines ==> EventOf(l).None?
    ensures Opened(lines) == []
  {
    hide EventOf;
    if lines != [] {
      NothingOpened(lines[1..]);
    }
  }

  // ---------------------------------------------------------- one handler an event

  /** The first handler asked for an event. */
  function First(ms: seq<MissingHandler>, e: int): Option<MissingHandler>
  {
    if ms == [] then None else
      var front, last := First(ms[..|ms| - 1], e), ms[|ms| - 1];
      if front.Some? then front else if last.eventId == e then Some(last) else None
  }

  ghost predicate Ascending(s: seq<int>) { forall i, j :: 0 <= i < j < |s| ==> s[i] < s[j] }

  lemma {:induction false} FirstExactly(ms: seq<MissingHandler>, e: int)
    ensures First(ms, e).Some? <==> e in IdSet(ms)
    ensures First(ms, e).Some? ==> First(ms, e).value in ms && First(ms, e).value.eventId == e
  {
    if ms != [] {
      var front, last := ms[..|ms| - 1], ms[|ms| - 1];
      FirstExactly(front, e);
      IdsAppend(front, last);
      assert ms == front + [last];
    }
  }

  /** The first handler of an event is the first of those equal to it in the sorting order. */
  lemma {:induction false} FirstIsFirstEqual(ms: seq<MissingHandler>, k: MissingHandler)
    ensures First(ms, k.eventId) == (var eq := EqualTo(ById, k, ms); if eq == [] then None else Some(eq[0]))
  {
    if ms != [] {
      FirstIsFirstEqual(ms[..|ms| - 1], k);
    }
  }

  lemma {:induction false} DedupFirst(ms: seq<MissingHandler>)
    ensures forall m :: m in Dedup(ms) ==> First(ms, m.eventId) == Some(m)
  {
    if ms != [] {
      var front, last := ms[..|ms| - 1], ms[|ms| - 1];
      DedupFirst(front);
      FirstExactly(front, last.eventId);
    }
  }

  lemma IdsAreSet(ms: seq<MissingHandler>)
    ensures forall e :: e in Ids(ms) <==> e in IdSet(ms)
  {
    forall e | e in IdSet(ms)
      ensures e in Ids(ms)
    {
      var m :| m in ms && m.eventId == e;
      var i :| 0 <= i < |ms| && ms[i] == m;
      assert Ids(ms)[i] == e;
    }
  }

  lemma BelowLast(ms: seq<MissingHandler>, e: int)
    requires SortedBy(ById, ms) && ms != [] && e in IdSet(ms[..|ms| - 1])
    ensures e <= ms[|ms| - 1].eventId
  {
    var front := ms[..|ms| - 1];
    var x :| x in front && x.eventId == e;
    var i :| 0 <= i < |front| && front[i] == x;
    assert ById(ms[i], ms[|ms| - 1]);
  }

  lemma AscendingMore(s: seq<int>, e: int)
    requires Ascending(s) && forall x :: x in s ==> x < e
    ensures Ascending(s + [e])
  {
    assert forall i :: 0 <= i < |s| ==> s[i] in s;
  }

  lemma {:induction false} DedupAscending(ms: seq<MissingHandler>)
    requires SortedBy(ById, ms)
    ensures Ascending(Ids(Dedup(ms)))
  {
    assert ms == [] ==> Ids(Dedup(ms)) == [];
    hide Ids, IdSet;
    if ms != [] {
      var front, last := ms[..|ms| - 1], ms[|ms| - 1];
      DedupAscending(front);
      if last.eventId !in IdSet(front) {
        forall e | e in Ids(Dedup(front))
          ensures e < last.eventId
        {
          IdsAreSet(Dedup(front));
          BelowLast(ms, e);
        }
        AscendingMore(Ids(Dedup(front)), last.eventId);
        IdsSnoc(Dedup(front), last);
      }
    }
  }

  /** The block has one handler for each event asked for, by ascending event, and it is the
    * first that was asked for. */
  lemma OneHandlerPerEvent(ms: seq<MissingHandler>)
    ensures Ascending(Ids(Kept(ms)))
    ensures IdSet(Kept(ms)) == IdSet(ms)
    ensures forall m :: m in Kept(ms) ==> First(ms, m.eventId) == Some(m)
  {
    assert TotalPreorder(ById);
    var sorted := StableSort(ById, ms);
    StableSortCorrect(ById, ms);
    DedupAscending(sorted);
    DedupFirst(sorted);
    forall m | m in Kept(ms)
      ensures First(ms, m.eventId) == Some(m)
    {
      FirstIsFirstEqual(ms, m);
      FirstIsFirstEqual(sorted, m);
    }
    SameIds(ms);
  }

  lemma SameIds(ms: seq<MissingHandler>)
    ensures IdSet(StableSort(ById, ms)) == IdSet(ms)
  {
    assert TotalPreorder(ById);
    forall m
      ensures m in StableSort(ById, ms) <==> m in ms
    {
      SameElements(ById, ms, m);
    }
  }
}
