/** The generated handlers, read back by the scanner that reads every quest script. */
module QuestReadback {
  import opened LuaCalls
  import opened LuaParser
  import opened QuestAnalyzer
  import opened QuestFiles
  import opened QuestGenerator
  import opened Sequences
  import opened Sorting
  import opened Text
  import opened Wrappers

  // ------------------------------------------------------------------ reading one line

  /** What a line of a handler says, as far as the scanner's readers can tell: a call it keeps, another
    * call with a number, a branch, or any other text. */
  datatype Statement =
    | Shows(msg: SelectMsg)
    | Exchanges(id: I32)
    | Saves(event: I32)
    | Asks(name: string, number: I32)
    | If(condition: string)
    | Else
    | End
    | Nothing
    | Other(text: string)

  const ASKING: seq<string> := ["GetQuestStatus", "HowmuchItem", "ShowMap", "SearchQuest"]

  function AskedAmong(t: string, names: seq<string>): Statement
  {
    if names == [] then Other(t)
    else
      match SecondInt(t, names[0])
      case Some(n) => Asks(names[0], n)
      case None => AskedAmong(t, names[1..])
  }

  function ReadTrimmed(t: string): Statement
  {
    var calls := TrimmedCalls(t);
    if t == "" || StartsWith(t, "--") then Nothing
    else if calls.selects != [] then Shows(calls.selects[0])
    else if calls.exchanges != [] then Exchanges(calls.exchanges[0])
    else if calls.saves != [] then Saves(calls.saves[0])
    else ReadOther(t)
  }

  function ReadOther(t: string): Statement
  {
    if StartsWith(t, "if") then If(t)
    else if t == "else" then Else
    else if t == "end" then End
    else AskedAmong(t, ASKING)
  }

  function ReadLine(line: string): Statement { ReadTrimmed(Trim(line)) }

  function ReadAll(lines: seq<string>): (r: seq<Statement>)
    ensures |r| == |lines|
  {
    seq(|lines|, i requires 0 <= i < |lines| => ReadLine(lines[i]))
  }

  /** The calls the scanner keeps of a statement, and of several. */
  function CallsOf(s: Statement): Calls
  {
    match s
    case Shows(msg) => Calls([msg], [], [])
    case Exchanges(id) => Calls([], [id], [])
    case Saves(event) => Calls([], [], [event])
    case _ => Calls([], [], [])
  }

  function CallsOfAll(stmts: seq<Statement>): Calls
  {
    if stmts == [] then Calls([], [], []) else Both(CallsOfAll(stmts[..|stmts| - 1]), CallsOf(stmts[|stmts| - 1]))
  }

  // ------------------------------------------------------------- what a handler should say

  function Choice(quest: I32, header: I32, text: I32, event: I32, decline: I32): Statement
  {
    Shows(SelectMsg(4, quest, header, 0, [(text, event), (decline, -1)]))
  }

  function Tells(quest: I32, header: I32, text: I32, event: I32): Statement
  {
    Shows(SelectMsg(2, quest, header, 0, [(text, event)]))
  }

  /** A task already done is only told of; otherwise the exchange is run, if there is one, and the
    * progress saved. */
  function Completed(quest: I32, exchange: I32, save: I32): seq<Statement>
  {
    [Asks("GetQuestStatus", quest), If("if(QuestStatusCheck == 2) then"), Tells(-1, 8779, 10, -1), Else]
    + (if exchange > 0 then [Exchanges(exchange)] else [])
    + [Saves(save), End]
  }

  /** What the handler of each type says. */
  function Meaning(h: HandlerType, tbl: Tables): seq<Statement>
  {
    match h
    case IntroAccept(save) => [Saves(save)]
    case QuestOffer(quest, talk, menu, accept) => [Choice(quest, talk, if menu > 0 then menu else 22, accept, 23)]
    case QuestAccept(save) => [Saves(save)]
    case ProgressCheck(quest, talk, exchange, hasMonster, complete, incomplete) =>
      if hasMonster then
        [ Other("MonsterSub = ExistMonsterQuestSub(UID);"), If("if (MonsterSub == 0) then"),
          Choice(quest, talk, 22, complete, 23), Else, Tells(quest, talk, 18, incomplete), End ]
      else if exchange <= 0 || exchange !in tbl.originItems then [Tells(quest, talk, 10, -1)]
      else if tbl.originItems[exchange] == [] then [Choice(quest, talk, 41, complete, 27)]
      else
        var (item, count) := tbl.originItems[exchange][0];
        [ Asks("HowmuchItem", item), If("if (ItemA < " + (Decimal(count) + ") then")),
          Tells(quest, talk, 18, incomplete), Else, Choice(quest, talk, 41, complete, 27), End ]
    case QuestComplete(quest, exchange, save) => Completed(quest, exchange, save)
    case CompletionConfirm(quest, exchange, save) => Completed(quest, exchange, save)
    case SubStep(quest, talk) => [if talk > 0 then Tells(quest, talk, 10, -1) else Tells(-1, 331, 10, -1)]
    case QuestDone(quest, talk) => [if talk > 0 then Tells(quest, talk, 10, -1) else Tells(-1, 331, 10, -1)]
    case ShowMap(zone) => [Asks("ShowMap", zone)]
    case SearchQuestDispatch(npc) => [Asks("SearchQuest", npc)]
  }

  // -------------------------------------------------------------- each printed line is read

  /** The line is read as the statement, and the scanner keeps its calls and no others. */
  predicate Reads(line: string, s: Statement) { ReadLine(line) == s && TrimmedCalls(Trim(line)) == CallsOf(s) }

  predicate Bounded(t: string) { t != "" && !IsWhite(t[0]) && !IsWhite(t[|t| - 1]) }

  /** How a text is read, and that it can be indented. */
  predicate Means(t: string, s: Statement) { Bounded(t) && ReadTrimmed(t) == s && TrimmedCalls(t) == CallsOf(s) }

  lemma TabTrimmed(t: string)
    requires Bounded(t)
    ensures Trim(t) == t && Trim(Tab(t)) == t && Trim(Tab(Tab(t))) == t
  {
    TrimmedAlready(t);
    var a, b := Tab(t), Tab(Tab(t));
    assert a[0] == '\t' && a[1..] == t && b[0] == '\t' && b[1..] == a;
    assert TrimStart(t) == t;
    assert TrimStart(a) == TrimStart(t);
    assert TrimStart(b) == TrimStart(a);
  }

  /** A text that reads the same wherever it stands in a handler. */
  lemma ReadsIndented(t: string, s: Statement)
    requires Means(t, s)
    ensures Reads(t, s) && Reads(Tab(t), s) && Reads(Tab(Tab(t)), s)
  {
    hide Trim, ReadTrimmed, TrimmedCalls, Tab;
    TabTrimmed(t);
  }

  /** No name of a call that the scanner keeps ends here. */
  predicate Unlike(before: string)
  {
    && !EndsWith(before, "SelectMsg") && !EndsWith(before, "SaveEvent")
    && !EndsWith(before, "RunQuestExchange") && !EndsWith(before, "RunCountExchange")
    && !EndsWith(before, "RunRandomExchange") && !EndsWith(before, "CheckExchange")
  }

  lemma UnlikeEnd(before: string)
    requires before != "" && before[|before| - 1] !in {'g', 'e', 't'}
    ensures Unlike(before)
  {
    EndLetter(before, "SelectMsg");
    EndLetter(before, "SaveEvent");
    EndLetter(before, "RunQuestExchange");
    EndLetter(before, "RunCountExchange");
    EndLetter(before, "RunRandomExchange");
    EndLetter(before, "CheckExchange");
  }

  lemma EndLetter(before: string, name: string)
    requires before != "" && name != ""
    ensures EndsWith(before, name) ==> before[|before| - 1] == name[|name| - 1]
  {
    if EndsWith(before, name) {
      assert before[|before| - |name|..][|name| - 1] == before[|before| - 1];
    }
  }

  lemma NoExchange(t: string)
    requires Find(t, "RunQuestExchange" + "(").None? && Find(t, "RunCountExchange" + "(").None?
    requires Find(t, "RunRandomExchange" + "(").None? && Find(t, "CheckExchange" + "(").None?
    ensures ParseExchange(t).None?
  {
    hide Find, SecondInt, CallArgs;
    NextExchange(t, "CheckExchange", []);
    NextExchange(t, "RunRandomExchange", ["CheckExchange"]);
    NextExchange(t, "RunCountExchange", ["RunRandomExchange", "CheckExchange"]);
    NextExchange(t, "RunQuestExchange", ["RunCountExchange", "RunRandomExchange", "CheckExchange"]);
  }

  lemma NextExchange(t: string, name: string, names: seq<string>)
    ensures Find(t, name + "(").None? ==> ExchangeAmong(t, [name] + names) == ExchangeAmong(t, names)
    ensures SecondInt(t, name).Some? ==> ExchangeAmong(t, [name] + names) == SecondInt(t, name)
    ensures ExchangeAmong(t, []) == None
  {
    hide Find;
    assert ([name] + names)[1..] == names;
  }

  /** No call that is kept where the one parenthesis opens behind something else. */
  lemma NoneKept(before: string, after: string)
    requires '(' !in before && '(' !in after && Unlike(before)
    ensures var t := before + ("(" + after);
      ParseSelectMsg(t).None? && ParseExchange(t).None? && ParseSaveEvent(t).None?
  {
    hide Find, EndsWith;
    OtherCall(before, after, "SelectMsg");
    OtherCall(before, after, "SaveEvent");
    OtherCall(before, after, "RunQuestExchange");
    OtherCall(before, after, "RunCountExchange");
    OtherCall(before, after, "RunRandomExchange");
    OtherCall(before, after, "CheckExchange");
    NoExchange(before + ("(" + after));
  }

  lemma NoneKeptPlain(t: string)
    requires '(' !in t
    ensures ParseSelectMsg(t).None? && ParseExchange(t).None? && ParseSaveEvent(t).None?
  {
    hide Find;
    NoParenthesis(t, "SelectMsg");
    NoParenthesis(t, "SaveEvent");
    NoParenthesis(t, "RunQuestExchange");
    NoParenthesis(t, "RunCountExchange");
    NoParenthesis(t, "RunRandomExchange");
    NoParenthesis(t, "CheckExchange");
    NoExchange(t);
  }

  // ---------------------------------------------------------------------- numbers

  lemma DecimalAtom(n: int)
    ensures Atom(Decimal(n)) && '(' !in Decimal(n)
  {
    hide Decimal;
    DecimalChars(n);
  }

  lemma IntArgRead(n: I32)
    ensures ParseIntArg(Decimal(n)) == Some(n)
  {
    hide Decimal, ParseI32, Trim;
    DecimalAtom(n);
    AtomTrimmed(Decimal(n));
    DecimalChars(n);
    assert Decimal(n)[0] in Decimal(n);
    IntRoundTrip(n);
  }

  lemma NumberArgs(n: int)
    ensures Atoms(["UID", Decimal(n)])
  {
    hide Decimal;
    DecimalAtom(n);
    assert Atom("UID");
  }

  /** A call with a number, behind anything its name cannot be taken for. */
  lemma NumberRead(before: string, name: string, n: I32, after: string)
    requires name != "" && name[0] !in before
    ensures SecondInt(before + (NumberCall(name, n) + after), name) == Some(n)
  {
    hide Decimal, CallArgs, ParseIntArg, Call, Atoms;
    NumberArgs(n);
    CallRead(before, name, ["UID", Decimal(n)], after);
    IntArgRead(n);
  }

  /** Such a call, as its name, one parenthesis and the rest. */
  lemma NumberParts(before: string, name: string, n: int, after: string)
    requires '(' !in after
    ensures var rest := Joined(["UID", Decimal(n)]) + ")" + after;
      '(' !in rest && before + (NumberCall(name, n) + after) == (before + name) + ("(" + rest)
  {
    hide Decimal, Joined;
    NumberArgs(n);
    JoinedChars(["UID", Decimal(n)]);
  }

  /** The name that stands before the parenthesis ends with another letter. */
  lemma OtherLetter(before: string, after: string, name: string)
    requires '(' !in before && '(' !in after && before != "" && name != ""
    requires before[|before| - 1] != name[|name| - 1]
    ensures Find(before + ("(" + after), name + "(").None?
  {
    hide Find, EndsWith;
    EndLetter(before, name);
    OtherCall(before, after, name);
  }

  // ---------------------------------------------------------------- the three kept calls

  lemma KeptMeans(t: string, s: Statement)
    requires Bounded(t) && !StartsWith(t, "--") && (s.Shows? || s.Exchanges? || s.Saves?)
    requires Calls(Listed(ParseSelectMsg(t)), Listed(ParseExchange(t)), Listed(ParseSaveEvent(t))) == CallsOf(s)
    ensures Means(t, s)
  {
    hide ParseSelectMsg, ParseExchange, ParseSaveEvent;
  }

  lemma ExchangesNone(before: string, after: string)
    requires '(' !in before && '(' !in after && before != "" && before[|before| - 1] != 'e'
    ensures ParseExchange(before + ("(" + after)).None?
  {
    hide Find;
    OtherLetter(before, after, "RunQuestExchange");
    OtherLetter(before, after, "RunCountExchange");
    OtherLetter(before, after, "RunRandomExchange");
    OtherLetter(before, after, "CheckExchange");
    NoExchange(before + ("(" + after));
  }

  lemma CallBounded(name: string, args: seq<string>)
    requires name != "" && !IsWhite(name[0]) && name[0] != '-'
    ensures var t := Call(name, args) + ";"; Bounded(t) && !StartsWith(t, "--")
  {
    hide Joined;
    var t := Call(name, args) + ";";
    assert t[0] == name[0] && t[|t| - 1] == ';';
  }

  lemma SaveMeans(save: I32)
    ensures Means(SaveLine(save), Saves(save))
  {
    hide Find, Decimal, SecondInt, ExchangeAmong, Joined;
    var t := SaveLine(save);
    assert t == "" + (NumberCall("SaveEvent", save) + ";");
    NumberRead("", "SaveEvent", save, ";");
    NumberParts("", "SaveEvent", save, ";");
    var rest := Joined(["UID", Decimal(save)]) + ")" + ";";
    assert t == "SaveEvent" + ("(" + rest);
    OtherLetter("SaveEvent", rest, "SelectMsg");
    ExchangesNone("SaveEvent", rest);
    CallBounded("SaveEvent", ["UID", Decimal(save)]);
    KeptMeans(t, Saves(save));
  }

  lemma ExchangeRead(id: I32)
    ensures ParseExchange(RunExchange(id)) == Some(id)
  {
    hide Find, Decimal, SecondInt, ExchangeAmong;
    var t := RunExchange(id);
    assert t == "" + (NumberCall("RunQuestExchange", id) + ";");
    NumberRead("", "RunQuestExchange", id, ";");
    var others := ["RunCountExchange", "RunRandomExchange", "CheckExchange"];
    NextExchange(t, "RunQuestExchange", others);
    assert ["RunQuestExchange"] + others
      == ["RunQuestExchange", "RunCountExchange", "RunRandomExchange", "CheckExchange"];
  }

  lemma ExchangeMeans(id: I32)
    ensures Means(RunExchange(id), Exchanges(id))
  {
    hide Find, Decimal, SecondInt, Joined, ParseExchange;
    var t := RunExchange(id);
    assert t == "" + (NumberCall("RunQuestExchange", id) + ";");
    ExchangeRead(id);
    NumberParts("", "RunQuestExchange", id, ";");
    var rest := Joined(["UID", Decimal(id)]) + ")" + ";";
    assert t == "RunQuestExchange" + ("(" + rest);
    OtherLetter("RunQuestExchange", rest, "SelectMsg");
    OtherLetter("RunQuestExchange", rest, "SaveEvent");
    NoSave(t);
    CallBounded("RunQuestExchange", ["UID", Decimal(id)]);
    KeptMeans(t, Exchanges(id));
  }

  lemma NoSave(t: string)
    requires Find(t, "SaveEvent" + "(").None?
    ensures ParseSaveEvent(t).None?
  {
    hide Find;
  }

  lemma {:induction false} ButtonsRead(buttons: seq<Button>)
    ensures ButtonsOf(ButtonArgs(buttons)) == buttons
  {
    hide Decimal, ParseIntArg;
    if buttons != [] {
      var b, rest := buttons[0], ButtonArgs(buttons[1..]);
      IntArgRead(b.0);
      IntArgRead(b.1);
      ButtonsRead(buttons[1..]);
      var args := [Decimal(b.0), Decimal(b.1)] + rest;
      assert args[2..] == rest && buttons == [b] + buttons[1..];
    }
  }

  lemma {:induction false} ButtonAtoms(buttons: seq<Button>)
    ensures forall a :: a in ButtonArgs(buttons) ==> Atom(a)
  {
    hide Decimal, Atom;
    if buttons != [] {
      DecimalAtom(buttons[0].0);
      DecimalAtom(buttons[0].1);
      ButtonAtoms(buttons[1..]);
    }
  }

  lemma SelectAtoms(flag: I32, quest: I32, header: I32, buttons: seq<Button>)
    ensures Atoms(SelectArgs(flag, quest, header, buttons))
  {
    hide Decimal;
    DecimalAtom(flag);
    DecimalAtom(quest);
    DecimalAtom(header);
    ButtonAtoms(buttons);
    assert Atom("UID") && Atom("NPC");
  }

  lemma NpcIsNoNumber()
    ensures ParseIntArg("NPC") == None
  {
    TrimmedAlready("NPC");
    assert 'N' in "NPC" && !IsDigit('N');
  }

  lemma SelectRead(flag: I32, quest: I32, header: I32, buttons: seq<Button>)
    ensures ParseSelectMsg(SelectLine(flag, quest, header, buttons)) == Some(SelectMsg(flag, quest, header, 0, buttons))
  {
    hide Decimal, CallArgs, ParseIntArg, Atoms, Call, ButtonArgs;
    var args := SelectArgs(flag, quest, header, buttons);
    SelectAtoms(flag, quest, header, buttons);
    CallRead("", "SelectMsg", args, ";");
    assert "" + (Call("SelectMsg", args) + ";") == SelectLine(flag, quest, header, buttons);
    IntArgRead(flag);
    IntArgRead(quest);
    IntArgRead(header);
    NpcIsNoNumber();
    ButtonsRead(buttons);
    assert args[5..] == ButtonArgs(buttons);
  }

  lemma SelectMeans(flag: I32, quest: I32, header: I32, buttons: seq<Button>)
    ensures Means(SelectLine(flag, quest, header, buttons), Shows(SelectMsg(flag, quest, header, 0, buttons)))
  {
    hide Find, ParseSelectMsg, SecondInt, ExchangeAmong, Joined, SelectArgs, Atom;
    var t, args := SelectLine(flag, quest, header, buttons), SelectArgs(flag, quest, header, buttons);
    SelectRead(flag, quest, header, buttons);
    SelectAtoms(flag, quest, header, buttons);
    JoinedChars(args);
    var rest := Joined(args) + ");";
    assert t == "SelectMsg" + ("(" + rest);
    OtherLetter("SelectMsg", rest, "SaveEvent");
    NoSave(t);
    ExchangesNone("SelectMsg", rest);
    CallBounded("SelectMsg", args);
    KeptMeans(t, Shows(SelectMsg(flag, quest, header, 0, buttons)));
  }

  // --------------------------------------------------------------------- the other lines

  lemma OtherMeans(t: string, s: Statement)
    requires Bounded(t) && !StartsWith(t, "--") && ReadOther(t) == s && !s.Shows? && !s.Exchanges? && !s.Saves?
    requires ParseSelectMsg(t).None? && ParseExchange(t).None? && ParseSaveEvent(t).None?
    ensures Means(t, s)
  {
    hide ParseSelectMsg, ParseExchange, ParseSaveEvent, ReadOther;
  }

  lemma NextAsk(t: string, name: string, names: seq<string>)
    ensures AskedAmong(t, [name] + names)
      == if SecondInt(t, name).Some? then Asks(name, SecondInt(t, name).value) else AskedAmong(t, names)
    ensures AskedAmong(t, []) == Other(t)
  {
    hide SecondInt;
    assert ([name] + names)[1..] == names;
  }

  /** Which of the four calls is asked for first. */
  function FirstAsked(t: string): Statement
  {
    var status, item := SecondInt(t, "GetQuestStatus"), SecondInt(t, "HowmuchItem");
    var map', search := SecondInt(t, "ShowMap"), SecondInt(t, "SearchQuest");
    if status.Some? then Asks("GetQuestStatus", status.value)
    else if item.Some? then Asks("HowmuchItem", item.value)
    else if map'.Some? then Asks("ShowMap", map'.value)
    else if search.Some? then Asks("SearchQuest", search.value)
    else Other(t)
  }

  lemma AskOrder(t: string)
    ensures AskedAmong(t, ["GetQuestStatus", "HowmuchItem", "ShowMap", "SearchQuest"]) == FirstAsked(t)
  {
    hide SecondInt, AskedAmong;
    var last: seq<string> := [];
    NextAsk(t, "SearchQuest", last);
    NextAsk(t, "ShowMap", ["SearchQuest"]);
    NextAsk(t, "HowmuchItem", ["ShowMap", "SearchQuest"]);
    NextAsk(t, "GetQuestStatus", ["HowmuchItem", "ShowMap", "SearchQuest"]);
    assert ["SearchQuest"] + last == ["SearchQuest"];
    assert ["ShowMap"] + ["SearchQuest"] == ["ShowMap", "SearchQuest"];
    assert ["HowmuchItem"] + ["ShowMap", "SearchQuest"] == ["HowmuchItem", "ShowMap", "SearchQuest"];
    assert ["GetQuestStatus"] + ["HowmuchItem", "ShowMap", "SearchQuest"]
      == ["GetQuestStatus", "HowmuchItem", "ShowMap", "SearchQuest"];
  }

  /** The name before the parenthesis ends with another letter, so no number is read. */
  lemma NoNumber(before: string, after: string, name: string)
    requires '(' !in before && '(' !in after && before != "" && name != ""
    requires before[|before| - 1] != name[|name| - 1]
    ensures SecondInt(before + ("(" + after), name).None?
  {
    hide Find;
    OtherLetter(before, after, name);
  }

  /** A text that is neither a branch nor an end. */
  lemma ReadsAsked(t: string)
    requires t != "" && t[0] != 'i' && t[0] != 'e'
    ensures ReadOther(t) == AskedAmong(t, ["GetQuestStatus", "HowmuchItem", "ShowMap", "SearchQuest"])
  {
  }

  lemma AskMeans(t: string, s: Statement)
    requires Bounded(t) && t[0] !in {'i', 'e', '-'} && (s.Asks? || s.Other?)
    requires FirstAsked(t) == s
    requires ParseSelectMsg(t).None? && ParseExchange(t).None? && ParseSaveEvent(t).None?
    ensures Means(t, s)
  {
    hide AskedAmong, FirstAsked, Means, ReadOther, ParseSelectMsg, ParseExchange, ParseSaveEvent;
    ReadsAsked(t);
    AskOrder(t);
    OtherMeans(t, s);
  }

  lemma StatusMeans(quest: I32)
    ensures Means(StatusCheck(quest), Asks("GetQuestStatus", quest))
  {
    hide Find, Decimal, SecondInt, Joined, AskedAmong, Means, ReadOther, ParseSelectMsg, ParseExchange, ParseSaveEvent,
      Unlike, EndsWith;
    var t := StatusCheck(quest);
    var before := "QuestStatusCheck = ";
    assert t == before + (NumberCall("GetQuestStatus", quest) + "");
    NumberRead(before, "GetQuestStatus", quest, "");
    NumberParts(before, "GetQuestStatus", quest, "");
    UnlikeEnd(before + "GetQuestStatus");
    NoneKept(before + "GetQuestStatus", Joined(["UID", Decimal(quest)]) + ")" + "");
    assert t[|t| - 1] == ')';
    AskMeans(t, Asks("GetQuestStatus", quest));
  }

  lemma ItemMeans(item: I32)
    ensures Means(CountItem(item), Asks("HowmuchItem", item))
  {
    hide Find, Decimal, SecondInt, Joined, AskedAmong, Means, ReadOther, ParseSelectMsg, ParseExchange, ParseSaveEvent,
      Unlike, EndsWith;
    var t := CountItem(item);
    var before, rest := "ItemA = ", Joined(["UID", Decimal(item)]) + ")" + ";";
    NumberRead(before, "HowmuchItem", item, ";");
    NumberParts(before, "HowmuchItem", item, ";");
    UnlikeEnd(before + "HowmuchItem");
    NoneKept(before + "HowmuchItem", rest);
    NoNumber(before + "HowmuchItem", rest, "GetQuestStatus");
    assert t[|t| - 1] == ';';
    AskMeans(t, Asks("HowmuchItem", item));
  }

  lemma MapMeans(zone: I32)
    ensures Means(MapLine(zone), Asks("ShowMap", zone))
  {
    hide Find, Decimal, SecondInt, Joined, AskedAmong, Means, ReadOther, ParseSelectMsg, ParseExchange, ParseSaveEvent,
      Unlike, EndsWith;
    var t, rest := MapLine(zone), Joined(["UID", Decimal(zone)]) + ")" + ";";
    assert t == "" + (NumberCall("ShowMap", zone) + ";");
    NumberRead("", "ShowMap", zone, ";");
    NumberParts("", "ShowMap", zone, ";");
    assert t == "ShowMap" + ("(" + rest);
    UnlikeEnd("ShowMap");
    NoneKept("ShowMap", rest);
    NoNumber("ShowMap", rest, "GetQuestStatus");
    NoNumber("ShowMap", rest, "HowmuchItem");
    CallBounded("ShowMap", ["UID", Decimal(zone)]);
    AskMeans(t, Asks("ShowMap", zone));
  }

  lemma SearchUnlike()
    ensures Unlike("SearchQuest")
  {
    var s := "SearchQuest";
    assert s[2..][0] == 'a' && s[2..] != "SaveEvent";
    EndLetter(s, "SelectMsg");
    EndLetter(s, "RunQuestExchange");
    EndLetter(s, "RunCountExchange");
    EndLetter(s, "RunRandomExchange");
    EndLetter(s, "CheckExchange");
  }

  lemma SearchMeans(npc: I32)
    ensures Means(SearchLine(npc), Asks("SearchQuest", npc))
  {
    hide Find, Decimal, SecondInt, Joined, AskedAmong, Means, ReadOther, ParseSelectMsg, ParseExchange, ParseSaveEvent,
      Unlike, EndsWith;
    var t, rest := SearchLine(npc), Joined(["UID", Decimal(npc)]) + ")" + ";";
    assert t == "" + (NumberCall("SearchQuest", npc) + ";");
    NumberRead("", "SearchQuest", npc, ";");
    NumberParts("", "SearchQuest", npc, ";");
    assert t == "SearchQuest" + ("(" + rest);
    SearchUnlike();
    NoneKept("SearchQuest", rest);
    NoNumber("SearchQuest", rest, "GetQuestStatus");
    NoNumber("SearchQuest", rest, "HowmuchItem");
    NoNumber("SearchQuest", rest, "ShowMap");
    CallBounded("SearchQuest", ["UID", Decimal(npc)]);
    AskMeans(t, Asks("SearchQuest", npc));
  }

  lemma MonsterSubMeans()
    ensures Means(MonsterSub(), Other("MonsterSub = ExistMonsterQuestSub(UID);"))
  {
    hide Find, SecondInt, AskedAmong, Means, ReadOther, ParseSelectMsg, ParseExchange, ParseSaveEvent,
      Unlike, EndsWith;
    var t, before, rest := MonsterSub(), "MonsterSub = ExistMonsterQuestSub", "UID);";
    assert t == before + ("(" + rest);
    assert t == "MonsterSub = ExistMonsterQuestSub(UID);";
    UnlikeEnd(before);
    NoneKept(before, rest);
    NoNumber(before, rest, "GetQuestStatus");
    NoNumber(before, rest, "HowmuchItem");
    NoNumber(before, rest, "ShowMap");
    NoNumber(before, rest, "SearchQuest");
    AskMeans(t, Other(t));
  }

  /** A condition behind `if` or `if ` and a parenthesis. */
  lemma IfMeans(before: string, rest: string)
    requires (before == "if" || before == "if ") && '(' !in rest && rest != "" && !IsWhite(rest[|rest| - 1])
    ensures var t := before + ("(" + rest); Means(t, If(t))
  {
    hide Find, Means, ParseSelectMsg, ParseExchange, ParseSaveEvent, Unlike, EndsWith;
    var t := before + ("(" + rest);
    UnlikeEnd(before);
    NoneKept(before, rest);
    assert t[0] == 'i' && t[|t| - 1] == rest[|rest| - 1] && StartsWith(t, "if");
    OtherMeans(t, If(t));
  }

  lemma NotWhite()
    ensures !IsWhite('n')
  {
  }

  lemma MonsterText()
    ensures "if (MonsterSub == 0) then" == "if " + ("(" + "MonsterSub == 0) then")
  {
    hide *;
  }

  lemma DoneText()
    ensures "if(QuestStatusCheck == 2) then" == "if" + ("(" + "QuestStatusCheck == 2) then")
  {
    hide *;
    DoneTextInside();
    assert "if(QuestStatusCheck == 2) then" == "if" + "(QuestStatusCheck == 2) then";
  }

  lemma DoneTextInside()
    ensures "(QuestStatusCheck == 2) then" == "(" + "QuestStatusCheck == 2) then"
  {
    hide *;
  }

  lemma MonsterIfMeans()
    ensures Means("if (MonsterSub == 0) then", If("if (MonsterSub == 0) then"))
  {
    hide *;
    MonsterText();
    NotWhite();
    IfMeans("if ", "MonsterSub == 0) then");
  }

  lemma DoneIfMeans()
    ensures Means("if(QuestStatusCheck == 2) then", If("if(QuestStatusCheck == 2) then"))
  {
    hide *;
    DoneText();
    NotWhite();
    IfMeans("if", "QuestStatusCheck == 2) then");
  }

  lemma FewerIfMeans(count: I32)
    ensures Means(IfFewer(count), If("if (ItemA < " + (Decimal(count) + ") then")))
  {
    hide Decimal, Means;
    DecimalAtom(count);
    var rest := "ItemA < " + (Decimal(count) + ") then");
    assert IfFewer(count) == "if " + ("(" + rest);
    IfMeans("if ", rest);
  }

  lemma ElseMeans()
    ensures Means("else", Else)
  {
    hide ParseSelectMsg, ParseExchange, ParseSaveEvent, Means;
    NoneKeptPlain("else");
    OtherMeans("else", Else);
  }

  lemma EndMeans()
    ensures Means("end", End)
  {
    hide ParseSelectMsg, ParseExchange, ParseSaveEvent, Means;
    NoneKeptPlain("end");
    OtherMeans("end", End);
  }

  // ------------------------------------------------------------------- a whole handler

  /** Line by line, the lines are read as the statements. */
  ghost predicate AllRead(lines: seq<string>, stmts: seq<Statement>)
  {
    |lines| == |stmts| && forall i :: 0 <= i < |lines| ==> Reads(lines[i], stmts[i])
  }

  lemma AllReadAppend(a: seq<string>, x: seq<Statement>, b: seq<string>, y: seq<Statement>)
    requires AllRead(a, x) && AllRead(b, y)
    ensures AllRead(a + b, x + y)
  {
    hide Reads;
  }

  lemma TellsMeans(quest: I32, header: I32, text: I32, event: I32)
    ensures Means(Message(quest, header, (text, event)), Tells(quest, header, text, event))
  {
    hide Means;
    SelectMeans(2, quest, header, [(text, event)]);
  }

  lemma ChoiceMeans(quest: I32, header: I32, text: I32, event: I32, decline: I32)
    ensures Means(Dialog(quest, header, (text, event), (decline, -1)), Choice(quest, header, text, event, decline))
  {
    hide Means;
    SelectMeans(4, quest, header, [(text, event), (decline, -1)]);
  }

  lemma BranchLines()
    ensures Reads(Tab("else"), Else) && Reads(Tab("end"), End) && Reads("end", End)
  {
    hide Means, Reads, Tab;
    ElseMeans();
    EndMeans();
    ReadsIndented("else", Else);
    ReadsIndented("end", End);
  }

  lemma CompletingRead(quest: I32, exchange: I32, save: I32)
    ensures AllRead(Completing(quest, exchange, save), Completed(quest, exchange, save))
  {
    hide Means, Reads, Tab, StatusCheck, Message, RunExchange, SaveLine, Tells;
    StatusMeans(quest);
    DoneIfMeans();
    TellsMeans(-1, 8779, 10, -1);
    ExchangeMeans(exchange);
    SaveMeans(save);
    BranchLines();
    ReadsIndented(StatusCheck(quest), Asks("GetQuestStatus", quest));
    ReadsIndented("if(QuestStatusCheck == 2) then", If("if(QuestStatusCheck == 2) then"));
    ReadsIndented(Message(-1, 8779, (10, -1)), Tells(-1, 8779, 10, -1));
    ReadsIndented(RunExchange(exchange), Exchanges(exchange));
    ReadsIndented(SaveLine(save), Saves(save));
  }

  lemma MonsterRead(quest: I32, talk: I32, complete: I32, incomplete: I32)
    ensures AllRead(MonsterCheck(quest, talk, complete, incomplete),
      [ Other("MonsterSub = ExistMonsterQuestSub(UID);"), If("if (MonsterSub == 0) then"),
        Choice(quest, talk, 22, complete, 23), Else, Tells(quest, talk, 18, incomplete), End ])
  {
    hide Means, Reads, Tab, MonsterSub, Message, Dialog, Tells, Choice;
    MonsterSubMeans();
    MonsterIfMeans();
    ChoiceMeans(quest, talk, 22, complete, 23);
    TellsMeans(quest, talk, 18, incomplete);
    BranchLines();
    ReadsIndented(MonsterSub(), Other("MonsterSub = ExistMonsterQuestSub(UID);"));
    ReadsIndented("if (MonsterSub == 0) then", If("if (MonsterSub == 0) then"));
    ReadsIndented(Dialog(quest, talk, (22, complete), (23, -1)), Choice(quest, talk, 22, complete, 23));
    ReadsIndented(Message(quest, talk, (18, incomplete)), Tells(quest, talk, 18, incomplete));
  }

  lemma ItemsRead(item: (I32, I32), quest: I32, talk: I32, complete: I32, incomplete: I32)
    ensures AllRead(ItemCheck(item, quest, talk, complete, incomplete),
      [ Asks("HowmuchItem", item.0), If("if (ItemA < " + (Decimal(item.1) + ") then")),
        Tells(quest, talk, 18, incomplete), Else, Choice(quest, talk, 41, complete, 27), End ])
  {
    hide Means, Reads, Tab, CountItem, IfFewer, Message, Dialog, Tells, Choice, Decimal;
    ItemMeans(item.0);
    FewerIfMeans(item.1);
    ChoiceMeans(quest, talk, 41, complete, 27);
    TellsMeans(quest, talk, 18, incomplete);
    BranchLines();
    ReadsIndented(CountItem(item.0), Asks("HowmuchItem", item.0));
    ReadsIndented(IfFewer(item.1), If("if (ItemA < " + (Decimal(item.1) + ") then")));
    ReadsIndented(Message(quest, talk, (18, incomplete)), Tells(quest, talk, 18, incomplete));
    ReadsIndented(Dialog(quest, talk, (41, complete), (27, -1)), Choice(quest, talk, 41, complete, 27));
  }

  lemma TalkRead(quest: I32, talk: I32)
    ensures Reads(Tab(TalkOrDefault(quest, talk)), if talk > 0 then Tells(quest, talk, 10, -1)
      else Tells(-1, 331, 10, -1))
  {
    hide Means, Reads, Tab, Message, Tells;
    TellsMeans(quest, talk, 10, -1);
    TellsMeans(-1, 331, 10, -1);
    ReadsIndented(Message(quest, talk, (10, -1)), Tells(quest, talk, 10, -1));
    ReadsIndented(Message(-1, 331, (10, -1)), Tells(-1, 331, 10, -1));
  }

  lemma OneRead(line: string, s: Statement)
    requires Means(line, s)
    ensures AllRead([Tab(line)], [s])
  {
    hide Means, Reads, Tab;
    ReadsIndented(line, s);
  }

  /** The lines printed between the header and the `end` say what a handler of the type should. */
  lemma BodyRead(h: HandlerType, tbl: Tables)
    ensures AllRead(BodyLines(h, tbl), Meaning(h, tbl))
  {
    hide Means, Reads, Tab, SaveLine, Dialog, Message, MonsterCheck, ItemCheck, Completing, Completed, TalkOrDefault,
      MapLine, SearchLine, Tells, Choice, Decimal;
    match h
    case IntroAccept(save) => SaveMeans(save); OneRead(SaveLine(save), Saves(save));
    case QuestAccept(save) => SaveMeans(save); OneRead(SaveLine(save), Saves(save));
    case QuestOffer(quest, talk, menu, accept) =>
      var text: I32 := if menu > 0 then menu else 22;
      ChoiceMeans(quest, talk, text, accept, 23);
      OneRead(Dialog(quest, talk, (text, accept), (23, -1)), Choice(quest, talk, text, accept, 23));
    case ProgressCheck(quest, talk, exchange, hasMonster, complete, incomplete) =>
      MonsterRead(quest, talk, complete, incomplete);
      TellsMeans(quest, talk, 10, -1);
      OneRead(Message(quest, talk, (10, -1)), Tells(quest, talk, 10, -1));
      ChoiceMeans(quest, talk, 41, complete, 27);
      OneRead(Dialog(quest, talk, (41, complete), (27, -1)), Choice(quest, talk, 41, complete, 27));
      if exchange in tbl.originItems && tbl.originItems[exchange] != [] {
        ItemsRead(tbl.originItems[exchange][0], quest, talk, complete, incomplete);
      }
    case QuestComplete(quest, exchange, save) => CompletingRead(quest, exchange, save);
    case CompletionConfirm(quest, exchange, save) => CompletingRead(quest, exchange, save);
    case SubStep(quest, talk) => TalkRead(quest, talk);
    case QuestDone(quest, talk) => TalkRead(quest, talk);
    case ShowMap(zone) => MapMeans(zone); OneRead(MapLine(zone), Asks("ShowMap", zone));
    case SearchQuestDispatch(npc) => SearchMeans(npc); OneRead(SearchLine(npc), Asks("SearchQuest", npc));
  }

  // ------------------------------------------------------------------- in the file

  lemma {:induction false} CallsRead(lines: seq<string>, stmts: seq<Statement>)
    requires AllRead(lines, stmts)
    ensures CallsIn(lines) == CallsOfAll(stmts) && ReadAll(lines) == stmts
  {
    hide ReadLine, TrimmedCalls, Trim, CallsOf;
    if lines != [] {
      var n := |lines| - 1;
      assert Reads(lines[n], stmts[n]);
      CallsRead(lines[..n], stmts[..n]);
      assert forall i :: 0 <= i < n ==> ReadAll(lines)[i] == ReadAll(lines[..n])[i] == stmts[i];
    }
  }

  lemma QuietMore(stmts: seq<Statement>, s: Statement)
    requires s.Nothing? || s.End?
    ensures CallsOfAll(stmts + [s]) == CallsOfAll(stmts)
  {
    assert (stmts + [s])[..|stmts|] == stmts;
  }

  lemma CommentReads(m: MissingHandler)
    ensures Reads(Comment(m), Nothing)
  {
    hide Decimal;
    var c, d := Comment(m), Decimal(m.source.index);
    DecimalAtom(m.source.index);
    assert d[|d| - 1] in d && c[|c| - 1] == d[|d| - 1];
    assert c[0] == '-';
    TrimmedAlready(c);
  }

  lemma EmptyReads()
    ensures Reads("", Nothing)
  {
    hide ParseSelectMsg, ParseExchange, ParseSaveEvent;
    NoneKeptPlain("");
    assert Trim("") == "";
  }

  /** The lines from behind a header to the next one, and what they say. */
  function BlockOf(m: MissingHandler, tbl: Tables, later: seq<MissingHandler>): seq<string>
  {
    BodyLines(m.handler, tbl) + ["end", ""] + (if later == [] then [] else [Comment(later[0])])
  }

  function Said(m: MissingHandler, tbl: Tables, later: seq<MissingHandler>): seq<Statement>
  {
    Meaning(m.handler, tbl) + [End, Nothing] + (if later == [] then [] else [Nothing])
  }

  lemma BlockRead(m: MissingHandler, tbl: Tables, later: seq<MissingHandler>)
    ensures AllRead(BlockOf(m, tbl, later), Said(m, tbl, later))
    ensures CallsOfAll(Said(m, tbl, later)) == CallsOfAll(Meaning(m.handler, tbl))
  {
    hide Reads, Meaning, BodyLines, Comment, CallsOfAll;
    BodyRead(m.handler, tbl);
    BranchLines();
    EmptyReads();
    var meaning := Meaning(m.handler, tbl);
    AllReadAppend(BodyLines(m.handler, tbl), meaning, ["end", ""], [End, Nothing]);
    QuietMore(meaning, End);
    QuietMore(meaning + [End], Nothing);
    assert meaning + [End] + [Nothing] == meaning + [End, Nothing];
    if later != [] {
      CommentReads(later[0]);
      AllReadAppend(BodyLines(m.handler, tbl) + ["end", ""], meaning + [End, Nothing], [Comment(later[0])], [Nothing]);
      QuietMore(meaning + [End, Nothing], Nothing);
    } else {
      assert meaning + [End, Nothing] + [] == meaning + [End, Nothing];
      assert BodyLines(m.handler, tbl) + ["end", ""] + [] == BodyLines(m.handler, tbl) + ["end", ""];
    }
  }

  lemma BlockOpensNothing(m: MissingHandler, tbl: Tables, later: seq<MissingHandler>)
    ensures forall l :: l in BlockOf(m, tbl, later) ==> EventOf(l).None?
  {
    hide EventOf, Comment, BodyLines;
    assert Plain("end") && Plain("");
    forall l | l in BlockOf(m, tbl, later)
      ensures EventOf(l).None?
    {
      assert l in BodyLines(m.handler, tbl) || l == "end" || l == "" || (later != [] && l == Comment(later[0]));
      assert Plain(l);
      NoKeyword(l);
    }
  }

  lemma {:induction false} HandlersAppend(a: seq<MissingHandler>, b: seq<MissingHandler>, tbl: Tables)
    ensures HandlersLines(a + b, tbl) == HandlersLines(a, tbl) + HandlersLines(b, tbl)
  {
    hide HandlerLines;
    if b == [] {
      assert a + b == a;
    } else {
      var n := |b| - 1;
      HandlersAppend(a, b[..n], tbl);
      assert (a + b)[..|a| + n] == a + b[..n] && (a + b)[|a| + n] == b[n];
      Regroup(HandlersLines(a, tbl), HandlersLines(b[..n], tbl), HandlerLines(b[n], tbl) + [""]);
    }
  }

  /** What follows a block: nothing, or the header of the next handler. */
  function Following(later: seq<MissingHandler>, tbl: Tables): seq<string>
  {
    if later == [] then [] else
      [HeaderLine(later[0].eventId)] + (BodyLines(later[0].handler, tbl) + ["end", ""] + HandlersLines(later[1..], tbl))
  }

  lemma OneHandler(m: MissingHandler, tbl: Tables)
    ensures HandlersLines([m], tbl)
      == [Comment(m)] + ([HeaderLine(m.eventId)] + (BodyLines(m.handler, tbl) + ["end", ""]))
  {
    hide Comment, HeaderLine, BodyLines;
    assert [m][..0] == [];
    assert HandlersLines([m], tbl) == [] + (HandlerLines(m, tbl) + [""]);
  }

  lemma LaterLines(later: seq<MissingHandler>, tbl: Tables)
    ensures HandlersLines(later, tbl) == (if later == [] then [] else [Comment(later[0])]) + Following(later, tbl)
  {
    hide Comment, HeaderLine, BodyLines;
    if later != [] {
      var m, rest := later[0], later[1..];
      assert later == [m] + rest;
      HandlersAppend([m], rest, tbl);
      OneHandler(m, tbl);
    }
  }

  /** The printed handlers, cut at one of them: what stands before its header, its block, and the rest. */
  lemma HandlersCut(ks: seq<MissingHandler>, k: nat, tbl: Tables)
    requires k < |ks|
    ensures HandlersLines(ks, tbl)
      == (HandlersLines(ks[..k], tbl) + [Comment(ks[k])])
        + ([HeaderLine(ks[k].eventId)] + (BlockOf(ks[k], tbl, ks[k + 1..]) + Following(ks[k + 1..], tbl)))
  {
    hide Comment, HeaderLine, BodyLines, Following, HandlersLines;
    var front, m, later := ks[..k], ks[k], ks[k + 1..];
    assert ks == front + ([m] + later);
    HandlersAppend(front, [m] + later, tbl);
    HandlersAppend([m], later, tbl);
    OneHandler(m, tbl);
    LaterLines(later, tbl);
  }

  /** Where the scanner finds the last block of an event. */
  lemma BlockFound(before: seq<string>, header: string, block: seq<string>, after: seq<string>, h: EventHandler)
    requires EventOf(header) == Some(h.eventId) && forall l :: l in block ==> EventOf(l).None?
    requires after != [] ==> EventOf(after[0]).Some?
    requires forall l :: l in after ==> EventOf(l) != Some(h.eventId)
    requires IsLastBlock(EventOf, before + ([header] + (block + after)), h)
    ensures h.calls == CallsIn(block)
    ensures var lines := before + ([header] + (block + after));
      h.lineStart + h.lineCount <= |lines| && lines[h.lineStart..h.lineStart + h.lineCount] == block
  {
    hide EventOf, CallsIn;
    var lines, n := before + ([header] + (block + after)), |before|;
    assert lines[n] == header;
    assert forall i :: n < i <= n + |block| ==> lines[i] in block;
    assert forall i :: n + |block| < i < |lines| ==> lines[i] in after;
    assert h.lineStart == n + 1;
    assert after != [] ==> lines[n + 1 + |block|] == after[0];
    assert h.lineCount == |block|;
    assert lines[n + 1..n + 1 + |block|] == block;
  }

  lemma FollowingOpens(later: seq<MissingHandler>, tbl: Tables)
    ensures Following(later, tbl) != [] ==> EventOf(Following(later, tbl)[0]).Some?
    ensures forall l :: l in Following(later, tbl) && EventOf(l).Some? ==> EventOf(l).value in Ids(later)
  {
    hide EventOf, Comment, BodyLines, HeaderLine, Opened, HandlersLines;
    if later != [] {
      HeaderParsed(later[0].eventId);
    }
    HandlersOpen(later, tbl);
    LaterLines(later, tbl);
    OpenedIsEvents(HandlersLines(later, tbl));
    forall l | l in Following(later, tbl) && EventOf(l).Some?
      ensures EventOf(l).value in Ids(later)
    {
      var all := HandlersLines(later, tbl);
      assert l in all;
      var i :| 0 <= i < |all| && all[i] == l;
      assert EventOf(l).value in EventsIn(all);
    }
  }

  /** The handler that the scanner finds for an event of the block, whatever the file held before: its
    * lines, up to the `end`, say exactly what a handler of its type should, nothing follows, and the
    * scanner keeps exactly those calls. */
  lemma HandlersReadBack(content: string, ms: seq<MissingHandler>, tbl: Tables, m: MissingHandler, h: EventHandler)
    requires m in Kept(ms) && h.eventId == m.eventId
    requires IsLastBlock(EventOf, Lines(Apply(content, Code(ms, tbl))), h)
    ensures var lines, meaning := Lines(Apply(content, Code(ms, tbl))), Meaning(m.handler, tbl);
      var stmts := ReadAll(lines[h.lineStart..h.lineStart + h.lineCount]);
      && meaning + [End] <= stmts
      && (forall i :: |meaning| < i < |stmts| ==> stmts[i] == Nothing)
      && h.calls == CallsOfAll(meaning)
  {
    hide EventOf, Lines, Code, BlockLines, Kept, HandlersLines, BlockOf, Said, Following, Base, Meaning, CallsOfAll,
      CallsIn, HeaderLine, Comment;
    var ks := Kept(ms);
    var k :| 0 <= k < |ks| && ks[k] == m;
    var later := ks[k + 1..];
    var before := FileCut(content, ms, tbl, k);
    HeaderParsed(m.eventId);
    BlockOpensNothing(m, tbl, later);
    FollowingOpens(later, tbl);
    LaterIds(ms, k);
    BlockFound(before, HeaderLine(m.eventId), BlockOf(m, tbl, later), Following(later, tbl), h);
    BlockRead(m, tbl, later);
    CallsRead(BlockOf(m, tbl, later), Said(m, tbl, later));
    SaidShape(m, tbl, later);
  }

  lemma SaidShape(m: MissingHandler, tbl: Tables, later: seq<MissingHandler>)
    ensures var meaning, said := Meaning(m.handler, tbl), Said(m, tbl, later);
      meaning + [End] <= said && forall i :: |meaning| < i < |said| ==> said[i] == Nothing
  {
    hide Meaning;
  }

  lemma LaterIds(ms: seq<MissingHandler>, k: nat)
    requires k < |Kept(ms)|
    ensures Kept(ms)[k].eventId !in Ids(Kept(ms)[k + 1..])
  {
    hide Kept;
    OneHandlerPerEvent(ms);
    var ks := Kept(ms);
    var later := ks[k + 1..];
    forall j | 0 <= j < |later|
      ensures Ids(later)[j] > ks[k].eventId
    {
      assert Ids(later)[j] == Ids(ks)[k + 1 + j] && Ids(ks)[k] == ks[k].eventId;
      assert Ids(ks)[k] < Ids(ks)[k + 1 + j];
    }
  }

  /** The lines of the file, cut at the header of a handler of the block. */
  lemma FileCut(content: string, ms: seq<MissingHandler>, tbl: Tables, k: nat) returns (before: seq<string>)
    requires k < |Kept(ms)|
    ensures var ks := Kept(ms);
      Lines(Apply(content, Code(ms, tbl))) == before
        + ([HeaderLine(ks[k].eventId)] + (BlockOf(ks[k], tbl, ks[k + 1..]) + Following(ks[k + 1..], tbl)))
  {
    hide EventOf, Lines, Code, Kept, HandlersLines, BlockOf, Following, Base, HeaderLine, Comment, Banner;
    var ks := Kept(ms);
    BaseKeys(content);
    LinesAppend(Base(content), Code(ms, tbl));
    BlockOpens(ms, tbl);
    HandlersCut(ks, k, tbl);
    var own := HandlersLines(ks[..k], tbl) + [Comment(ks[k])];
    before := Lines(Base(content)) + (Banner() + own);
  }

  // --------------------------------------------------------- the calls of each handler

  /** The progress a handler saves, and the exchange it runs. */
  function SavedBy(h: HandlerType): seq<I32>
  {
    match h
    case IntroAccept(save) => [save]
    case QuestAccept(save) => [save]
    case QuestComplete(_, _, save) => [save]
    case CompletionConfirm(_, _, save) => [save]
    case _ => []
  }

  function ExchangedBy(h: HandlerType): seq<I32>
  {
    match h
    case QuestComplete(_, exchange, _) => if exchange > 0 then [exchange] else []
    case CompletionConfirm(_, exchange, _) => if exchange > 0 then [exchange] else []
    case _ => []
  }

  /** The events a handler has buttons for: a progress check has none if it knows nothing to check. */
  function LinksOf(h: HandlerType, tbl: Tables): set<I32>
  {
    match h
    case QuestOffer(_, _, _, accept) => {accept}
    case ProgressCheck(_, _, exchange, hasMonster, complete, incomplete) =>
      if hasMonster then {complete, incomplete}
      else if exchange <= 0 || exchange !in tbl.originItems then {}
      else if tbl.originItems[exchange] == [] then {complete}
      else {complete, incomplete}
    case _ => {}
  }

  /** The events that the buttons of the messages lead to. */
  function LinkedBy(selects: seq<SelectMsg>): set<I32>
  {
    set s, b | s in selects && b in s.buttons && b.1 > 0 :: b.1
  }

  lemma {:induction false} CallsFirst(s: Statement, rest: seq<Statement>)
    ensures CallsOfAll([s] + rest) == Both(CallsOf(s), CallsOfAll(rest))
    decreases |rest|
  {
    hide CallsOf;
    if rest == [] {
      assert ([s] + rest)[..0] == [] && ([s] + rest)[0] == s;
    } else {
      var n := |rest| - 1;
      CallsFirst(s, rest[..n]);
      assert ([s] + rest)[..n + 1] == [s] + rest[..n] && ([s] + rest)[n + 1] == rest[n];
    }
  }

  /** A branch: a question, a condition, a message, `else`, a message, `end`. */
  lemma BranchCalls(ask: Statement, condition: string, a: SelectMsg, b: SelectMsg)
    requires ask.Asks? || ask.Other?
    ensures CallsOfAll([ask, If(condition), Shows(a), Else, Shows(b), End]) == Calls([a, b], [], [])
  {
    var s5: seq<Statement> := [End];
    CallsFirst(End, []);
    CallsFirst(Shows(b), s5);
    CallsFirst(Else, [Shows(b)] + s5);
    CallsFirst(Shows(a), [Else] + ([Shows(b)] + s5));
    CallsFirst(If(condition), [Shows(a)] + ([Else] + ([Shows(b)] + s5)));
    CallsFirst(ask, [If(condition)] + ([Shows(a)] + ([Else] + ([Shows(b)] + s5))));
    assert [ask] + ([If(condition)] + ([Shows(a)] + ([Else] + ([Shows(b)] + s5))))
      == [ask, If(condition), Shows(a), Else, Shows(b), End];
    assert [End] + [] == s5;
  }

  lemma OneCall(s: Statement)
    ensures CallsOfAll([s]) == CallsOf(s)
  {
    CallsFirst(s, []);
    assert [s] + [] == [s];
  }

  lemma CompletedCalls(quest: I32, exchange: I32, save: I32)
    ensures CallsOfAll(Completed(quest, exchange, save))
      == Calls([SelectMsg(2, -1, 8779, 0, [(10, -1)])], if exchange > 0 then [exchange] else [], [save])
  {
    hide CallsOfAll;
    var done := SelectMsg(2, -1, 8779, 0, [(10, -1)]);
    var tail: seq<Statement> := [Saves(save), End];
    OneCall(End);
    CallsFirst(Saves(save), [End]);
    assert [Saves(save)] + [End] == tail;
    var run: seq<Statement> := if exchange > 0 then [Exchanges(exchange)] + tail else tail;
    CallsFirst(Exchanges(exchange), tail);
    var condition := If("if(QuestStatusCheck == 2) then");
    CallsFirst(Else, run);
    CallsFirst(Shows(done), [Else] + run);
    CallsFirst(condition, [Shows(done)] + ([Else] + run));
    CallsFirst(Asks("GetQuestStatus", quest), [condition] + ([Shows(done)] + ([Else] + run)));
    assert [Asks("GetQuestStatus", quest)] + ([condition] + ([Shows(done)] + ([Else] + run)))
      == Completed(quest, exchange, save);
  }

  /** What the scanner keeps of a handler: the progress it saves, the exchange it runs, and messages
    * whose buttons lead to the events it has buttons for. */
  lemma HandlerCalls(h: HandlerType, tbl: Tables)
    ensures var calls := CallsOfAll(Meaning(h, tbl));
      && calls.saves == SavedBy(h) && calls.exchanges == ExchangedBy(h)
      && LinkedBy(calls.selects) == set e | e in LinksOf(h, tbl) && e > 0
  {
    hide CallsOfAll, Completed;
    match h
    case ProgressCheck(quest, talk, exchange, hasMonster, complete, incomplete) => CheckCalls(h, tbl);
    case QuestComplete(quest, exchange, save) => CompletedCalls(quest, exchange, save);
    case CompletionConfirm(quest, exchange, save) => CompletedCalls(quest, exchange, save);
    case _ => OneCall(Meaning(h, tbl)[0]);
  }

  lemma CheckCalls(h: HandlerType, tbl: Tables)
    requires h.ProgressCheck?
    ensures var calls := CallsOfAll(Meaning(h, tbl));
      && calls.saves == [] && calls.exchanges == []
      && LinkedBy(calls.selects) == set e | e in LinksOf(h, tbl) && e > 0
  {
    hide CallsOfAll;
    var ProgressCheck(quest, talk, exchange, hasMonster, complete, incomplete) := h;
    var tells := SelectMsg(2, quest, talk, 0, [(18, incomplete)]);
    if hasMonster {
      var choice := SelectMsg(4, quest, talk, 0, [(22, complete), (23, -1)]);
      BranchCalls(Other("MonsterSub = ExistMonsterQuestSub(UID);"), "if (MonsterSub == 0) then", choice, tells);
      LinkedByTwo(choice, tells);
    } else if exchange <= 0 || exchange !in tbl.originItems || tbl.originItems[exchange] == [] {
      OneCall(Meaning(h, tbl)[0]);
    } else {
      var (item, count) := tbl.originItems[exchange][0];
      var choice := SelectMsg(4, quest, talk, 0, [(41, complete), (27, -1)]);
      BranchCalls(Asks("HowmuchItem", item), "if (ItemA < " + (Decimal(count) + ") then"), tells, choice);
      LinkedByTwo(tells, choice);
    }
  }

  lemma LinkedByTwo(a: SelectMsg, b: SelectMsg)
    ensures LinkedBy([a, b]) == (set x | x in a.buttons && x.1 > 0 :: x.1) + (set x | x in b.buttons && x.1 > 0 :: x.1)
  {
  }

  /** Every button of a printed handler that leads anywhere leads to an event that is handled in the
    * file, is a trigger of the quest, or is the event of another handler returned for the file. */
  lemma PrintedButtonsLeadOn(lower: string -> string, order: (Row, Row) -> bool, rows: seq<Row>, files: LuaFiles,
      tbl: Tables, m: MissingHandler, e: I32)
    requires TotalPreorder(order) && m in Missing(lower, order, rows, files, tbl)
    requires e in LinkedBy(CallsOfAll(Meaning(m.handler, tbl)).selects)
    ensures lower(m.luaFile) in files
    ensures TakenUp(rows, files[lower(m.luaFile)], Missing(lower, order, rows, files, tbl), m, e)
  {
    hide Missing, TakenUp, CallsOfAll, Meaning, LinkedBy;
    HandlerCalls(m.handler, tbl);
    ButtonsLeadOn(lower, order, rows, files, tbl, m, e);
  }
}
