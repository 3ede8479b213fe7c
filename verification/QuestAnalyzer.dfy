/** Which EVENT handlers the quest table asks for and the Lua files lack. */
module QuestAnalyzer {
  import opened Sequences
  import opened Sorting
  import opened Text
  import opened Wrappers

  /** A quest_helper row (the columns the tool uses). */
  datatype Row = Row(
    index: I32, npcId: I32, questId: I32, status: I32, trigger: I32, complete: I32,
    exchange: I32, talk: I32, menu: I32, zone: I32, luaFile: string)

  datatype HandlerType =
    | IntroAccept(saveEvent: I32)
    | QuestOffer(questId: I32, talk: I32, menu: I32, acceptEvent: I32)
    | QuestAccept(saveEvent: I32)
    | ProgressCheck(questId: I32, talk: I32, exchange: I32, hasMonster: bool, completeEvent: I32, incompleteEvent: I32)
    | QuestComplete(questId: I32, exchange: I32, saveEvent: I32)
    | CompletionConfirm(questId: I32, exchange: I32, saveEvent: I32)
    | SubStep(questId: I32, talk: I32)
    | QuestDone(questId: I32, talk: I32)
    | ShowMap(zone: I32)
    | SearchQuestDispatch(npcId: I32)

  datatype MissingHandler = MissingHandler(npcId: I32, luaFile: string, eventId: I32, handler: HandlerType, source: Row)

  datatype Chain = Chain(npcId: I32, questId: I32, luaFile: string, rows: seq<Row>)

  /** The two tables of the client data that matter: quests with a monster exchange, and
    * the origin items of each item exchange. */
  datatype Tables = Tables(monsterQuests: set<int>, originItems: map<int, seq<(I32, I32)>>)

  /** Events handled by each file; keys are lower-case file names. */
  type LuaFiles = map<string, set<int>>

  /** i32 addition as a release build computes it. */
  function Add32(a: I32, b: int): I32
    requires 0 <= b <= 2
  {
    if a + b > I32_MAX then a + b - 0x1_0000_0000 else a + b
  }

  // -------------------------------------------------------------------- the chains

  type Group = (I32, I32)

  predicate RowLe(a: Row, b: Row) { a.status < b.status || (a.status == b.status && a.index <= b.index) }

  predicate GroupLe(a: Group, b: Group) { a.0 < b.0 || (a.0 == b.0 && a.1 <= b.1) }

  function GroupOf(r: Row): Group { (r.npcId, r.questId) }

  /** The distinct groups of the rows that belong to a quest, in first-seen order. */
  function Groups(rows: seq<Row>): seq<Group>
  {
    if rows == [] then [] else
      var front, last := Groups(rows[..|rows| - 1]), rows[|rows| - 1];
      if last.questId == 0 || GroupOf(last) in front then front else front + [GroupOf(last)]
  }

  function RowsOf(rows: seq<Row>, g: Group): seq<Row>
  {
    if rows == [] then [] else
      var last := rows[|rows| - 1];
      RowsOf(rows[..|rows| - 1], g) + (if last.questId != 0 && GroupOf(last) == g then [last] else [])
  }

  function ChainOf(rows: seq<Row>, g: Group): Chain
  {
    var sorted := StableSort(RowLe, RowsOf(rows, g));
    Chain(g.0, g.1, if sorted == [] then "" else sorted[0].luaFile, sorted)
  }

  /** `build_quest_chains`: one chain for each (npc, quest), in order. */
  function Chains(rows: seq<Row>): (r: seq<Chain>)
    ensures |r| == |StableSort(GroupLe, Groups(rows))|
  {
    var gs := StableSort(GroupLe, Groups(rows));
    seq(|gs|, i requires 0 <= i < |gs| => ChainOf(rows, gs[i]))
  }

  /** The map from groups to their rows, and the order in which the groups were first seen. */
  ghost predicate Grouped(rows: seq<Row>, order: seq<Group>, groups: map<Group, seq<Row>>)
  {
    && order == Groups(rows)
    && (forall g :: g in groups <==> g in order)
    && (forall g :: g in groups ==> groups[g] == RowsOf(rows, g))
    && (forall g :: g !in groups ==> RowsOf(rows, g) == [])
  }

  method GroupRows(rows: seq<Row>) returns (order: seq<Group>, groups: map<Group, seq<Row>>)
    ensures Grouped(rows, order, groups)
  {
    order, groups := [], map[];
    for i := 0 to |rows|
      invariant Grouped(rows[..i], order, groups)
    {
      var row := rows[i];
      assert rows[..i + 1][..i] == rows[..i] && rows[..i + 1][i] == row;
      if row.questId == 0 {
        continue;
      }
      var g := GroupOf(row);
      if g !in groups {
        order := order + [g];
        groups := groups[g := []];
      }
      groups := groups[g := groups[g] + [row]];
    }
    assert rows[..|rows|] == rows;
  }

  method BuildQuestChains(rows: seq<Row>) returns (chains: seq<Chain>)
    ensures chains == Chains(rows)
  {
    hide Groups, RowsOf, StableSort;
    var order, groups := GroupRows(rows);
    var keys := StableSort(GroupLe, order);
    chains := [];
    for i := 0 to |keys|
      invariant |chains| == i
      invariant forall k :: 0 <= k < i ==> chains[k] == ChainOf(rows, keys[k])
    {
      GroupsSorted(order, keys[i]);
      var sorted := StableSort(RowLe, groups[keys[i]]);
      chains := chains + [Chain(keys[i].0, keys[i].1, if sorted == [] then "" else sorted[0].luaFile, sorted)];
    }
  }

  lemma GroupsSorted(order: seq<Group>, g: Group)
    requires g in StableSort(GroupLe, order)
    ensures g in order
  {
    assert TotalPreorder(GroupLe);
    SameElements(GroupLe, order, g);
  }

  // ------------------------------------------------------------------ one chain

  /** `index_for_status`: the first row of that status. */
  function IndexForStatus(rows: seq<Row>, status: int): Option<I32>
  {
    if rows == [] then None
    else if rows[0].status == status then Some(rows[0].index)
    else IndexForStatus(rows[1..], status)
  }

  function GetOr(o: Option<I32>, default: I32): I32 { if o.Some? then o.value else default }

  /** The save index of a completion: status 2, else status 4, else the row itself. */
  function SaveIndex(c: Chain, row: Row): I32
  {
    GetOr(IndexForStatus(c.rows, 2), GetOr(IndexForStatus(c.rows, 4), row.index))
  }

  /** The save index of an introduction: status 0, 1, 2 or 4. */
  function IntroIndex(c: Chain): Option<I32>
  {
    var i0, i1, i2 := IndexForStatus(c.rows, 0), IndexForStatus(c.rows, 1), IndexForStatus(c.rows, 2);
    if i0.Some? then i0 else if i1.Some? then i1 else if i2.Some? then i2 else IndexForStatus(c.rows, 4)
  }

  predicate IsTrigger(c: Chain, e: int) { exists r :: r in c.rows && r.trigger == e }

  predicate IsDispatch(e: int) { e == 0 || e == 100 || e == 190 }

  function Need(c: Chain, row: Row, e: I32, h: HandlerType): MissingHandler
  {
    MissingHandler(c.npcId, c.luaFile, e, h, row)
  }

  /** A secondary handler, unless the file has it or the chain triggers it. */
  function NeedUnless(c: Chain, existing: set<int>, row: Row, e: I32, h: HandlerType): seq<MissingHandler>
  {
    if e in existing || IsTrigger(c, e) then [] else [Need(c, row, e, h)]
  }

  function CompleteEvent(row: Row): I32
  {
    if row.complete != 0 then row.complete else Add32(row.trigger, 1)
  }

  function IncompleteEvent(row: Row): I32
  {
    if row.complete == 0 then Add32(row.trigger, 2)
    else if row.zone > 0 then Add32(row.trigger, 1)
    else -1
  }

  function Completion(c: Chain, row: Row): HandlerType { QuestComplete(c.questId, row.exchange, SaveIndex(c, row)) }

  /** The handlers one row asks for. */
  function RowMissing(c: Chain, existing: set<int>, tbl: Tables, row: Row): seq<MissingHandler>
  {
    var t := row.trigger;
    if IsDispatch(t) || t in existing then
      if row.status == 1 && row.complete != 0
      then NeedUnless(c, existing, row, row.complete, Completion(c, row)) else []
    else if row.status == 255 then
      if IntroIndex(c).Some? then [Need(c, row, t, IntroAccept(IntroIndex(c).value))] else []
    else if row.status == 0 then
      var save := GetOr(IndexForStatus(c.rows, 1), GetOr(IndexForStatus(c.rows, 4), row.index));
      NeedUnless(c, existing, row, Add32(t, 1), QuestAccept(save))
        + [Need(c, row, t, QuestOffer(c.questId, row.talk, row.menu, Add32(t, 1)))]
    else if row.status == 1 then
      NeedUnless(c, existing, row, CompleteEvent(row), Completion(c, row))
        + (if IncompleteEvent(row) > 0 then NeedUnless(c, existing, row, IncompleteEvent(row), ShowMap(row.zone))
          else [])
        + [Need(c, row, t, ProgressCheck(c.questId, row.talk, row.exchange, c.questId in tbl.monsterQuests,
             CompleteEvent(row), IncompleteEvent(row)))]
    else if row.status == 2 then
      [Need(c, row, t, CompletionConfirm(c.questId, row.exchange, GetOr(IndexForStatus(c.rows, 4), row.index)))]
    else if row.status == 3 then [Need(c, row, t, SubStep(c.questId, row.talk))]
    else if row.status == 4 then [Need(c, row, t, QuestDone(c.questId, row.talk))]
    else []
  }

  function RowsMissing(c: Chain, existing: set<int>, tbl: Tables, rows: seq<Row>): seq<MissingHandler>
  {
    if rows == [] then [] else RowMissing(c, existing, tbl, rows[0]) + RowsMissing(c, existing, tbl, rows[1..])
  }

  /** One turn of the loop of `analyze_chain`. */
  method AnalyzeRow(c: Chain, existing: set<int>, tbl: Tables, row: Row) returns (missing: seq<MissingHandler>)
    ensures missing == RowMissing(c, existing, tbl, row)
  {
    hide Completion, SaveIndex, IntroIndex, IndexForStatus, CompleteEvent, IncompleteEvent, IsTrigger;
    missing := [];
    var trigger := row.trigger;
    if IsDispatch(trigger) || trigger in existing {
      if row.status == 1 && row.complete != 0 && row.complete !in existing && !IsTrigger(c, row.complete) {
        missing := missing + [Need(c, row, row.complete, Completion(c, row))];
      }
      return;
    }
    var handler: HandlerType;
    if row.status == 255 {
      var save := IntroIndex(c);
      if save.None? {
        return;
      }
      handler := IntroAccept(save.value);
    } else if row.status == 0 {
      var acceptEvent := Add32(trigger, 1);
      if acceptEvent !in existing && !IsTrigger(c, acceptEvent) {
        var save := GetOr(IndexForStatus(c.rows, 1), GetOr(IndexForStatus(c.rows, 4), row.index));
        missing := missing + [Need(c, row, acceptEvent, QuestAccept(save))];
      }
      handler := QuestOffer(c.questId, row.talk, row.menu, acceptEvent);
    } else if row.status == 1 {
      var completeEvent, incompleteEvent := CompleteEvent(row), IncompleteEvent(row);
      if completeEvent !in existing && !IsTrigger(c, completeEvent) {
        missing := missing + [Need(c, row, completeEvent, Completion(c, row))];
      }
      if incompleteEvent > 0 && incompleteEvent !in existing && !IsTrigger(c, incompleteEvent) {
        missing := missing + [Need(c, row, incompleteEvent, ShowMap(row.zone))];
      }
      handler := ProgressCheck(c.questId, row.talk, row.exchange, c.questId in tbl.monsterQuests,
        completeEvent, incompleteEvent);
    } else if row.status == 2 {
      handler := CompletionConfirm(c.questId, row.exchange, GetOr(IndexForStatus(c.rows, 4), row.index));
    } else if row.status == 3 {
      handler := SubStep(c.questId, row.talk);
    } else if row.status == 4 {
      handler := QuestDone(c.questId, row.talk);
    } else {
      return;
    }
    missing := missing + [Need(c, row, trigger, handler)];
  }

  /** `analyze_chain`. */
  method AnalyzeChain(c: Chain, existing: set<int>, tbl: Tables) returns (missing: seq<MissingHandler>)
    ensures missing == RowsMissing(c, existing, tbl, c.rows)
  {
    hide RowMissing;
    missing := [];
    for i := 0 to |c.rows|
      invariant missing + RowsMissing(c, existing, tbl, c.rows[i..]) == RowsMissing(c, existing, tbl, c.rows)
    {
      var own := AnalyzeRow(c, existing, tbl, c.rows[i]);
      assert c.rows[i..][1..] == c.rows[i + 1..];
      Regroup(missing, own, RowsMissing(c, existing, tbl, c.rows[i + 1..]));
      missing := missing + own;
    }
    assert missing + [] == missing;
  }

  // ----------------------------------------------------------------- all chains

  /** Lower-casing of file names is the library's. */
  function ExistingIn(lower: string -> string, files: LuaFiles, luaFile: string): Option<set<int>>
  {
    if lower(luaFile) in files then Some(files[lower(luaFile)]) else None
  }

  function ChainMissing(lower: string -> string, files: LuaFiles, tbl: Tables, c: Chain): seq<MissingHandler>
  {
    var existing := ExistingIn(lower, files, c.luaFile);
    if existing.None? then [] else RowsMissing(c, existing.value, tbl, c.rows)
  }

  function ChainsMissing(lower: string -> string, files: LuaFiles, tbl: Tables, chains: seq<Chain>): seq<MissingHandler>
  {
    if chains == [] then [] else
      ChainMissing(lower, files, tbl, chains[0]) + ChainsMissing(lower, files, tbl, chains[1..])
  }

  /** The first dispatch row of each (file, trigger). */
  function Dispatches(rows: seq<Row>): seq<Row>
  {
    if rows == [] then [] else
      var front, last := Dispatches(rows[..|rows| - 1]), rows[|rows| - 1];
      if (last.trigger != 100 && last.trigger != 190) || SameDispatch(front, last) then front else front + [last]
  }

  predicate SameDispatch(rows: seq<Row>, row: Row)
  {
    exists r :: r in rows && r.luaFile == row.luaFile && r.trigger == row.trigger
  }

  function DispatchOf(lower: string -> string, files: LuaFiles, r: Row): seq<MissingHandler>
  {
    var existing := ExistingIn(lower, files, r.luaFile);
    if existing.None? || r.trigger in existing.value then [] else
      [MissingHandler(r.npcId, r.luaFile, r.trigger, SearchQuestDispatch(r.npcId), r)]
  }

  function DispatchMissing(lower: string -> string, files: LuaFiles, rows: seq<Row>): seq<MissingHandler>
  {
    if rows == [] then [] else DispatchOf(lower, files, rows[0]) + DispatchMissing(lower, files, rows[1..])
  }

  /** `find_missing_handlers`; the dispatch rows come in the order `order` gives them. */
  function Missing(lower: string -> string, order: (Row, Row) -> bool, rows: seq<Row>, files: LuaFiles,
      tbl: Tables): seq<MissingHandler>
  {
    ChainsMissing(lower, files, tbl, Chains(rows)) + DispatchMissing(lower, files, StableSort(order, Dispatches(rows)))
  }

  method FindMissingHandlers(lower: string -> string, order: (Row, Row) -> bool, rows: seq<Row>, files: LuaFiles,
      tbl: Tables)
    returns (missing: seq<MissingHandler>)
    ensures missing == Missing(lower, order, rows, files, tbl)
  {
    hide RowsMissing, Chains, Dispatches, DispatchMissing, StableSort;
    var chains := BuildQuestChains(rows);
    missing := [];
    for i := 0 to |chains|
      invariant missing + ChainsMissing(lower, files, tbl, chains[i..]) == ChainsMissing(lower, files, tbl, chains)
    {
      ghost var before := missing;
      var luaKey := lower(chains[i].luaFile);
      if luaKey in files {
        var chainMissing := AnalyzeChain(chains[i], files[luaKey], tbl);
        missing := missing + chainMissing;
      }
      assert chains[i..][1..] == chains[i + 1..];
      Regroup(before, ChainMissing(lower, files, tbl, chains[i]), ChainsMissing(lower, files, tbl, chains[i + 1..]));
    }
    assert missing + [] == missing;
    var dispatch := FindMissingDispatch(lower, order, rows, files);
    missing := missing + dispatch;
  }

  method FirstDispatches(rows: seq<Row>) returns (firsts: seq<Row>)
    ensures firsts == Dispatches(rows)
  {
    firsts := [];
    for i := 0 to |rows|
      invariant firsts == Dispatches(rows[..i])
    {
      var row := rows[i];
      assert rows[..i + 1][..i] == rows[..i] && rows[..i + 1][i] == row;
      if row.trigger != 100 && row.trigger != 190 {
        continue;
      }
      if !SameDispatch(firsts, row) {
        firsts := firsts + [row];
      }
    }
    assert rows[..|rows|] == rows;
  }

  /** `find_missing_dispatch`. */
  method FindMissingDispatch(lower: string -> string, order: (Row, Row) -> bool, rows: seq<Row>, files: LuaFiles)
    returns (missing: seq<MissingHandler>)
    ensures missing == DispatchMissing(lower, files, StableSort(order, Dispatches(rows)))
  {
    hide Dispatches, StableSort;
    var firsts := FirstDispatches(rows);
    var groups := StableSort(order, firsts);
    missing := [];
    for i := 0 to |groups|
      invariant missing + DispatchMissing(lower, files, groups[i..]) == DispatchMissing(lower, files, groups)
    {
      ghost var before := missing;
      var row := groups[i];
      var luaKey := lower(row.luaFile);
      if luaKey in files && row.trigger !in files[luaKey] {
        missing := missing + [MissingHandler(row.npcId, row.luaFile, row.trigger, SearchQuestDispatch(row.npcId), row)];
      }
      assert groups[i..][1..] == groups[i + 1..];
      Regroup(before, DispatchOf(lower, files, row), DispatchMissing(lower, files, groups[i + 1..]));
    }
    assert missing + [] == missing;
  }

  // ------------------------------------------------------------ the one-step closure

  /** The returned events that belong to file `key`. */
  function EventsFor(lower: string -> string, missing: seq<MissingHandler>, key: string): set<int>
  {
    set i | 0 <= i < |missing| && lower(missing[i].luaFile) == key :: missing[i].eventId
  }

  /** Every handler of the list is in its file. */
  ghost predicate AllHandled(lower: string -> string, files: LuaFiles, missing: seq<MissingHandler>)
  {
    forall m :: m in missing && lower(m.luaFile) in files ==> m.eventId in files[lower(m.luaFile)]
  }

  /** Every handler of the list is for a file there is, and is not in that file. */
  ghost predicate AllNew(lower: string -> string, files: LuaFiles, missing: seq<MissingHandler>)
  {
    forall m :: m in missing ==> lower(m.luaFile) in files && m.eventId !in files[lower(m.luaFile)]
  }

  /** The same files, each handling at least as much. */
  ghost predicate Grown(files: LuaFiles, files': LuaFiles)
  {
    files'.Keys == files.Keys && forall key :: key in files ==> files[key] <= files'[key]
  }

  /** The files after adding every returned event to its file. */
  function WithMissing(lower: string -> string, files: LuaFiles, missing: seq<MissingHandler>): LuaFiles
  {
    map key | key in files :: files[key] + EventsFor(lower, missing, key)
  }

  /** What a row asks for is new to the file. */
  lemma RowMissingIsNew(c: Chain, existing: set<int>, tbl: Tables, row: Row)
    ensures forall m :: m in RowMissing(c, existing, tbl, row) ==> m.eventId !in existing && m.luaFile == c.luaFile
  {
  }

  /** When the file has all a row asked for, the row asks for nothing more. */
  lemma RowSatisfied(c: Chain, existing: set<int>, existing': set<int>, tbl: Tables, row: Row)
    requires existing <= existing'
    requires forall m :: m in RowMissing(c, existing, tbl, row) ==> m.eventId in existing'
    ensures RowMissing(c, existing', tbl, row) == []
  {
    hide IsTrigger, Completion, IndexForStatus, IntroIndex;
    var t := row.trigger;
    var own := RowMissing(c, existing, tbl, row);
    if row.status == 1 && row.complete != 0 && row.complete !in existing && !IsTrigger(c, row.complete) {
      assert Need(c, row, row.complete, Completion(c, row)) in own;
    }
    if !IsDispatch(t) && t !in existing && row.status != 255 && 0 <= row.status <= 4 {
      assert own[|own| - 1].eventId == t && own[|own| - 1] in own;
    }
    if !IsDispatch(t) && t !in existing && row.status == 255 && IntroIndex(c).Some? {
      assert own[0].eventId == t && own[0] in own;
    }
  }

  lemma {:induction false} RowsSatisfied(c: Chain, existing: set<int>, existing': set<int>, tbl: Tables, rows: seq<Row>)
    requires existing <= existing'
    requires forall m :: m in RowsMissing(c, existing, tbl, rows) ==> m.eventId in existing'
    ensures RowsMissing(c, existing', tbl, rows) == []
  {
    hide RowMissing;
    if rows != [] {
      RowSatisfied(c, existing, existing', tbl, rows[0]);
      RowsSatisfied(c, existing, existing', tbl, rows[1..]);
    }
  }

  lemma {:induction false} RowsMissingNew(c: Chain, existing: set<int>, tbl: Tables, rows: seq<Row>)
    ensures forall m :: m in RowsMissing(c, existing, tbl, rows) ==> m.eventId !in existing && m.luaFile == c.luaFile
  {
    hide RowMissing;
    if rows != [] {
      RowMissingIsNew(c, existing, tbl, rows[0]);
      RowsMissingNew(c, existing, tbl, rows[1..]);
    }
  }

  lemma {:induction false} ChainsSatisfied(lower: string -> string, files: LuaFiles, files': LuaFiles, tbl: Tables,
      chains: seq<Chain>)
    requires Grown(files, files')
    requires AllHandled(lower, files', ChainsMissing(lower, files, tbl, chains))
    ensures ChainsMissing(lower, files', tbl, chains) == []
  {
    hide RowsMissing;
    if chains != [] {
      var c := chains[0];
      if lower(c.luaFile) in files {
        RowsMissingNew(c, files[lower(c.luaFile)], tbl, c.rows);
        RowsSatisfied(c, files[lower(c.luaFile)], files'[lower(c.luaFile)], tbl, c.rows);
      }
      ChainsSatisfied(lower, files, files', tbl, chains[1..]);
    }
  }

  lemma {:induction false} DispatchSatisfied(lower: string -> string, files: LuaFiles, files': LuaFiles, rows: seq<Row>)
    requires Grown(files, files')
    requires AllHandled(lower, files', DispatchMissing(lower, files, rows))
    ensures DispatchMissing(lower, files', rows) == []
  {
    if rows != [] {
      var own := DispatchOf(lower, files, rows[0]);
      assert own != [] ==> own[0] in own;
      assert forall m :: m in own || m in DispatchMissing(lower, files, rows[1..]) ==>
        m in DispatchMissing(lower, files, rows);
      DispatchSatisfied(lower, files, files', rows[1..]);
    }
  }

  /** Once every returned event is handled in its file, a second analysis returns nothing,
    * whatever else the files have gained. */
  lemma CoveredMeansDone(lower: string -> string, order: (Row, Row) -> bool, rows: seq<Row>, files: LuaFiles,
      files': LuaFiles, tbl: Tables)
    requires Grown(files, files')
    requires AllHandled(lower, files', Missing(lower, order, rows, files, tbl))
    ensures Missing(lower, order, rows, files', tbl) == []
  {
    hide ChainsMissing, DispatchMissing, Chains, Dispatches;
    var a := ChainsMissing(lower, files, tbl, Chains(rows));
    var b := DispatchMissing(lower, files, StableSort(order, Dispatches(rows)));
    assert forall m :: m in a || m in b ==> m in Missing(lower, order, rows, files, tbl);
    ChainsSatisfied(lower, files, files', tbl, Chains(rows));
    DispatchSatisfied(lower, files, files', StableSort(order, Dispatches(rows)));
  }

  /** The analysis is a one-step closure: adding what it returns makes it return nothing. */
  lemma OneStepClosure(lower: string -> string, order: (Row, Row) -> bool, rows: seq<Row>, files: LuaFiles, tbl: Tables)
    ensures Missing(lower, order, rows, WithMissing(lower, files, Missing(lower, order, rows, files, tbl)), tbl) == []
  {
    hide Missing;
    var missing := Missing(lower, order, rows, files, tbl);
    var files' := WithMissing(lower, files, missing);
    forall m | m in missing && lower(m.luaFile) in files
      ensures m.eventId in files'[lower(m.luaFile)]
    {
      var i :| 0 <= i < |missing| && missing[i] == m;
      assert m.eventId in EventsFor(lower, missing, lower(m.luaFile));
    }
    CoveredMeansDone(lower, order, rows, files, files', tbl);
  }

  lemma {:induction false} ChainsMissingNew(lower: string -> string, files: LuaFiles, tbl: Tables, chains: seq<Chain>)
    ensures AllNew(lower, files, ChainsMissing(lower, files, tbl, chains))
  {
    hide RowsMissing;
    if chains != [] {
      var c := chains[0];
      if lower(c.luaFile) in files {
        RowsMissingNew(c, files[lower(c.luaFile)], tbl, c.rows);
      }
      ChainsMissingNew(lower, files, tbl, chains[1..]);
    }
  }

  lemma {:induction false} DispatchMissingNew(lower: string -> string, files: LuaFiles, rows: seq<Row>)
    ensures AllNew(lower, files, DispatchMissing(lower, files, rows))
  {
    if rows != [] {
      DispatchMissingNew(lower, files, rows[1..]);
    }
  }

  /** Nothing returned was handled already, and everything returned belongs to a file there is. */
  lemma MissingIsNew(lower: string -> string, order: (Row, Row) -> bool, rows: seq<Row>, files: LuaFiles, tbl: Tables)
    ensures AllNew(lower, files, Missing(lower, order, rows, files, tbl))
  {
    hide ChainsMissing, DispatchMissing, Chains, Dispatches;
    ChainsMissingNew(lower, files, tbl, Chains(rows));
    DispatchMissingNew(lower, files, StableSort(order, Dispatches(rows)));
  }

  // ------------------------------------------------------------- what the analysis finds

  predicate IsSearch(r: Row) { r.trigger == 100 || r.trigger == 190 }

  /** The trigger of this row needs a handler. */
  predicate Wanted(c: Chain, r: Row)
  {
    !IsDispatch(r.trigger) && (0 <= r.status <= 4 || (r.status == 255 && IntroIndex(c).Some?))
  }

  /** The row's trigger is handled if it has to be, and so is its completion. */
  predicate RowCovered(c: Chain, existing: set<int>, r: Row)
  {
    && (Wanted(c, r) ==> r.trigger in existing)
    && (r.status == 1 && r.complete != 0 ==> r.complete in existing || IsTrigger(c, r.complete))
  }

  ghost predicate ChainCovered(lower: string -> string, files: LuaFiles, c: Chain)
  {
    lower(c.luaFile) in files ==> forall r :: r in c.rows ==> RowCovered(c, files[lower(c.luaFile)], r)
  }

  ghost predicate SearchCovered(lower: string -> string, files: LuaFiles, r: Row)
  {
    lower(r.luaFile) in files ==> r.trigger in files[lower(r.luaFile)]
  }

  lemma RowExactly(c: Chain, existing: set<int>, tbl: Tables, r: Row)
    ensures RowMissing(c, existing, tbl, r) == [] <==> RowCovered(c, existing, r)
  {
    hide IsTrigger, Completion, IndexForStatus, IntroIndex;
    if r.status == 255 {
      assert r.status != 1;
    }
  }

  lemma {:induction false} RowsExactly(c: Chain, existing: set<int>, tbl: Tables, rows: seq<Row>)
    ensures RowsMissing(c, existing, tbl, rows) == [] <==> forall r :: r in rows ==> RowCovered(c, existing, r)
  {
    hide RowMissing, RowCovered;
    if rows != [] {
      RowExactly(c, existing, tbl, rows[0]);
      RowsExactly(c, existing, tbl, rows[1..]);
      assert rows == [rows[0]] + rows[1..];
    }
  }

  lemma {:induction false} ChainsExactly(lower: string -> string, files: LuaFiles, tbl: Tables, chains: seq<Chain>)
    ensures ChainsMissing(lower, files, tbl, chains) == []
      <==> forall c :: c in chains ==> ChainCovered(lower, files, c)
  {
    hide RowsMissing, RowCovered;
    if chains != [] {
      var c := chains[0];
      if lower(c.luaFile) in files {
        RowsExactly(c, files[lower(c.luaFile)], tbl, c.rows);
      }
      ChainsExactly(lower, files, tbl, chains[1..]);
      var own, later := ChainMissing(lower, files, tbl, c), ChainsMissing(lower, files, tbl, chains[1..]);
      assert own == [] <==> ChainCovered(lower, files, c);
      assert own + later == [] <==> |own| + |later| == 0;
      assert chains == [c] + chains[1..];
    }
  }

  lemma {:induction false} DispatchExactly(lower: string -> string, files: LuaFiles, rows: seq<Row>)
    ensures DispatchMissing(lower, files, rows) == [] <==> forall r :: r in rows ==> SearchCovered(lower, files, r)
  {
    if rows != [] {
      DispatchExactly(lower, files, rows[1..]);
      var own, later := DispatchOf(lower, files, rows[0]), DispatchMissing(lower, files, rows[1..]);
      assert own == [] <==> SearchCovered(lower, files, rows[0]);
      assert own + later == [] <==> |own| + |later| == 0;
      assert rows == [rows[0]] + rows[1..];
    }
  }

  /** The first dispatch row of a file and trigger stands for all of them. */
  lemma {:induction false} DispatchesRepresent(rows: seq<Row>)
    ensures forall r :: r in rows && IsSearch(r) ==> SameDispatch(Dispatches(rows), r)
    ensures forall r :: r in Dispatches(rows) ==> r in rows && IsSearch(r)
  {
    if rows != [] {
      var front, last := rows[..|rows| - 1], rows[|rows| - 1];
      DispatchesRepresent(front);
      assert rows == front + [last];
      var more := Dispatches(rows);
      assert more == Dispatches(front) || more == Dispatches(front) + [last];
      forall r | r in rows && IsSearch(r)
        ensures SameDispatch(more, r)
      {
        if r == last && !SameDispatch(Dispatches(front), r) {
          assert last in more;
        } else {
          var d :| d in Dispatches(front) && d.luaFile == r.luaFile && d.trigger == r.trigger;
          assert d in more;
        }
      }
    }
  }

  /** The analysis returns nothing exactly when, in every quest chain whose file is there,
    * each trigger that needs a handler and each completion of an in-progress row has one,
    * and every dispatch row finds its trigger handled. */
  lemma MissingExactly(lower: string -> string, order: (Row, Row) -> bool, rows: seq<Row>, files: LuaFiles, tbl: Tables)
    requires TotalPreorder(order)
    ensures Missing(lower, order, rows, files, tbl) == []
      <==> (&& (forall c :: c in Chains(rows) ==> ChainCovered(lower, files, c))
            && (forall r :: r in rows && IsSearch(r) ==> SearchCovered(lower, files, r)))
  {
    hide ChainsMissing, DispatchMissing, Chains, ChainCovered, Dispatches, StableSort;
    ChainsExactly(lower, files, tbl, Chains(rows));
    DispatchExactly(lower, files, StableSort(order, Dispatches(rows)));
    DispatchesRepresent(rows);
    forall r
      ensures r in StableSort(order, Dispatches(rows)) <==> r in Dispatches(rows)
    {
      SameElements(order, Dispatches(rows), r);
    }
    forall r | r in rows && IsSearch(r) && forall d :: d in Dispatches(rows) ==> SearchCovered(lower, files, d)
      ensures SearchCovered(lower, files, r)
    {
      var d :| d in Dispatches(rows) && d.luaFile == r.luaFile && d.trigger == r.trigger;
    }
  }

  /** The rows of a group, as a filter. */
  lemma {:induction false} RowsOfExactly(rows: seq<Row>, g: Group)
    ensures forall r :: r in RowsOf(rows, g) <==> r in rows && r.questId != 0 && GroupOf(r) == g
  {
    if rows != [] {
      RowsOfExactly(rows[..|rows| - 1], g);
      assert rows == rows[..|rows| - 1] + [rows[|rows| - 1]];
    }
  }

  lemma {:induction false} GroupsExactly(rows: seq<Row>)
    ensures forall g :: g in Groups(rows) <==> exists r :: r in rows && r.questId != 0 && GroupOf(r) == g
    ensures forall i, j :: 0 <= i < j < |Groups(rows)| ==> Groups(rows)[i] != Groups(rows)[j]
  {
    if rows != [] {
      var front, last := rows[..|rows| - 1], rows[|rows| - 1];
      GroupsExactly(front);
      assert rows == front + [last];
      forall g
        ensures g in Groups(rows) <==> exists r :: r in rows && r.questId != 0 && GroupOf(r) == g
      {
        if g in Groups(rows) && g !in Groups(front) {
          assert last in rows && GroupOf(last) == g;
        }
        if g in Groups(front) {
          var r :| r in front && r.questId != 0 && GroupOf(r) == g;
          assert r in rows;
        }
        if r :| r in rows && r.questId != 0 && GroupOf(r) == g {
          assert r in front || r == last;
        }
      }
    }
  }

  /** The chains partition the quest rows: each has the rows of its own NPC and quest, by
    * ascending status and index, and every quest row is in one. */
  lemma ChainsPartition(rows: seq<Row>)
    ensures forall r :: r in rows && r.questId != 0 ==> exists c :: c in Chains(rows) && r in c.rows
    ensures forall c, r :: c in Chains(rows) ==>
      (r in c.rows <==> r in rows && r.questId != 0 && r.npcId == c.npcId && r.questId == c.questId)
    ensures forall c :: c in Chains(rows) ==> c.rows != [] && c.luaFile == c.rows[0].luaFile
    ensures forall c, i, j :: c in Chains(rows) && 0 <= i < j < |c.rows| ==>
      c.rows[i].status < c.rows[j].status
        || (c.rows[i].status == c.rows[j].status && c.rows[i].index <= c.rows[j].index)
  {
    hide Groups, RowsOf, StableSort;
    assert TotalPreorder(GroupLe) && TotalPreorder(RowLe);
    GroupsExactly(rows);
    var gs := StableSort(GroupLe, Groups(rows));
    forall r | r in rows && r.questId != 0
      ensures exists c :: c in Chains(rows) && r in c.rows
    {
      SameElements(GroupLe, Groups(rows), GroupOf(r));
      var i :| 0 <= i < |gs| && gs[i] == GroupOf(r);
      ChainRows(rows, gs[i]);
      assert Chains(rows)[i] in Chains(rows) && r in Chains(rows)[i].rows;
    }
    forall c | c in Chains(rows)
      ensures forall r :: r in c.rows <==> r in rows && r.questId != 0 && GroupOf(r) == (c.npcId, c.questId)
      ensures SortedBy(RowLe, c.rows) && c.rows != [] && c.luaFile == c.rows[0].luaFile
      ensures forall i, j :: 0 <= i < j < |c.rows| ==> RowLe(c.rows[i], c.rows[j])
    {
      var i :| 0 <= i < |gs| && Chains(rows)[i] == c;
      GroupsSorted(Groups(rows), gs[i]);
      var r :| r in rows && r.questId != 0 && GroupOf(r) == gs[i];
      ChainRows(rows, gs[i]);
      assert r in c.rows;
    }
  }

  /** The chains come by ascending NPC and quest, so no two are of the same. */
  lemma ChainsAscend(rows: seq<Row>, i: nat, j: nat)
    requires i < j < |Chains(rows)|
    ensures var a, b := Chains(rows)[i], Chains(rows)[j];
      a.npcId < b.npcId || (a.npcId == b.npcId && a.questId < b.questId)
  {
    hide Groups, RowsOf, StableSort;
    var gs := StableSort(GroupLe, Groups(rows));
    assert TotalPreorder(GroupLe);
    GroupsExactly(rows);
    SortedOnce(GroupLe, Groups(rows), i, j);
    assert (Chains(rows)[i].npcId, Chains(rows)[i].questId) == gs[i];
    assert (Chains(rows)[j].npcId, Chains(rows)[j].questId) == gs[j];
  }

  lemma ChainRows(rows: seq<Row>, g: Group)
    ensures var c := ChainOf(rows, g);
      && (c.npcId, c.questId) == g && SortedBy(RowLe, c.rows)
      && forall r :: r in c.rows <==> r in rows && r.questId != 0 && GroupOf(r) == g
  {
    assert TotalPreorder(RowLe);
    StableSortCorrect(RowLe, RowsOf(rows, g));
    RowsOfExactly(rows, g);
    forall r
      ensures r in ChainOf(rows, g).rows <==> r in RowsOf(rows, g)
    {
      SameElements(RowLe, RowsOf(rows, g), r);
    }
  }

  // ---------------------------------------------------------- what a returned handler is

  /** No row has the status. */
  ghost predicate NoneOf(rows: seq<Row>, status: int) { forall r :: r in rows ==> r.status != status }

  /** The first row of the status has this index. */
  ghost predicate FirstOf(rows: seq<Row>, status: int, index: int)
  {
    exists k :: 0 <= k < |rows| && rows[k].status == status && rows[k].index == index
      && forall k' :: 0 <= k' < k ==> rows[k'].status != status
  }

  /** `save` is the index of the first row of the first status there is, or `own` if there is none. */
  ghost predicate SaveFor(rows: seq<Row>, statuses: seq<int>, own: int, save: int)
  {
    if statuses == [] then save == own
    else if NoneOf(rows, statuses[0]) then SaveFor(rows, statuses[1..], own, save)
    else FirstOf(rows, statuses[0], save)
  }

  /** An event number counted on, as 32-bit integers wrap around. */
  function Plus(e: int, k: int): int { if e + k > 2147483647 then e + k - 4294967296 else e + k }

  /** The trigger of the row is an ordinary event that the file does not handle. */
  predicate Open(existing: set<int>, row: Row) { row.trigger !in {0, 100, 190} && row.trigger !in existing }

  /** Neither the file nor the quest itself has a use for the event. */
  ghost predicate Free(c: Chain, existing: set<int>, e: int)
  {
    e !in existing && forall r :: r in c.rows ==> r.trigger != e
  }

  /** The events that end a task, and that remind of it. */
  function Done(row: Row): int { if row.complete != 0 then row.complete else Plus(row.trigger, 1) }

  function NotDone(row: Row): int
  {
    if row.complete == 0 then Plus(row.trigger, 2) else if row.zone > 0 then Plus(row.trigger, 1) else -1
  }

  /** The row calls for handler `h` of event `e`, for each kind of handler. */
  ghost predicate CallsFor(c: Chain, existing: set<int>, tbl: Tables, row: Row, e: int, h: HandlerType)
  {
    match h
    case IntroAccept(save) =>
      && Open(existing, row) && row.status == 255 && e == row.trigger
      && !(NoneOf(c.rows, 0) && NoneOf(c.rows, 1) && NoneOf(c.rows, 2) && NoneOf(c.rows, 4))
      && SaveFor(c.rows, [0, 1, 2, 4], 0, save)
    case QuestOffer(quest, talk, menu, accept) =>
      && Open(existing, row) && row.status == 0 && e == row.trigger
      && quest == c.questId && talk == row.talk && menu == row.menu && accept == Plus(row.trigger, 1)
    case QuestAccept(save) =>
      && Open(existing, row) && row.status == 0 && e == Plus(row.trigger, 1) && Free(c, existing, e)
      && SaveFor(c.rows, [1, 4], row.index, save)
    case ProgressCheck(quest, talk, exchange, hasMonster, complete, incomplete) =>
      && Open(existing, row) && row.status == 1 && e == row.trigger
      && quest == c.questId && talk == row.talk && exchange == row.exchange
      && (hasMonster <==> c.questId in tbl.monsterQuests) && complete == Done(row) && incomplete == NotDone(row)
    case QuestComplete(quest, exchange, save) =>
      && row.status == 1 && e == Done(row) && (Open(existing, row) || row.complete != 0) && Free(c, existing, e)
      && quest == c.questId && exchange == row.exchange && SaveFor(c.rows, [2, 4], row.index, save)
    case CompletionConfirm(quest, exchange, save) =>
      && Open(existing, row) && row.status == 2 && e == row.trigger
      && quest == c.questId && exchange == row.exchange && SaveFor(c.rows, [4], row.index, save)
    case SubStep(quest, talk) =>
      Open(existing, row) && row.status == 3 && e == row.trigger && quest == c.questId && talk == row.talk
    case QuestDone(quest, talk) =>
      Open(existing, row) && row.status == 4 && e == row.trigger && quest == c.questId && talk == row.talk
    case ShowMap(zone) =>
      && Open(existing, row) && row.status == 1 && e == NotDone(row) && e > 0 && Free(c, existing, e)
      && zone == row.zone
    case SearchQuestDispatch(npc) => false
  }

  /** `m` is what the row calls for. */
  ghost predicate Called(c: Chain, existing: set<int>, tbl: Tables, row: Row, m: MissingHandler)
  {
    && m.npcId == c.npcId && m.luaFile == c.luaFile && m.source == row
    && CallsFor(c, existing, tbl, row, m.eventId, m.handler)
  }

  lemma {:induction false} IndexIsFirst(rows: seq<Row>, status: int)
    ensures IndexForStatus(rows, status).None? <==> NoneOf(rows, status)
    ensures forall index :: IndexForStatus(rows, status) == Some(index) <==> FirstOf(rows, status, index)
  {
    if rows != [] {
      var rest := rows[1..];
      IndexIsFirst(rest, status);
      assert rows == [rows[0]] + rest;
      forall index
        ensures FirstOf(rows, status, index) <==>
          if rows[0].status == status then index == rows[0].index else FirstOf(rest, status, index)
      {
        FirstOfRest(rows[0], rest, status, index);
      }
    }
  }

  lemma FirstOfRest(first: Row, rest: seq<Row>, status: int, index: int)
    ensures FirstOf([first] + rest, status, index) <==>
      if first.status == status then index == first.index else FirstOf(rest, status, index)
  {
    var rows := [first] + rest;
    if FirstOf(rows, status, index) {
      var k :| 0 <= k < |rows| && rows[k].status == status && rows[k].index == index
        && forall k' :: 0 <= k' < k ==> rows[k'].status != status;
      if first.status == status {
        assert rows[0] == first;
      } else {
        assert rest[k - 1] == rows[k];
        assert forall k' :: 0 <= k' < k - 1 ==> rest[k'] == rows[k' + 1];
      }
    }
    if first.status != status && FirstOf(rest, status, index) {
      var k :| 0 <= k < |rest| && rest[k].status == status && rest[k].index == index
        && forall k' :: 0 <= k' < k ==> rest[k'].status != status;
      assert rows[k + 1] == rest[k];
      assert forall k' :: 0 <= k' < k + 1 ==> rows[k'] == if k' == 0 then first else rest[k' - 1];
    }
    if first.status == status {
      assert rows[0] == first;
    }
  }

  /** The index saved, as the code looks it up. */
  lemma SaveForIs(rows: seq<Row>, own: I32, save: I32)
    ensures SaveFor(rows, [4], own, save) <==> save == GetOr(IndexForStatus(rows, 4), own)
    ensures SaveFor(rows, [1, 4], own, save) <==>
      save == GetOr(IndexForStatus(rows, 1), GetOr(IndexForStatus(rows, 4), own))
    ensures SaveFor(rows, [2, 4], own, save) <==>
      save == GetOr(IndexForStatus(rows, 2), GetOr(IndexForStatus(rows, 4), own))
  {
    hide FirstOf, NoneOf, IndexForStatus;
    IndexIsFirst(rows, 1);
    IndexIsFirst(rows, 2);
    IndexIsFirst(rows, 4);
    SaveForStep(rows, 1, [4], own, save);
    SaveForStep(rows, 2, [4], own, save);
    SaveForStep(rows, 4, [], own, save);
  }

  lemma SaveForStep(rows: seq<Row>, status: int, others: seq<int>, own: int, save: int)
    ensures SaveFor(rows, [status] + others, own, save) <==>
      if NoneOf(rows, status) then SaveFor(rows, others, own, save) else FirstOf(rows, status, save)
  {
    hide NoneOf, FirstOf;
    assert ([status] + others)[1..] == others;
  }

  lemma IntroIs(c: Chain, save: I32)
    ensures IntroIndex(c) == Some(save) <==>
      && !(NoneOf(c.rows, 0) && NoneOf(c.rows, 1) && NoneOf(c.rows, 2) && NoneOf(c.rows, 4))
      && SaveFor(c.rows, [0, 1, 2, 4], 0, save)
  {
    hide FirstOf, NoneOf, IndexForStatus;
    IndexIsFirst(c.rows, 0);
    IndexIsFirst(c.rows, 1);
    IndexIsFirst(c.rows, 2);
    IndexIsFirst(c.rows, 4);
    SaveForStep(c.rows, 0, [1, 2, 4], 0, save);
    SaveForStep(c.rows, 1, [2, 4], 0, save);
    SaveForStep(c.rows, 2, [4], 0, save);
    SaveForStep(c.rows, 4, [], 0, save);
  }

  lemma FreeIs(c: Chain, existing: set<int>, e: int)
    ensures Free(c, existing, e) <==> !(e in existing || IsTrigger(c, e))
  {
  }

  /** What the code looks up for a handler, in the words of `CallsFor`. */
  ghost predicate LookedUp(c: Chain, existing: set<int>, row: Row, m: MissingHandler)
  {
    && (Free(c, existing, m.eventId) <==> !(m.eventId in existing || IsTrigger(c, m.eventId)))
    && match m.handler
       case IntroAccept(save) =>
         IntroIndex(c) == Some(save) <==>
           && !(NoneOf(c.rows, 0) && NoneOf(c.rows, 1) && NoneOf(c.rows, 2) && NoneOf(c.rows, 4))
           && SaveFor(c.rows, [0, 1, 2, 4], 0, save)
       case QuestAccept(save) => SaveFor(c.rows, [1, 4], row.index, save) <==>
         save == GetOr(IndexForStatus(c.rows, 1), GetOr(IndexForStatus(c.rows, 4), row.index))
       case QuestComplete(_, _, save) => SaveFor(c.rows, [2, 4], row.index, save) <==> save == SaveIndex(c, row)
       case CompletionConfirm(_, _, save) =>
         SaveFor(c.rows, [4], row.index, save) <==> save == GetOr(IndexForStatus(c.rows, 4), row.index)
       case _ => true
  }

  lemma LookUp(c: Chain, existing: set<int>, row: Row, m: MissingHandler)
    ensures LookedUp(c, existing, row, m)
  {
    hide SaveFor, NoneOf, FirstOf, IndexForStatus, IntroIndex, Free, IsTrigger;
    FreeIs(c, existing, m.eventId);
    match m.handler
    case IntroAccept(save) => IntroIs(c, save);
    case QuestAccept(save) => SaveForIs(c.rows, row.index, save);
    case QuestComplete(_, _, save) => SaveForIs(c.rows, row.index, save);
    case CompletionConfirm(_, _, save) => SaveForIs(c.rows, row.index, save);
    case _ =>
  }

  lemma HandledRowCalled(c: Chain, existing: set<int>, tbl: Tables, row: Row, m: MissingHandler)
    requires !Open(existing, row) && LookedUp(c, existing, row, m)
    ensures m in RowMissing(c, existing, tbl, row) <==> Called(c, existing, tbl, row, m)
  {
    hide SaveFor, NoneOf, FirstOf, IndexForStatus, IntroIndex, Free, IsTrigger, SaveIndex;
  }

  lemma ProgressRowCalled(c: Chain, existing: set<int>, tbl: Tables, row: Row, m: MissingHandler)
    requires Open(existing, row) && row.status == 1 && LookedUp(c, existing, row, m)
    ensures m in RowMissing(c, existing, tbl, row) <==> Called(c, existing, tbl, row, m)
  {
    hide SaveFor, NoneOf, FirstOf, IndexForStatus, IntroIndex, Free, IsTrigger, SaveIndex;
  }

  lemma OtherRowCalled(c: Chain, existing: set<int>, tbl: Tables, row: Row, m: MissingHandler)
    requires Open(existing, row) && row.status != 1 && LookedUp(c, existing, row, m)
    ensures m in RowMissing(c, existing, tbl, row) <==> Called(c, existing, tbl, row, m)
  {
    hide SaveFor, NoneOf, FirstOf, IndexForStatus, IntroIndex, Free, IsTrigger, SaveIndex;
  }

  /** A row's own handler, and its secondary ones, are exactly those it calls for. */
  lemma RowExactlyCalled(c: Chain, existing: set<int>, tbl: Tables, row: Row, m: MissingHandler)
    ensures m in RowMissing(c, existing, tbl, row) <==> Called(c, existing, tbl, row, m)
  {
    hide LookedUp, RowMissing, Called;
    LookUp(c, existing, row, m);
    if !Open(existing, row) {
      HandledRowCalled(c, existing, tbl, row, m);
    } else if row.status == 1 {
      ProgressRowCalled(c, existing, tbl, row, m);
    } else {
      OtherRowCalled(c, existing, tbl, row, m);
    }
  }

  lemma {:induction false} RowsExactlyCalled(c: Chain, existing: set<int>, tbl: Tables, rows: seq<Row>,
      m: MissingHandler)
    ensures m in RowsMissing(c, existing, tbl, rows) <==> m.source in rows && Called(c, existing, tbl, m.source, m)
  {
    hide RowMissing, CallsFor;
    if rows != [] {
      RowExactlyCalled(c, existing, tbl, rows[0], m);
      RowsExactlyCalled(c, existing, tbl, rows[1..], m);
      assert rows == [rows[0]] + rows[1..];
    }
  }

  /** A row of a chain whose file is there calls for the handler. */
  ghost predicate CalledByChain(lower: string -> string, files: LuaFiles, tbl: Tables, c: Chain, m: MissingHandler)
  {
    && lower(c.luaFile) in files && m.source in c.rows
    && Called(c, files[lower(c.luaFile)], tbl, m.source, m)
  }

  lemma {:induction false} ChainsExactlyCalled(lower: string -> string, files: LuaFiles, tbl: Tables,
      chains: seq<Chain>, m: MissingHandler)
    ensures m in ChainsMissing(lower, files, tbl, chains)
      <==> exists c :: c in chains && CalledByChain(lower, files, tbl, c, m)
  {
    hide RowsMissing, Called;
    if chains != [] {
      var c := chains[0];
      if lower(c.luaFile) in files {
        RowsExactlyCalled(c, files[lower(c.luaFile)], tbl, c.rows, m);
      }
      ChainsExactlyCalled(lower, files, tbl, chains[1..], m);
      assert m in ChainMissing(lower, files, tbl, c) <==> CalledByChain(lower, files, tbl, c, m);
      assert chains == [c] + chains[1..];
    }
  }

  /** The row is the first of its file and trigger. */
  ghost predicate FirstSearch(rows: seq<Row>, r: Row)
  {
    exists k :: 0 <= k < |rows| && rows[k] == r
      && forall k' :: 0 <= k' < k ==> rows[k'].luaFile != r.luaFile || rows[k'].trigger != r.trigger
  }

  lemma {:induction false} DispatchesFirst(rows: seq<Row>, r: Row)
    ensures r in Dispatches(rows) <==> r.trigger in {100, 190} && FirstSearch(rows, r)
  {
    if rows != [] {
      var front, last := rows[..|rows| - 1], rows[|rows| - 1];
      DispatchesFirst(front, r);
      DispatchesRepresent(front);
      FirstSearchMore(front, last, r);
      assert rows == front + [last];
      if r == last && IsSearch(last) {
        assert SameDispatch(Dispatches(front), last) <==> SameDispatch(front, last) by {
          if SameDispatch(front, last) {
            var x :| x in front && x.luaFile == last.luaFile && x.trigger == last.trigger;
            assert SameDispatch(Dispatches(front), x);
          }
        }
      }
    }
  }

  lemma FirstSearchMore(front: seq<Row>, last: Row, r: Row)
    ensures FirstSearch(front + [last], r) <==> FirstSearch(front, r) || (r == last && !SameDispatch(front, last))
  {
    var rows := front + [last];
    assert forall k :: 0 <= k < |front| ==> rows[k] == front[k];
    if FirstSearch(rows, r) {
      var k :| 0 <= k < |rows| && rows[k] == r
        && forall k' :: 0 <= k' < k ==> rows[k'].luaFile != r.luaFile || rows[k'].trigger != r.trigger;
      if k < |front| {
        assert front[k] == r;
      }
    }
    if r == last && !SameDispatch(front, last) {
      assert rows[|front|] == r;
      assert forall k :: 0 <= k < |front| ==> front[k] in front;
    }
  }

  /** A first dispatch row calls for the search of its NPC. */
  ghost predicate CalledBySearch(lower: string -> string, files: LuaFiles, rows: seq<Row>, m: MissingHandler)
  {
    var r := m.source;
    && r.trigger in {100, 190} && FirstSearch(rows, r)
    && lower(r.luaFile) in files && r.trigger !in files[lower(r.luaFile)]
    && m == MissingHandler(r.npcId, r.luaFile, r.trigger, SearchQuestDispatch(r.npcId), r)
  }

  lemma {:induction false} DispatchExactlyCalled(lower: string -> string, files: LuaFiles, rows: seq<Row>,
      m: MissingHandler)
    ensures m in DispatchMissing(lower, files, rows) <==> m.source in rows && m in DispatchOf(lower, files, m.source)
  {
    if rows != [] {
      DispatchExactlyCalled(lower, files, rows[1..], m);
      assert rows == [rows[0]] + rows[1..];
    }
  }

  /** The handlers returned are exactly those that rows of the quest chains, and the first dispatch
    * rows of a file, call for. */
  lemma HandlersExactly(lower: string -> string, order: (Row, Row) -> bool, rows: seq<Row>, files: LuaFiles,
      tbl: Tables, m: MissingHandler)
    requires TotalPreorder(order)
    ensures m in Missing(lower, order, rows, files, tbl) <==>
      || (exists c :: c in Chains(rows) && CalledByChain(lower, files, tbl, c, m))
      || CalledBySearch(lower, files, rows, m)
  {
    hide ChainsMissing, DispatchMissing, Chains, Dispatches, StableSort, CalledByChain, FirstSearch;
    ChainsExactlyCalled(lower, files, tbl, Chains(rows), m);
    DispatchExactlyCalled(lower, files, StableSort(order, Dispatches(rows)), m);
    SameElements(order, Dispatches(rows), m.source);
    DispatchesFirst(rows, m.source);
  }

  // ------------------------------------------------------------- where the handlers lead

  /** The events that a handler's buttons lead to. */
  function Targets(h: HandlerType): set<int>
  {
    match h
    case QuestOffer(_, _, _, accept) => {accept}
    case ProgressCheck(_, _, _, _, complete, incomplete) =>
      if incomplete > 0 then {complete, incomplete} else {complete}
    case _ => {}
  }

  /** Someone takes the event up: the file, the quest, or another returned handler of the file. */
  ghost predicate TakenUp(rows: seq<Row>, existing: set<int>, missing: seq<MissingHandler>, m: MissingHandler, e: int)
  {
    || e in existing
    || (exists r :: r in rows && r.npcId == m.source.npcId && r.questId == m.source.questId && r.trigger == e)
    || (exists m' :: m' in missing && m'.luaFile == m.luaFile && m'.eventId == e)
  }

  /** A handler of the row leads only to events that its file, its quest or the row takes up. */
  lemma RowLeadsOn(c: Chain, existing: set<int>, tbl: Tables, row: Row, m: MissingHandler, e: int)
    requires Called(c, existing, tbl, row, m) && e in Targets(m.handler)
    ensures Free(c, existing, e) ==>
      exists m' :: m' in RowMissing(c, existing, tbl, row) && m'.luaFile == c.luaFile && m'.eventId == e
  {
    hide SaveFor, IntroIndex, IndexForStatus, Free, IsTrigger, Completion;
    FreeIs(c, existing, e);
    if Free(c, existing, e) {
      var own := RowMissing(c, existing, tbl, row);
      if m.handler.QuestOffer? {
        assert own[0].eventId == e;
        assert own[0] in own;
      } else if e == Done(row) {
        assert own[0].eventId == e;
        assert own[0] in own;
      } else {
        var k := |own| - 2;
        assert own[k].eventId == e && own[k] in own;
      }
    }
  }

  lemma {:induction false} RowAmongRows(c: Chain, existing: set<int>, tbl: Tables, rows: seq<Row>, row: Row)
    requires row in rows
    ensures forall m :: m in RowMissing(c, existing, tbl, row) ==> m in RowsMissing(c, existing, tbl, rows)
  {
    hide RowMissing;
    if row != rows[0] {
      RowAmongRows(c, existing, tbl, rows[1..], row);
    }
  }

  lemma {:induction false} ChainAmongChains(lower: string -> string, files: LuaFiles, tbl: Tables, chains: seq<Chain>,
      c: Chain)
    requires c in chains
    ensures forall m :: m in ChainMissing(lower, files, tbl, c) ==> m in ChainsMissing(lower, files, tbl, chains)
  {
    hide ChainMissing;
    if c != chains[0] {
      ChainAmongChains(lower, files, tbl, chains[1..], c);
    }
  }

  /** No button leads nowhere: every event that a returned handler leads to is handled in its file,
    * is a trigger of its quest, or is the event of another handler returned for the file. */
  lemma ButtonsLeadOn(lower: string -> string, order: (Row, Row) -> bool, rows: seq<Row>, files: LuaFiles, tbl: Tables,
      m: MissingHandler, e: int)
    requires TotalPreorder(order) && m in Missing(lower, order, rows, files, tbl) && e in Targets(m.handler)
    ensures lower(m.luaFile) in files
    ensures TakenUp(rows, files[lower(m.luaFile)], Missing(lower, order, rows, files, tbl), m, e)
  {
    hide Missing, Chains, CalledByChain, TakenUp, Targets;
    HandlersExactly(lower, order, rows, files, tbl, m);
    SearchLeadsNowhere(lower, files, rows, m, e);
    var c :| c in Chains(rows) && CalledByChain(lower, files, tbl, c, m);
    ChainLeadsOn(lower, order, rows, files, tbl, c, m, e);
  }

  lemma SearchLeadsNowhere(lower: string -> string, files: LuaFiles, rows: seq<Row>, m: MissingHandler, e: int)
    requires e in Targets(m.handler)
    ensures !CalledBySearch(lower, files, rows, m)
  {
  }

  lemma ChainLeadsOn(lower: string -> string, order: (Row, Row) -> bool, rows: seq<Row>, files: LuaFiles, tbl: Tables,
      c: Chain, m: MissingHandler, e: int)
    requires c in Chains(rows) && CalledByChain(lower, files, tbl, c, m) && e in Targets(m.handler)
    ensures lower(m.luaFile) in files
    ensures TakenUp(rows, files[lower(m.luaFile)], Missing(lower, order, rows, files, tbl), m, e)
  {
    hide ChainsMissing, DispatchMissing, Chains, StableSort, RowsMissing, RowMissing, CallsFor, Dispatches, Targets;
    var existing := files[lower(c.luaFile)];
    ChainsPartition(rows);
    RowLeadsOn(c, existing, tbl, m.source, m, e);
    RowAmongRows(c, existing, tbl, c.rows, m.source);
    ChainAmongChains(lower, files, tbl, Chains(rows), c);
  }
}
