/** The dialog builder: menus and clicks from a trace of events, and the event ids of the
  * script it prints. */
module DialogBuilder {
  import opened DialogMonitor
  import opened Sequences
  import opened Wrappers

  // --------------------------------------------------------------------- the trace

  /** What an event is: a click or the start of a dialog from the client, a menu or some
    * other answer from the server. */
  datatype Kind = Shows(menu: Menu) | Click(button: nat) | NpcEvent | Answer(name: string)

  datatype Event = Event(lua: string, kind: Kind)

  datatype ClickResponse = ClickResponse(menu: Menu, button: nat, response: string, target: Option<Menu>)

  /** The data of one script; menus are kept in the order of their first appearance. */
  datatype Npc = Npc(menus: seq<Menu>, clicks: seq<ClickResponse>, roots: seq<Menu>)

  datatype State = State(npcs: map<string, Npc>, active: map<string, Menu>)

  const WINDOW: nat := 30

  predicate IsAnswer(name: string)
  {
    name in {"QUEST", "SHOP", "EXCHANGE", "DISASSEMBLE", "SPECIAL_UI", "WARP", "MALL"}
  }

  /** The answer that events from `j` on give to a click of `lua`. */
  function ResponseFrom(events: seq<Event>, j: nat, limit: nat, lua: string): (string, Option<Menu>)
    decreases limit - j
  {
    if j >= limit || j >= |events| then ("CLOSE", None)
    else
      match events[j].kind
      case Click(_) | NpcEvent => ("CLOSE", None)
      case Shows(menu) => if events[j].lua == lua then ("MENU", Some(menu)) else ("CLOSE", None)
      case Answer(name) => if IsAnswer(name) then (name, None) else ResponseFrom(events, j + 1, limit, lua)
  }

  function Limit(events: seq<Event>, i: nat): nat { if i + WINDOW < |events| then i + WINDOW else |events| }

  /** `_find_response`. */
  method FindResponse(events: seq<Event>, i: nat, lua: string) returns (r: (string, Option<Menu>))
    requires i < |events|
    ensures r == ResponseFrom(events, i + 1, Limit(events, i), lua)
  {
    var limit := Limit(events, i);
    var j := i + 1;
    while j < limit
      invariant i + 1 <= j
      invariant ResponseFrom(events, j, limit, lua) == ResponseFrom(events, i + 1, limit, lua)
    {
      match events[j].kind
      case Click(_) | NpcEvent => return ("CLOSE", None);
      case Shows(menu) =>
        if events[j].lua == lua {
          return ("MENU", Some(menu));
        }
        return ("CLOSE", None);
      case Answer(name) =>
        if IsAnswer(name) {
          return (name, None);
        }
      j := j + 1;
    }
    return ("CLOSE", None);
  }

  function Sigs(menus: seq<Menu>): (sigs: seq<string>)
    ensures |sigs| == |menus|
  {
    seq(|menus|, i requires 0 <= i < |menus| => menus[i].sig)
  }

  /** Storing a menu under its signature in an insertion-ordered dictionary. */
  function PutMenu(menus: seq<Menu>, m: Menu): seq<Menu>
  {
    if menus == [] then [m]
    else if menus[0].sig == m.sig then [m] + menus[1..]
    else [menus[0]] + PutMenu(menus[1..], m)
  }

  function NpcOf(st: State, lua: string): Npc { if lua in st.npcs then st.npcs[lua] else Npc([], [], []) }

  predicate AfterNpcEvent(events: seq<Event>, i: nat) { 0 < i <= |events| && events[i - 1].kind.NpcEvent? }

  function Shown(st: State, lua: string, menu: Menu, afterNpcEvent: bool): State
  {
    var npc := NpcOf(st, lua);
    var roots := if afterNpcEvent && menu.sig !in Sigs(npc.roots) then npc.roots + [menu] else npc.roots;
    State(st.npcs[lua := Npc(PutMenu(npc.menus, menu), npc.clicks, roots)], st.active[lua := menu])
  }

  /** Event `i` is a click in a menu of the script. */
  function Clicked(events: seq<Event>, i: nat, st: State, lua: string, button: nat): State
  {
    if lua == "" || lua !in st.active then st else
      var npc := NpcOf(st, lua);
      var (response, target) := ResponseFrom(events, i + 1, Limit(events, i), lua);
      var click := ClickResponse(st.active[lua], button, response, target);
      State(st.npcs[lua := npc.(clicks := npc.clicks + [click])],
            if target.Some? then st.active[lua := target.value] else st.active)
  }

  /** The state after the first `i` events. */
  function After(events: seq<Event>, i: nat): State
  {
    if i == 0 then State(map[], map[])
    else
      var st := After(events, i - 1);
      if i > |events| then st
      else
        var evt := events[i - 1];
        match evt.kind
        case Shows(menu) => Shown(st, evt.lua, menu, AfterNpcEvent(events, i - 1))
        case Click(button) => Clicked(events, i - 1, st, evt.lua, button)
        case _ => st
  }

  method StoreMenu(menus: seq<Menu>, m: Menu) returns (r: seq<Menu>)
    ensures r == PutMenu(menus, m)
  {
    var kept: seq<Menu> := [];
    for i := 0 to |menus|
      invariant kept == menus[..i]
      invariant kept + PutMenu(menus[i..], m) == PutMenu(menus, m)
    {
      assert menus[i..][1..] == menus[i + 1..];
      if menus[i].sig == m.sig {
        return kept + ([m] + menus[i + 1..]);
      }
      Regroup(kept, [menus[i]], PutMenu(menus[i + 1..], m));
      kept := kept + [menus[i]];
    }
    return kept + [m];
  }

  /** `build_npc_data`. */
  method BuildNpcData(events: seq<Event>) returns (npcs: map<string, Npc>)
    ensures npcs == After(events, |events|).npcs
  {
    hide ResponseFrom, PutMenu, Sigs;
    npcs := map[];
    var activeMenu: map<string, Menu> := map[];
    for i := 0 to |events|
      invariant State(npcs, activeMenu) == After(events, i)
    {
      var evt := events[i];
      var npc := NpcOf(State(npcs, activeMenu), evt.lua);
      match evt.kind
      case Shows(menu) =>
        var menus := StoreMenu(npc.menus, menu);
        activeMenu := activeMenu[evt.lua := menu];
        var roots := npc.roots;
        if i > 0 && events[i - 1].kind.NpcEvent? && menu.sig !in Sigs(roots) {
          roots := roots + [menu];
        }
        npcs := npcs[evt.lua := Npc(menus, npc.clicks, roots)];
      case Click(button) =>
        if evt.lua == "" || evt.lua !in activeMenu {
          continue;
        }
        var resp := FindResponse(events, i, evt.lua);
        var click := ClickResponse(activeMenu[evt.lua], button, resp.0, resp.1);
        npcs := npcs[evt.lua := npc.(clicks := npc.clicks + [click])];
        if resp.1.Some? {
          activeMenu := activeMenu[evt.lua := resp.1.value];
        }
      case _ =>
    }
  }

  // ---------------------------------------------------------- closure of the dialog graph

  /** Some event before `n` shows a menu of that signature for the script. */
  ghost predicate ShownBefore(events: seq<Event>, n: nat, lua: string, sig: string)
  {
    exists j :: 0 <= j < n && j < |events| && events[j].lua == lua && events[j].kind.Shows?
      && events[j].kind.menu.sig == sig
  }

  ghost predicate Distinct(s: seq<string>) { forall i, j :: 0 <= i < j < |s| ==> s[i] != s[j] }

  /** Everything a script's data mention is shown somewhere in the trace. */
  ghost predicate Mentions(events: seq<Event>, lua: string, npc: Npc)
  {
    && (forall c :: c in npc.clicks ==> ShownBefore(events, |events|, lua, c.menu.sig))
    && (forall c :: c in npc.clicks ==> (c.response == "MENU" <==> c.target.Some?))
    && (forall c :: c in npc.clicks && c.target.Some? ==> ShownBefore(events, |events|, lua, c.target.value.sig))
  }

  /** The menus kept so far are those shown so far, once each, and the roots are among them. */
  ghost predicate Keeps(events: seq<Event>, i: nat, lua: string, npc: Npc)
  {
    && (forall sig :: sig in Sigs(npc.menus) <==> ShownBefore(events, i, lua, sig))
    && Distinct(Sigs(npc.menus)) && Distinct(Sigs(npc.roots))
    && (forall sig :: sig in Sigs(npc.roots) ==> sig in Sigs(npc.menus))
  }

  ghost predicate Sound(events: seq<Event>, i: nat, st: State)
  {
    && (forall lua :: Keeps(events, i, lua, NpcOf(st, lua)) && Mentions(events, lua, NpcOf(st, lua)))
    && (forall lua :: lua in st.active ==> ShownBefore(events, |events|, lua, st.active[lua].sig))
  }

  lemma SigsOfFirst(m: Menu, rest: seq<Menu>)
    ensures Sigs([m] + rest) == [m.sig] + Sigs(rest)
  {
  }

  lemma {:induction false} PutSigs(menus: seq<Menu>, m: Menu)
    ensures Sigs(PutMenu(menus, m)) == if m.sig in Sigs(menus) then Sigs(menus) else Sigs(menus) + [m.sig]
  {
    assert menus == [] ==> Sigs(menus) == [] && Sigs([m]) == [m.sig];
    hide Sigs;
    if menus != [] {
      PutSigs(menus[1..], m);
      assert menus == [menus[0]] + menus[1..];
      SigsOfFirst(menus[0], menus[1..]);
      SigsOfFirst(m, menus[1..]);
      SigsOfFirst(menus[0], PutMenu(menus[1..], m));
      assert [menus[0].sig] + (Sigs(menus[1..]) + [m.sig]) == ([menus[0].sig] + Sigs(menus[1..])) + [m.sig];
    }
  }

  lemma ShownMore(events: seq<Event>, i: nat, lua: string, sig: string)
    requires i < |events|
    ensures ShownBefore(events, i + 1, lua, sig)
      <==> (ShownBefore(events, i, lua, sig)
        || (events[i].lua == lua && events[i].kind.Shows? && events[i].kind.menu.sig == sig))
  {
  }

  lemma {:induction false} ResponseIsShown(events: seq<Event>, j: nat, limit: nat, lua: string)
    ensures var r := ResponseFrom(events, j, limit, lua);
      && (r.0 == "MENU" <==> r.1.Some?) && (r.1.Some? ==> ShownBefore(events, |events|, lua, r.1.value.sig))
    decreases limit - j
  {
    if j < limit && j < |events| && events[j].kind.Answer? && !IsAnswer(events[j].kind.name) {
      ResponseIsShown(events, j + 1, limit, lua);
    }
  }

  lemma DistinctMore(s: seq<string>, x: string)
    requires Distinct(s) && x !in s
    ensures Distinct(s + [x])
  {
  }

  lemma ShownKeeps(events: seq<Event>, i: nat, st: State, menu: Menu, lua: string)
    requires i < |events| && events[i].kind == Shows(menu)
    requires Keeps(events, i, lua, NpcOf(st, lua))
    ensures Keeps(events, i + 1, lua, NpcOf(Shown(st, events[i].lua, menu, AfterNpcEvent(events, i)), lua))
  {
    hide ShownBefore, Sigs, PutMenu;
    var npc, npc' := NpcOf(st, lua), NpcOf(Shown(st, events[i].lua, menu, AfterNpcEvent(events, i)), lua);
    forall sig
      ensures ShownBefore(events, i + 1, lua, sig)
        <==> ShownBefore(events, i, lua, sig) || (events[i].lua == lua && menu.sig == sig)
    {
      ShownMore(events, i, lua, sig);
    }
    if events[i].lua == lua {
      PutSigs(npc.menus, menu);
      SigsOfLast(npc.roots, menu);
      if menu.sig !in Sigs(npc.menus) {
        DistinctMore(Sigs(npc.menus), menu.sig);
      }
      if menu.sig !in Sigs(npc.roots) {
        DistinctMore(Sigs(npc.roots), menu.sig);
      }
    }
  }

  lemma SigsOfLast(menus: seq<Menu>, m: Menu)
    ensures Sigs(menus + [m]) == Sigs(menus) + [m.sig]
  {
  }

  lemma OtherKeeps(events: seq<Event>, i: nat, lua: string, npc: Npc, npc': Npc)
    requires i < |events| && !events[i].kind.Shows? && npc'.menus == npc.menus && npc'.roots == npc.roots
    requires Keeps(events, i, lua, npc)
    ensures Keeps(events, i + 1, lua, npc')
  {
    hide ShownBefore, Sigs;
    forall sig
      ensures ShownBefore(events, i + 1, lua, sig) <==> ShownBefore(events, i, lua, sig)
    {
      ShownMore(events, i, lua, sig);
    }
  }

  lemma ClickedSound(events: seq<Event>, i: nat, st: State, button: nat)
    requires i < |events| && events[i].kind == Click(button) && Sound(events, i, st)
    ensures Sound(events, i + 1, Clicked(events, i, st, events[i].lua, button))
  {
    hide ShownBefore, Keeps, ResponseFrom;
    var st' := Clicked(events, i, st, events[i].lua, button);
    var lua := events[i].lua;
    ResponseIsShown(events, i + 1, Limit(events, i), lua);
    forall l
      ensures Keeps(events, i + 1, l, NpcOf(st', l)) && Mentions(events, l, NpcOf(st', l))
    {
      OtherKeeps(events, i, l, NpcOf(st, l), NpcOf(st', l));
    }
  }

  lemma ShownSound(events: seq<Event>, i: nat, st: State, menu: Menu)
    requires i < |events| && events[i].kind == Shows(menu) && Sound(events, i, st)
    ensures Sound(events, i + 1, Shown(st, events[i].lua, menu, AfterNpcEvent(events, i)))
  {
    hide Keeps, PutMenu, Sigs;
    var st' := Shown(st, events[i].lua, menu, AfterNpcEvent(events, i));
    assert ShownBefore(events, |events|, events[i].lua, menu.sig);
    forall l
      ensures Keeps(events, i + 1, l, NpcOf(st', l)) && Mentions(events, l, NpcOf(st', l))
    {
      ShownKeeps(events, i, st, menu, l);
      assert NpcOf(st', l).clicks == NpcOf(st, l).clicks;
    }
  }

  lemma {:induction false} AfterSound(events: seq<Event>, i: nat)
    requires i <= |events|
    ensures Sound(events, i, After(events, i))
  {
    hide Shown, Clicked, Keeps;
    if i == 0 {
      NothingShown(events);
    } else {
      AfterSound(events, i - 1);
      var st := After(events, i - 1);
      match events[i - 1].kind
      case Shows(menu) => ShownSound(events, i - 1, st, menu);
      case Click(button) => ClickedSound(events, i - 1, st, button);
      case _ =>
        forall l
          ensures Keeps(events, i, l, NpcOf(st, l))
        {
          OtherKeeps(events, i - 1, l, NpcOf(st, l), NpcOf(st, l));
        }
    }
  }

  lemma NothingShown(events: seq<Event>)
    ensures Sound(events, 0, State(map[], map[]))
  {
  }

  /** The menus of a finished trace, exactly: one for each signature shown for the script.
    * Every click was made in one of them, and every menu it led to is one of them. */
  lemma GraphIsClosed(events: seq<Event>, lua: string)
    ensures var npc := NpcOf(After(events, |events|), lua);
      && (forall sig :: sig in Sigs(npc.menus) <==> ShownBefore(events, |events|, lua, sig))
      && Distinct(Sigs(npc.menus)) && Distinct(Sigs(npc.roots))
      && (forall sig :: sig in Sigs(npc.roots) ==> sig in Sigs(npc.menus))
      && (forall c :: c in npc.clicks ==> c.menu.sig in Sigs(npc.menus) && (c.response == "MENU" <==> c.target.Some?))
      && (forall c :: c in npc.clicks && c.target.Some? ==> c.target.value.sig in Sigs(npc.menus))
  {
    hide After, Sigs, ShownBefore;
    AfterSound(events, |events|);
    var npc := NpcOf(After(events, |events|), lua);
    assert Keeps(events, |events|, lua, npc) && Mentions(events, lua, npc);
  }

  // --------------------------------------------- the recorded clicks, read off the trace

  /** An answer that says nothing about a dialog. */
  predicate Ignored(e: Event)
  {
    e.kind.Answer? && e.kind.name !in {"QUEST", "SHOP", "EXCHANGE", "DISASSEMBLE", "SPECIAL_UI", "WARP", "MALL"}
  }

  /** Event `j` settles click `i`: it is the first of the next 29 that is not ignored. */
  ghost predicate Settles(events: seq<Event>, i: nat, j: nat)
  {
    i < j < |events| && j < i + 30 && !Ignored(events[j]) && forall k :: i < k < j ==> Ignored(events[k])
  }

  /** The answer to click `i` of a script, by what settles it: a menu of the same script, one of the
    * seven services, and otherwise the dialog was closed. */
  ghost predicate Answers(events: seq<Event>, i: nat, lua: string, response: string, target: Option<Menu>)
  {
    && response in {"MENU", "QUEST", "SHOP", "EXCHANGE", "DISASSEMBLE", "SPECIAL_UI", "WARP", "MALL", "CLOSE"}
    && (response == "MENU" <==> target.Some?)
    && (forall m :: target == Some(m) <==> exists j: nat :: Settles(events, i, j) && events[j] == Event(lua, Shows(m)))
    && (forall name :: name in {"QUEST", "SHOP", "EXCHANGE", "DISASSEMBLE", "SPECIAL_UI", "WARP", "MALL"} ==>
          (response == name <==> exists j: nat :: Settles(events, i, j) && events[j].kind == Answer(name)))
  }

  /** Some event before `i` shows a menu of the script. */
  ghost predicate ShownEarlier(events: seq<Event>, i: nat, lua: string)
  {
    exists k :: 0 <= k < i && k < |events| && events[k].lua == lua && events[k].kind.Shows?
  }

  /** Event `i` is a click of the script, made when a menu of it has been shown. */
  ghost predicate InMenu(events: seq<Event>, i: nat, lua: string)
  {
    i < |events| && events[i].lua == lua && events[i].kind.Click? && lua != "" && ShownEarlier(events, i, lua)
  }

  /** Event `k` shows menu `m` of the script, or is a click in it that is answered with `m`. */
  ghost predicate Activates(events: seq<Event>, k: nat, lua: string, m: Menu)
  {
    && k < |events|
    && (|| events[k] == Event(lua, Shows(m))
        || (InMenu(events, k, lua) && exists j: nat :: Settles(events, k, j) && events[j] == Event(lua, Shows(m))))
  }

  /** The menu of the script that is open before event `i`: the last one shown or reached. */
  ghost predicate OpenMenu(events: seq<Event>, i: nat, lua: string, m: Menu)
  {
    exists k :: 0 <= k < i && Activates(events, k, lua, m) && NoneActivated(events, k + 1, i, lua)
  }

  ghost predicate NoneActivated(events: seq<Event>, from: nat, to: nat, lua: string)
  {
    forall k, m :: from <= k < to ==> !Activates(events, k, lua, m)
  }

  /** The clicks of the script among the first `n` events, in order. */
  ghost function ClickTimes(events: seq<Event>, n: nat, lua: string): seq<nat>
  {
    if n == 0 then []
    else ClickTimes(events, n - 1, lua) + (if InMenu(events, n - 1, lua) then [n - 1] else [])
  }

  lemma {:induction false} ClickTimesExactly(events: seq<Event>, n: nat, lua: string)
    ensures var times := ClickTimes(events, n, lua);
      && (forall p, q :: 0 <= p < q < |times| ==> times[p] < times[q])
      && (forall i :: i in times <==> 0 <= i < n && InMenu(events, i, lua))
  {
    hide InMenu;
    if n > 0 {
      ClickTimesExactly(events, n - 1, lua);
      var front := ClickTimes(events, n - 1, lua);
      assert forall q :: 0 <= q < |front| ==> front[q] in front;
    }
  }

  /** `c` is the record of click `i`. */
  ghost predicate Records(events: seq<Event>, i: nat, lua: string, c: ClickResponse)
  {
    && i < |events| && events[i].kind == Click(c.button)
    && OpenMenu(events, i, lua, c.menu)
    && Answers(events, i, lua, c.response, c.target)
  }

  ghost predicate AllRecorded(events: seq<Event>, times: seq<nat>, lua: string, clicks: seq<ClickResponse>)
  {
    |clicks| == |times| && forall q :: 0 <= q < |times| ==> Records(events, times[q], lua, clicks[q])
  }

  lemma OneSettles(events: seq<Event>, i: nat, j: nat, j': nat)
    requires Settles(events, i, j) && Settles(events, i, j')
    ensures j == j'
  {
  }

  /** The scan from `j` on finds what settles the click. */
  lemma {:induction false} ScanSettles(events: seq<Event>, i: nat, j: nat, lua: string)
    requires i < j && i < |events| && forall k :: i < k < j && k < |events| ==> Ignored(events[k])
    ensures var r := ResponseFrom(events, j, Limit(events, i), lua);
      Answers(events, i, lua, r.0, r.1)
    decreases |events| - j
  {
    if j >= Limit(events, i) {
      assert forall j' :: !Settles(events, i, j');
    } else if Ignored(events[j]) {
      ScanSettles(events, i, j + 1, lua);
    } else {
      assert Settles(events, i, j);
      forall j' | Settles(events, i, j')
        ensures j' == j
      {
        OneSettles(events, i, j, j');
      }
    }
  }

  /** What the state knows of a script after `n` events. */
  ghost predicate Tracks(events: seq<Event>, n: nat, lua: string, st: State)
  {
    && (lua in st.active <==> ShownEarlier(events, n, lua))
    && (lua in st.active ==> OpenMenu(events, n, lua, st.active[lua]))
    && AllRecorded(events, ClickTimes(events, n, lua), lua, NpcOf(st, lua).clicks)
  }

  lemma OpenNow(events: seq<Event>, n: nat, lua: string, m: Menu)
    requires Activates(events, n, lua, m)
    ensures OpenMenu(events, n + 1, lua, m)
  {
  }

  lemma OpenStill(events: seq<Event>, n: nat, lua: string, m: Menu)
    requires OpenMenu(events, n, lua, m) && forall m' :: !Activates(events, n, lua, m')
    ensures OpenMenu(events, n + 1, lua, m)
  {
    hide Activates;
    var k :| 0 <= k < n && Activates(events, k, lua, m) && NoneActivated(events, k + 1, n, lua);
    assert NoneActivated(events, k + 1, n + 1, lua);
  }

  lemma EarlierMore(events: seq<Event>, n: nat, lua: string)
    requires n < |events|
    ensures ShownEarlier(events, n + 1, lua) <==>
      ShownEarlier(events, n, lua) || (events[n].lua == lua && events[n].kind.Shows?)
  {
  }

  lemma NotActivated(events: seq<Event>, n: nat, lua: string)
    requires n < |events| && !(events[n].lua == lua && events[n].kind.Shows?) && !InMenu(events, n, lua)
    ensures forall m :: !Activates(events, n, lua, m)
  {
    hide InMenu, Settles;
  }

  lemma ClickTimesStep(events: seq<Event>, n: nat, lua: string)
    ensures ClickTimes(events, n + 1, lua)
      == if InMenu(events, n, lua) then ClickTimes(events, n, lua) + [n] else ClickTimes(events, n, lua)
    ensures n < |events| && events[n].kind.Shows? ==> !InMenu(events, n, lua)
  {
  }

  /** Nothing changes for a script when an event neither shows a menu of it nor is a click in it. */
  lemma TracksStill(events: seq<Event>, n: nat, lua: string, st: State, st': State)
    requires n < |events| && Tracks(events, n, lua, st)
    requires !(events[n].lua == lua && events[n].kind.Shows?) && !InMenu(events, n, lua)
    requires NpcOf(st', lua).clicks == NpcOf(st, lua).clicks
    requires (lua in st'.active <==> lua in st.active) && (lua in st.active ==> st'.active[lua] == st.active[lua])
    ensures Tracks(events, n + 1, lua, st')
  {
    hide ShownEarlier, InMenu, OpenMenu, AllRecorded, Activates, ClickTimes;
    EarlierMore(events, n, lua);
    ClickTimesStep(events, n, lua);
    NotActivated(events, n, lua);
    if lua in st.active {
      OpenStill(events, n, lua, st.active[lua]);
    }
  }

  lemma ShownTracks(events: seq<Event>, n: nat, lua: string, st: State, menu: Menu)
    requires n < |events| && events[n] == Event(lua, Shows(menu)) && Tracks(events, n, lua, st)
    ensures Tracks(events, n + 1, lua, Shown(st, lua, menu, AfterNpcEvent(events, n)))
  {
    hide ShownEarlier, OpenMenu, AllRecorded, Settles, PutMenu, Sigs, InMenu, ClickTimes;
    EarlierMore(events, n, lua);
    ClickTimesStep(events, n, lua);
    OpenNow(events, n, lua, menu);
  }

  lemma MoreRecorded(events: seq<Event>, times: seq<nat>, lua: string, clicks: seq<ClickResponse>, i: nat,
      c: ClickResponse)
    requires AllRecorded(events, times, lua, clicks) && Records(events, i, lua, c)
    ensures AllRecorded(events, times + [i], lua, clicks + [c])
  {
    hide Records;
  }

  lemma ClickedTracks(events: seq<Event>, n: nat, lua: string, st: State, button: nat)
    requires n < |events| && events[n] == Event(lua, Click(button)) && lua != "" && lua in st.active
    requires Tracks(events, n, lua, st)
    ensures Tracks(events, n + 1, lua, Clicked(events, n, st, lua, button))
  {
    hide ShownEarlier, OpenMenu, AllRecorded, Settles, ResponseFrom, Limit, ClickTimes;
    EarlierMore(events, n, lua);
    ClickTimesStep(events, n, lua);
    ScanSettles(events, n, n + 1, lua);
    var (response, target) := ResponseFrom(events, n + 1, Limit(events, n), lua);
    var c := ClickResponse(st.active[lua], button, response, target);
    assert InMenu(events, n, lua);
    MoreRecorded(events, ClickTimes(events, n, lua), lua, NpcOf(st, lua).clicks, n, c);
    if target.Some? {
      OpenNow(events, n, lua, target.value);
    } else {
      OpenStill(events, n, lua, st.active[lua]);
    }
  }

  lemma {:induction false} AfterTracks(events: seq<Event>, n: nat, lua: string)
    requires n <= |events|
    ensures Tracks(events, n, lua, After(events, n))
  {
    if n == 0 {
      assert !ShownEarlier(events, 0, lua);
    } else {
      AfterTracks(events, n - 1, lua);
      hide Tracks, ShownEarlier, PutMenu, Sigs, ResponseFrom;
      var st, evt := After(events, n - 1), events[n - 1];
      TracksActive(events, n - 1, lua, st);
      match evt.kind
      case Shows(menu) =>
        if evt.lua == lua {
          ShownTracks(events, n - 1, lua, st, menu);
        } else {
          TracksStill(events, n - 1, lua, st, After(events, n));
        }
      case Click(button) =>
        if evt.lua == lua && lua != "" && lua in st.active {
          ClickedTracks(events, n - 1, lua, st, button);
        } else {
          TracksStill(events, n - 1, lua, st, After(events, n));
        }
      case _ => TracksStill(events, n - 1, lua, st, st);
    }
  }

  lemma TracksActive(events: seq<Event>, n: nat, lua: string, st: State)
    requires Tracks(events, n, lua, st)
    ensures lua in st.active <==> ShownEarlier(events, n, lua)
  {
  }

  /** The clicks kept of a script are its clicks in the trace made when a menu of it had been
    * shown, one to one and in order: each with its button, the menu open at that moment, and
    * the answer that settled it. */
  lemma ClicksExactly(events: seq<Event>, lua: string)
    ensures var clicks, times := NpcOf(After(events, |events|), lua).clicks, ClickTimes(events, |events|, lua);
      && |clicks| == |times|
      && (forall p, q :: 0 <= p < q < |times| ==> times[p] < times[q])
      && (forall i :: i in times <==> 0 <= i < |events| && InMenu(events, i, lua))
      && forall q :: 0 <= q < |times| ==> Records(events, times[q], lua, clicks[q])
  {
    hide Records, InMenu, ShownEarlier, After, ClickTimes;
    AfterTracks(events, |events|, lua);
    ClickTimesExactly(events, |events|, lua);
    var clicks, times := NpcOf(After(events, |events|), lua).clicks, ClickTimes(events, |events|, lua);
  }

  // ------------------------------------------------------- the menus and roots themselves

  /** Event `j` shows the menu for the script. */
  predicate ShowsAt(events: seq<Event>, j: nat, lua: string, m: Menu)
  {
    j < |events| && events[j] == Event(lua, Shows(m))
  }

  /** The menu shown last with its signature, of those for the script before `n`. */
  ghost predicate LastShown(events: seq<Event>, n: nat, lua: string, m: Menu)
  {
    exists j :: 0 <= j < n && ShowsAt(events, j, lua, m)
      && forall j', m' :: j < j' < n && ShowsAt(events, j', lua, m') ==> m'.sig != m.sig
  }

  /** The start of a dialog stands right in front of event `j`. */
  predicate Begins(events: seq<Event>, j: nat) { 0 < j < |events| && events[j - 1].kind == NpcEvent }

  /** The menu that first followed the start of a dialog with its signature. */
  ghost predicate FirstRoot(events: seq<Event>, n: nat, lua: string, m: Menu)
  {
    exists j :: 0 <= j < n && ShowsAt(events, j, lua, m) && Begins(events, j)
      && forall j', m' :: 0 <= j' < j && ShowsAt(events, j', lua, m') && Begins(events, j') ==> m'.sig != m.sig
  }

  ghost predicate MenusRight(events: seq<Event>, n: nat, lua: string, npc: Npc)
  {
    && (forall m :: m in npc.menus <==> LastShown(events, n, lua, m))
    && (forall m :: m in npc.roots <==> FirstRoot(events, n, lua, m))
  }

  lemma {:induction false} PutExactly(menus: seq<Menu>, m: Menu)
    requires Distinct(Sigs(menus))
    ensures forall x :: x in PutMenu(menus, m) <==> x == m || (x in menus && x.sig != m.sig)
  {
    if menus != [] {
      var rest := menus[1..];
      assert menus == [menus[0]] + rest;
      SigsOfFirst(menus[0], rest);
      SigsIn(rest);
      DistinctTail(menus[0].sig, Sigs(rest));
      PutExactly(rest, m);
    }
  }

  lemma DistinctTail(x: string, rest: seq<string>)
    requires Distinct([x] + rest)
    ensures Distinct(rest) && x !in rest
  {
    var all := [x] + rest;
    forall i, j | 0 <= i < j < |rest|
      ensures rest[i] != rest[j]
    {
      assert all[i + 1] == rest[i] && all[j + 1] == rest[j];
    }
    forall i | 0 <= i < |rest|
      ensures rest[i] != x
    {
      assert all[0] == x && all[i + 1] == rest[i];
    }
  }

  lemma SigsIn(menus: seq<Menu>)
    ensures forall x :: x in menus ==> x.sig in Sigs(menus)
    ensures forall sig :: sig in Sigs(menus) ==> exists x :: x in menus && x.sig == sig
  {
    forall x | x in menus
      ensures x.sig in Sigs(menus)
    {
      var i :| 0 <= i < |menus| && menus[i] == x;
      assert Sigs(menus)[i] == x.sig;
    }
    forall sig | sig in Sigs(menus)
      ensures exists x :: x in menus && x.sig == sig
    {
      var i :| 0 <= i < |menus| && Sigs(menus)[i] == sig;
      assert menus[i] in menus;
    }
  }

  lemma LastShownStep(events: seq<Event>, n: nat, lua: string, m: Menu)
    requires n < |events|
    ensures LastShown(events, n + 1, lua, m) <==>
      if events[n].lua == lua && events[n].kind.Shows?
      then m == events[n].kind.menu || (LastShown(events, n, lua, m) && m.sig != events[n].kind.menu.sig)
      else LastShown(events, n, lua, m)
  {
    if LastShown(events, n + 1, lua, m) && !ShowsAt(events, n, lua, m) {
      var j :| 0 <= j < n + 1 && ShowsAt(events, j, lua, m)
        && forall j', m' :: j < j' < n + 1 && ShowsAt(events, j', lua, m') ==> m'.sig != m.sig;
      assert j < n;
      if events[n].lua == lua && events[n].kind.Shows? {
        assert ShowsAt(events, n, lua, events[n].kind.menu);
      }
    }
    if events[n].lua == lua && events[n].kind.Shows? {
      assert ShowsAt(events, n, lua, events[n].kind.menu);
    }
  }

  lemma FirstRootStep(events: seq<Event>, n: nat, lua: string, m: Menu)
    requires n < |events|
    ensures FirstRoot(events, n + 1, lua, m) <==>
      FirstRoot(events, n, lua, m)
      || (ShowsAt(events, n, lua, m) && Begins(events, n)
          && forall x :: FirstRoot(events, n, lua, x) ==> x.sig != m.sig)
  {
    if ShowsAt(events, n, lua, m) && Begins(events, n) {
      if forall x :: FirstRoot(events, n, lua, x) ==> x.sig != m.sig {
        forall j, x | 0 <= j < n && ShowsAt(events, j, lua, x) && Begins(events, j)
          ensures x.sig != m.sig
        {
          SomeFirstRoot(events, n, lua, j, x);
        }
      }
    }
  }

  /** A menu that followed the start of a dialog had a first one of its signature. */
  lemma {:induction false} SomeFirstRoot(events: seq<Event>, n: nat, lua: string, j: nat, x: Menu)
    requires j < n && ShowsAt(events, j, lua, x) && Begins(events, j)
    ensures exists y :: FirstRoot(events, n, lua, y) && y.sig == x.sig
    decreases j
  {
    if j', y :| 0 <= j' < j && ShowsAt(events, j', lua, y) && Begins(events, j') && y.sig == x.sig {
      SomeFirstRoot(events, n, lua, j', y);
    } else {
      assert FirstRoot(events, n, lua, x);
    }
  }

  lemma ShownMenus(events: seq<Event>, n: nat, st: State, menu: Menu, lua: string)
    requires n < |events| && events[n] == Event(lua, Shows(menu))
    requires Keeps(events, n, lua, NpcOf(st, lua)) && MenusRight(events, n, lua, NpcOf(st, lua))
    ensures MenusRight(events, n + 1, lua, NpcOf(Shown(st, lua, menu, AfterNpcEvent(events, n)), lua))
  {
    hide LastShown, FirstRoot, Sigs, PutMenu, ShownBefore;
    var npc := NpcOf(st, lua);
    PutExactly(npc.menus, menu);
    SigsIn(npc.roots);
    forall m
      ensures m in PutMenu(npc.menus, menu) <==> LastShown(events, n + 1, lua, m)
    {
      LastShownStep(events, n, lua, m);
    }
    forall m
      ensures m in NpcOf(Shown(st, lua, menu, AfterNpcEvent(events, n)), lua).roots
        <==> FirstRoot(events, n + 1, lua, m)
    {
      FirstRootStep(events, n, lua, m);
    }
  }

  lemma OtherMenus(events: seq<Event>, n: nat, lua: string, npc: Npc, npc': Npc)
    requires n < |events| && !(events[n].lua == lua && events[n].kind.Shows?)
    requires MenusRight(events, n, lua, npc) && npc'.menus == npc.menus && npc'.roots == npc.roots
    ensures MenusRight(events, n + 1, lua, npc')
  {
    hide LastShown, FirstRoot;
    forall m
      ensures LastShown(events, n + 1, lua, m) <==> LastShown(events, n, lua, m)
      ensures FirstRoot(events, n + 1, lua, m) <==> FirstRoot(events, n, lua, m)
    {
      LastShownStep(events, n, lua, m);
      FirstRootStep(events, n, lua, m);
    }
  }

  /** The menus kept of a script are those shown last with their signature, and its roots those
    * that were the first of their signature to follow the start of a dialog. */
  lemma {:induction false} MenusExactly(events: seq<Event>, n: nat, lua: string)
    requires n <= |events|
    ensures MenusRight(events, n, lua, NpcOf(After(events, n), lua))
  {
    if n > 0 {
      MenusExactly(events, n - 1, lua);
      AfterSound(events, n - 1);
      hide MenusRight, PutMenu, Sigs, ResponseFrom, Keeps;
      var st, evt := After(events, n - 1), events[n - 1];
      if evt.lua == lua && evt.kind.Shows? {
        ShownMenus(events, n - 1, st, evt.kind.menu, lua);
      } else {
        OtherMenus(events, n - 1, lua, NpcOf(st, lua), NpcOf(After(events, n), lua));
      }
    }
  }

  // -------------------------------------------------------------------- the button map

  type Key = (string, nat)
  type Mapped = (string, Option<string>)

  const CLOSING: set<int> := {10, 27, 66, 4162, 4528, 23}

  function Priority(response: string): nat
  {
    if response == "MENU" then 4
    else if IsAnswer(response) then 3
    else if response == "ACTION" then 2
    else if response == "CLOSE" then 1
    else 0
  }

  function KeyOf(c: ClickResponse): Key { (c.menu.sig, c.button) }

  function ButtonText(c: ClickResponse): int
  {
    if c.button < |c.menu.buttons| then c.menu.buttons[c.button] else -1
  }

  /** What a click says its button does; a button with a closing text opens no window. */
  function Says(c: ClickResponse): Mapped
  {
    var overruled := ButtonText(c) in CLOSING && IsAnswer(c.response) && c.response != "QUEST";
    (if overruled then "CLOSE" else c.response, if c.target.Some? then Some(c.target.value.sig) else None)
  }

  function ButtonMap(clicks: seq<ClickResponse>): map<Key, Mapped>
  {
    if clicks == [] then map[] else
      var front, c := ButtonMap(clicks[..|clicks| - 1]), clicks[|clicks| - 1];
      if KeyOf(c) in front && Priority(Says(c).0) <= Priority(front[KeyOf(c)].0) then front
      else front[KeyOf(c) := Says(c)]
  }

  /** The first part of `analyze_npc`. */
  method MapButtons(clicks: seq<ClickResponse>) returns (buttonMap: map<Key, Mapped>)
    ensures buttonMap == ButtonMap(clicks)
  {
    hide Says, Priority;
    buttonMap := map[];
    for i := 0 to |clicks|
      invariant buttonMap == ButtonMap(clicks[..i])
    {
      var click := clicks[i];
      assert clicks[..i + 1][..i] == clicks[..i] && clicks[..i + 1][i] == click;
      var key := KeyOf(click);
      if key in buttonMap {
        var oldPri, newPri := Priority(buttonMap[key].0), Priority(Says(click).0);
        if newPri <= oldPri {
          continue;
        }
      }
      buttonMap := buttonMap[key := Says(click)];
    }
    assert clicks[..|clicks|] == clicks;
  }

  /** Click `i` decides its button: none says more, and none before it says as much. */
  ghost predicate Decides(clicks: seq<ClickResponse>, i: nat)
  {
    i < |clicks| && forall j :: 0 <= j < |clicks| && KeyOf(clicks[j]) == KeyOf(clicks[i]) ==>
      var other, own := Priority(Says(clicks[j]).0), Priority(Says(clicks[i]).0);
      if j < i then other < own else other <= own
  }

  /** How strong an answer is: a menu, a service, a closed dialog. */
  function Strength(response: string): nat
  {
    if response == "MENU" then 3
    else if response in {"SHOP", "EXCHANGE", "DISASSEMBLE", "SPECIAL_UI", "WARP", "MALL", "QUEST"} then 2
    else if response == "CLOSE" then 1
    else 0
  }

  lemma PriorityIs(response: string)
    ensures Strength(response) > 0 ==>
      Priority(response) == if Strength(response) == 1 then 1 else Strength(response) + 1
  {
  }

  /** What a click says: its answer, unless its button has a closing text and the answer is a window. */
  lemma SaysIs(c: ClickResponse)
    ensures var closing := c.button < |c.menu.buttons| && c.menu.buttons[c.button] in {10, 27, 66, 4162, 4528, 23};
      var window := c.response in {"SHOP", "EXCHANGE", "DISASSEMBLE", "SPECIAL_UI", "WARP", "MALL"};
      && Says(c).0 == (if closing && window then "CLOSE" else c.response)
      && (c.target.None? ==> Says(c).1 == None)
      && (c.target.Some? ==> Says(c).1 == Some(c.target.value.sig))
  {
  }

  /** The click is the first of its button with an answer so strong, and none is stronger. */
  ghost predicate FirstStrongest(clicks: seq<ClickResponse>, i: nat, key: Key, strength: nat)
  {
    && i < |clicks| && KeyOf(clicks[i]) == key && Strength(Says(clicks[i]).0) == strength
    && (forall j :: 0 <= j < i && KeyOf(clicks[j]) == key ==> Strength(Says(clicks[j]).0) < strength)
    && (forall j :: i <= j < |clicks| && KeyOf(clicks[j]) == key ==> Strength(Says(clicks[j]).0) <= strength)
  }

  lemma SaysStrong(c: ClickResponse)
    requires Strength(c.response) > 0
    ensures Strength(Says(c).0) > 0
  {
    SaysIs(c);
  }

  /** A clicked button is mapped to the first menu it opened; if it never opened one, to its first
    * service; and if it never got one, it closes the dialog. */
  lemma ButtonMapByKind(clicks: seq<ClickResponse>, key: Key)
    requires key in ButtonMap(clicks) && forall c :: c in clicks ==> Strength(c.response) > 0
    ensures
      exists i: nat :: i < |clicks| && ButtonMap(clicks)[key] == Says(clicks[i])
        && FirstStrongest(clicks, i, key, Strength(Says(clicks[i]).0))
  {
    hide Says, Priority, ButtonMap, Strength;
    ButtonMapExactly(clicks, key);
    var i :| 0 <= i < |clicks| && KeyOf(clicks[i]) == key && Decides(clicks, i)
      && ButtonMap(clicks)[key] == Says(clicks[i]);
    forall j | 0 <= j < |clicks|
      ensures var r := Says(clicks[j]).0;
        Strength(r) > 0 && Priority(r) == if Strength(r) == 1 then 1 else Strength(r) + 1
    {
      assert clicks[j] in clicks;
      SaysStrong(clicks[j]);
      PriorityIs(Says(clicks[j]).0);
    }
  }

  /** A button is mapped exactly when it was clicked, to what the first of its clicks with
    * the highest priority says. */
  lemma {:induction false} ButtonMapExactly(clicks: seq<ClickResponse>, key: Key)
    ensures key in ButtonMap(clicks) <==> exists i :: 0 <= i < |clicks| && KeyOf(clicks[i]) == key
    ensures key in ButtonMap(clicks) ==>
      exists i :: 0 <= i < |clicks| && KeyOf(clicks[i]) == key && Decides(clicks, i)
        && ButtonMap(clicks)[key] == Says(clicks[i])
  {
    hide Says, Priority;
    if clicks != [] {
      var n := |clicks| - 1;
      var front, c := clicks[..n], clicks[n];
      ButtonMapExactly(front, key);
      if key == KeyOf(c) && key !in ButtonMap(front) {
        assert KeyOf(clicks[n]) == key && Decides(clicks, n);
      } else if key in ButtonMap(front) {
        var i :| 0 <= i < n && KeyOf(front[i]) == key && Decides(front, i) && ButtonMap(front)[key] == Says(front[i]);
        OneMoreClick(clicks, i);
        assert KeyOf(clicks[i]) == key;
      }
    }
  }

  lemma OneMoreClick(clicks: seq<ClickResponse>, i: nat)
    requires |clicks| > 0 && i < |clicks| - 1 && Decides(clicks[..|clicks| - 1], i)
    ensures var n := |clicks| - 1;
      var more := KeyOf(clicks[n]) == KeyOf(clicks[i]) && Priority(Says(clicks[n]).0) > Priority(Says(clicks[i]).0);
      Decides(clicks, if more then n else i)
  {
    hide Says, Priority;
    var n := |clicks| - 1;
    var front := clicks[..n];
    forall j | 0 <= j < n && KeyOf(clicks[j]) == KeyOf(clicks[i])
      ensures Priority(Says(clicks[j]).0) <= Priority(Says(clicks[i]).0)
      ensures j < i ==> Priority(Says(clicks[j]).0) < Priority(Says(clicks[i]).0)
    {
      assert KeyOf(front[j]) == KeyOf(front[i]);
    }
  }

  // ----------------------------------------------------------------------- event ids

  const CLOSE_EVENT: int := 3001
  const ACTION_EVENT_BASE: int := 5000

  /** The signatures of `menus` that are not among `roots`, in order. */
  function OthersThan(roots: seq<string>, menus: seq<string>): seq<string>
  {
    if menus == [] then [] else
      OthersThan(roots, menus[..|menus| - 1])
        + (if menus[|menus| - 1] in roots then [] else [menus[|menus| - 1]])
  }

  /** The order in which menus are numbered: roots first. */
  function Order(roots: seq<string>, menus: seq<string>): seq<string> { roots + OthersThan(roots, menus) }

  /** The `k`-th number, when the first `roots` of them go to roots. */
  function IdAt(trigger: int, roots: nat, k: nat): int
  {
    if k < roots || trigger + roots > CLOSE_EVENT || trigger + k < CLOSE_EVENT then trigger + k else trigger + k + 10
  }

  ghost predicate Numbers(ids: map<string, int>, trigger: int, roots: nat, order: seq<string>)
  {
    && (forall sig :: sig in ids <==> sig in order)
    && (forall k :: 0 <= k < |order| ==> ids[order[k]] == IdAt(trigger, roots, k))
  }

  lemma NumbersKeys(ids: map<string, int>, trigger: int, roots: nat, order: seq<string>)
    requires Numbers(ids, trigger, roots, order)
    ensures forall sig :: sig in ids <==> sig in order
  {
  }

  method NumberRoots(trigger: int, roots: seq<string>) returns (eventIds: map<string, int>, counter: int)
    requires Distinct(roots)
    ensures Numbers(eventIds, trigger, |roots|, roots)
    ensures counter == trigger + |roots|
  {
    eventIds, counter := map[], trigger;
    assert Numbers(eventIds, trigger, |roots|, roots[..0]);
    hide IdAt, Numbers;
    for i := 0 to |roots|
      invariant counter == trigger + i
      invariant Numbers(eventIds, trigger, |roots|, roots[..i])
    {
      IdSteps(trigger, |roots|, counter, i);
      NumbersMore(eventIds, trigger, |roots|, roots[..i], roots[i]);
      assert roots[..i + 1] == roots[..i] + [roots[i]];
      eventIds := eventIds[roots[i] := counter];
      counter := counter + 1;
    }
    assert roots[..|roots|] == roots;
  }

  /** The numbering in `generate_lua`. */
  method AssignEventIds(trigger: int, roots: seq<string>, menus: seq<string>) returns (eventIds: map<string, int>)
    requires Distinct(roots) && Distinct(menus)
    ensures Numbers(eventIds, trigger, |roots|, Order(roots, menus))
  {
    hide IdAt, Order, Numbers, NextId;
    var counter;
    eventIds, counter := NumberRoots(trigger, roots);
    ghost var order := roots;
    NothingElse(roots, menus[..0]);
    IdSteps(trigger, |roots|, counter, |roots|);
    for i := 0 to |menus|
      invariant order == Order(roots, menus[..i]) && |roots| <= |order|
      invariant Numbers(eventIds, trigger, |roots|, order)
      invariant NextId(trigger, |roots|, counter, |order|)
    {
      OrderMore(roots, menus, i);
      NumbersKeys(eventIds, trigger, |roots|, order);
      if menus[i] !in eventIds {
        IdSteps(trigger, |roots|, counter, |order|);
        if counter == CLOSE_EVENT {
          counter := CLOSE_EVENT + 10;
        }
        IdSteps(trigger, |roots|, counter, |order|);
        NumbersMore(eventIds, trigger, |roots|, order, menus[i]);
        eventIds := eventIds[menus[i] := counter];
        counter := counter + 1;
        order := order + [menus[i]];
      }
    }
    assert menus[..|menus|] == menus;
  }

  /** The counter before number `k`: it may still stand on the close event. */
  predicate NextId(trigger: int, roots: nat, counter: int, k: nat)
  {
    counter == IdAt(trigger, roots, k) || (counter == CLOSE_EVENT && IdAt(trigger, roots, k) == CLOSE_EVENT + 10)
  }

  lemma IdSteps(trigger: int, roots: nat, counter: int, k: nat)
    ensures k < roots ==> IdAt(trigger, roots, k) == trigger + k
    ensures counter == trigger + roots ==> NextId(trigger, roots, counter, roots)
    ensures roots <= k && NextId(trigger, roots, counter, k) ==>
      IdAt(trigger, roots, k) == if counter == CLOSE_EVENT then CLOSE_EVENT + 10 else counter
    ensures roots <= k && counter == IdAt(trigger, roots, k) ==> NextId(trigger, roots, counter + 1, k + 1)
  {
  }

  lemma NumbersMore(ids: map<string, int>, trigger: int, roots: nat, order: seq<string>, sig: string)
    requires Numbers(ids, trigger, roots, order) && sig !in order
    ensures Numbers(ids[sig := IdAt(trigger, roots, |order|)], trigger, roots, order + [sig])
  {
  }

  lemma NothingElse(roots: seq<string>, none: seq<string>)
    ensures none == [] ==> Order(roots, none) == roots
  {
  }

  lemma OrderMore(roots: seq<string>, menus: seq<string>, i: nat)
    requires i < |menus| && Distinct(menus)
    ensures var order := Order(roots, menus[..i]);
      Order(roots, menus[..i + 1]) == if menus[i] in order then order else order + [menus[i]]
  {
    assert menus[..i + 1][..i] == menus[..i] && menus[..i + 1][i] == menus[i];
    OthersExactly(roots, menus[..i]);
  }

  lemma {:induction false} OthersExactly(roots: seq<string>, menus: seq<string>)
    ensures forall sig :: sig in OthersThan(roots, menus) <==> sig in menus && sig !in roots
    ensures Distinct(menus) ==> Distinct(OthersThan(roots, menus))
  {
    if menus != [] {
      OthersExactly(roots, menus[..|menus| - 1]);
      assert menus == menus[..|menus| - 1] + [menus[|menus| - 1]];
    }
  }

  lemma OrderExactly(roots: seq<string>, menus: seq<string>)
    requires Distinct(roots) && Distinct(menus)
    ensures Distinct(Order(roots, menus))
    ensures forall sig :: sig in Order(roots, menus) <==> sig in roots || sig in menus
  {
    OthersExactly(roots, menus);
    var order, others := Order(roots, menus), OthersThan(roots, menus);
    forall i, j | 0 <= i < j < |order|
      ensures order[i] != order[j]
    {
      if i < |roots| <= j {
        assert others[j - |roots|] in others;
      }
    }
  }

  /** The numbers ascend, so no two menus share one. */
  lemma IdsAscend(trigger: int, roots: nat, i: nat, j: nat)
    requires i < j
    ensures IdAt(trigger, roots, i) < IdAt(trigger, roots, j)
  {
  }

  lemma NumbersDistinct(ids: map<string, int>, trigger: int, roots: nat, order: seq<string>)
    requires Numbers(ids, trigger, roots, order)
    ensures forall a, b :: a in ids && b in ids && ids[a] == ids[b] ==> a == b
  {
    hide IdAt;
    forall a, b | a in ids && b in ids && ids[a] == ids[b]
      ensures a == b
    {
      var i :| 0 <= i < |order| && order[i] == a;
      var j :| 0 <= j < |order| && order[j] == b;
      if i < j {
        IdsAscend(trigger, roots, i, j);
      } else if j < i {
        IdsAscend(trigger, roots, j, i);
      }
    }
  }

  // ----------------------------------------------------------- one handler for a button

  /** The events of the printed handlers: the menus in the order of their numbers, the
    * actions, and the close handler. */
  function Printed(ids: map<string, int>, order: seq<string>, actions: nat): seq<int>
    requires forall sig :: sig in order ==> sig in ids
  {
    seq(|order|, k requires 0 <= k < |order| => ids[order[k]]) + seq(actions, k => ACTION_EVENT_BASE + k)
      + [CLOSE_EVENT]
  }

  /** The same by counts: `roots` root menus among `menus`. */
  function Handlers(trigger: int, roots: nat, menus: nat, actions: nat): seq<int>
  {
    seq(menus, k requires 0 <= k => IdAt(trigger, roots, k)) + seq(actions, k => ACTION_EVENT_BASE + k) + [CLOSE_EVENT]
  }

  lemma HandlerAt(trigger: int, roots: nat, menus: nat, actions: nat, i: nat)
    requires i <= menus + actions
    ensures |Handlers(trigger, roots, menus, actions)| == menus + actions + 1
    ensures Handlers(trigger, roots, menus, actions)[i]
      == if i < menus then IdAt(trigger, roots, i) else if i < menus + actions then ACTION_EVENT_BASE + i - menus
        else CLOSE_EVENT
  {
  }

  /** Two handlers for one event: the later one hides the earlier. */
  ghost predicate Clash(handlers: seq<int>)
  {
    exists i, j :: 0 <= i < j < |handlers| && handlers[i] == handlers[j]
  }

  /** A root is numbered with the close event. */
  predicate RootsMeetClose(trigger: int, roots: nat) { trigger <= CLOSE_EVENT < trigger + roots }

  /** The numbers of the menus reach into those of the actions. */
  predicate MenusMeetActions(trigger: int, roots: nat, menus: nat, actions: nat)
  {
    menus > 0 && actions > 0 && trigger < ACTION_EVENT_BASE + actions
      && IdAt(trigger, roots, menus - 1) >= ACTION_EVENT_BASE
  }

  lemma ClashHere(trigger: int, roots: nat, menus: nat, actions: nat, i: nat, j: nat)
    requires roots <= menus && i < j <= menus + actions
    requires Handlers(trigger, roots, menus, actions)[i] == Handlers(trigger, roots, menus, actions)[j]
    ensures RootsMeetClose(trigger, roots) || MenusMeetActions(trigger, roots, menus, actions)
  {
    hide Handlers;
    HandlerAt(trigger, roots, menus, actions, i);
    HandlerAt(trigger, roots, menus, actions, j);
  }

  lemma ClashThere(trigger: int, roots: nat, menus: nat, actions: nat)
    requires roots <= menus
    requires RootsMeetClose(trigger, roots) || MenusMeetActions(trigger, roots, menus, actions)
    ensures Clash(Handlers(trigger, roots, menus, actions))
  {
    hide Handlers;
    var i, j;
    if RootsMeetClose(trigger, roots) {
      i, j := CLOSE_EVENT - trigger, menus + actions;
    } else if trigger >= ACTION_EVENT_BASE {
      i, j := 0, menus + trigger - ACTION_EVENT_BASE;
    } else {
      i, j := ACTION_EVENT_BASE - trigger - (if trigger + roots > CLOSE_EVENT then 0 else 10), menus;
    }
    HandlerAt(trigger, roots, menus, actions, i);
    HandlerAt(trigger, roots, menus, actions, j);
  }

  lemma ClashExactly(trigger: int, roots: nat, menus: nat, actions: nat)
    requires roots <= menus
    ensures Clash(Handlers(trigger, roots, menus, actions)) <==>
      RootsMeetClose(trigger, roots) || MenusMeetActions(trigger, roots, menus, actions)
  {
    hide Handlers, RootsMeetClose, MenusMeetActions;
    if RootsMeetClose(trigger, roots) || MenusMeetActions(trigger, roots, menus, actions) {
      ClashThere(trigger, roots, menus, actions);
    }
    var handlers := Handlers(trigger, roots, menus, actions);
    forall i, j | 0 <= i < j < |handlers| && handlers[i] == handlers[j]
      ensures RootsMeetClose(trigger, roots) || MenusMeetActions(trigger, roots, menus, actions)
    {
      HandlerAt(trigger, roots, menus, actions, 0);
      ClashHere(trigger, roots, menus, actions, i, j);
    }
  }

  lemma NothingIn(s: seq<string>)
    ensures s != [] ==> exists sig :: sig in s
  {
    if s != [] {
      assert s[0] in s;
    }
  }

  lemma {:induction false} SameNumber(a: seq<string>, b: seq<string>)
    requires Distinct(a) && Distinct(b) && forall sig :: sig in a <==> sig in b
    ensures |a| == |b|
  {
    if a == [] {
      NothingIn(b);
    } else {
      assert a[0] in b;
      var i :| 0 <= i < |b| && b[i] == a[0];
      var rest := b[..i] + b[i + 1..];
      forall sig
        ensures sig in a[1..] <==> sig in rest
      {
        assert sig in a <==> sig == a[0] || sig in a[1..];
        assert sig in b <==> sig == b[i] || sig in rest;
      }
      SameNumber(a[1..], rest);
    }
  }

  lemma NumbersInWords(ids: map<string, int>, trigger: int, roots: seq<string>, menus: seq<string>)
    requires Distinct(roots) && Distinct(menus) && Numbers(ids, trigger, |roots|, Order(roots, menus))
    ensures forall i :: 0 <= i < |roots| ==> roots[i] in ids && ids[roots[i]] == trigger + i
    ensures forall sig :: sig in menus && sig !in roots ==> sig in ids && ids[sig] != 3001
  {
    var order := Order(roots, menus);
    forall i | 0 <= i < |roots|
      ensures roots[i] in ids && ids[roots[i]] == trigger + i
    {
      assert order[i] == roots[i] && order[i] in order;
    }
    OrderExactly(roots, menus);
    forall sig | sig in menus && sig !in roots
      ensures sig in ids && ids[sig] != 3001
    {
      var k :| 0 <= k < |order| && order[k] == sig;
      assert k >= |roots|;
    }
  }

  /** Every menu of a script is numbered once, in ascending order: the roots from the trigger on, the
    * others past the close event. */
  lemma EachNumberedOnce(ids: map<string, int>, trigger: int, roots: seq<string>, menus: seq<string>)
    requires Distinct(roots) && Distinct(menus) && forall sig :: sig in roots ==> sig in menus
    requires Numbers(ids, trigger, |roots|, Order(roots, menus))
    ensures var order := Order(roots, menus);
      && |order| == |menus| && (forall sig :: sig in order <==> sig in menus) && ids.Keys == set sig | sig in menus
      && (forall i, j :: 0 <= i < j < |order| ==> ids[order[i]] < ids[order[j]])
      && (forall i :: 0 <= i < |roots| ==> ids[roots[i]] == trigger + i)
      && (forall sig :: sig in menus && sig !in roots ==> ids[sig] != 3001)
  {
    hide IdAt, Order;
    NumbersInWords(ids, trigger, roots, menus);
    var order := Order(roots, menus);
    OrderExactly(roots, menus);
    SameNumber(order, menus);
    forall i, j | 0 <= i < j < |order|
      ensures ids[order[i]] < ids[order[j]]
    {
      IdsAscend(trigger, |roots|, i, j);
    }
  }

  lemma PrintedByCount(ids: map<string, int>, trigger: int, roots: seq<string>, menus: seq<string>, actions: nat)
    requires Distinct(roots) && Distinct(menus) && forall sig :: sig in roots ==> sig in menus
    requires Numbers(ids, trigger, |roots|, Order(roots, menus))
    ensures forall sig :: sig in Order(roots, menus) ==> sig in ids
    ensures |roots| <= |menus|
    ensures Printed(ids, Order(roots, menus), actions) == Handlers(trigger, |roots|, |menus|, actions)
    ensures var order := Order(roots, menus);
      && (forall sig :: sig in order <==> sig in menus)
      && (forall i, j :: 0 <= i < j < |order| ==> ids[order[i]] < ids[order[j]])
  {
    hide OthersThan, IdAt;
    EachNumberedOnce(ids, trigger, roots, menus);
  }

  /** The handlers printed for a script, in any trace, have distinct events exactly when no root
    * is numbered with the close event, and the menus' numbers stay clear of those of the actions. */
  lemma NoClashExactly(events: seq<Event>, lua: string, trigger: int, ids: map<string, int>, actions: nat)
    requires var npc := NpcOf(After(events, |events|), lua);
      Numbers(ids, trigger, |npc.roots|, Order(Sigs(npc.roots), Sigs(npc.menus)))
    ensures var npc := NpcOf(After(events, |events|), lua);
      var order, roots, menus := Order(Sigs(npc.roots), Sigs(npc.menus)), |npc.roots|, |npc.menus|;
      && (forall sig :: sig in order <==> sig in Sigs(npc.menus))
      && (forall i, j :: 0 <= i < j < |order| ==> ids[order[i]] < ids[order[j]])
      && (Clash(Printed(ids, order, actions)) <==>
        RootsMeetClose(trigger, roots) || MenusMeetActions(trigger, roots, menus, actions))
  {
    hide After, Sigs, ShownBefore, Numbers, Clash, RootsMeetClose, MenusMeetActions, Order, Printed;
    GraphIsClosed(events, lua);
    var npc := NpcOf(After(events, |events|), lua);
    PrintedByCount(ids, trigger, Sigs(npc.roots), Sigs(npc.menus), actions);
    ClashExactly(trigger, |npc.roots|, |npc.menus|, actions);
  }

  /** Every button mapped to a menu, in any trace and with any trigger, is printed with the
    * number of that menu, which one menu handler and no other has. */
  lemma MenuButtonsLeadHome(events: seq<Event>, lua: string, trigger: int, ids: map<string, int>, key: Key)
    requires var npc := NpcOf(After(events, |events|), lua);
      && Numbers(ids, trigger, |npc.roots|, Order(Sigs(npc.roots), Sigs(npc.menus)))
      && key in ButtonMap(npc.clicks) && ButtonMap(npc.clicks)[key].0 == "MENU"
    ensures var npc := NpcOf(After(events, |events|), lua);
      var target := ButtonMap(npc.clicks)[key].1;
      && key.0 in Sigs(npc.menus)
      && target.Some? && target.value in Sigs(npc.menus) && target.value in ids
      && forall sig :: sig in ids && ids[sig] == ids[target.value] ==> sig == target.value
  {
    hide After, Sigs, ShownBefore, ButtonMap, IdAt, Order;
    var npc := NpcOf(After(events, |events|), lua);
    GraphIsClosed(events, lua);
    ButtonMapExactly(npc.clicks, key);
    var i :| 0 <= i < |npc.clicks| && KeyOf(npc.clicks[i]) == key && ButtonMap(npc.clicks)[key] == Says(npc.clicks[i]);
    assert npc.clicks[i] in npc.clicks;
    OrderExactly(Sigs(npc.roots), Sigs(npc.menus));
    NumbersDistinct(ids, trigger, |npc.roots|, Order(Sigs(npc.roots), Sigs(npc.menus)));
  }
}
