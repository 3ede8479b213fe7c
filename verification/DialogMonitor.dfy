/** The dialog monitor: is there an unmapped button in or below a menu? */
module DialogMonitor {
  import opened Wrappers

  datatype Menu = Menu(sig: string, header: int, flag: int, buttons: seq<int>)

  /** An entry of the button map: what pressing a button of a menu leads to. */
  datatype Mapping = Mapping(sig: string, button: nat, response: string, target: Option<string>)

  /** A child link of a menu: button, its text, and the menu it opens. */
  datatype Child = Child(button: nat, text: int, sig: string)

  type Menus = map<string, Menu>
  type Children = map<string, seq<Child>>

  // ------------------------------------------------------------------ links

  /** The entries that open another known menu; an empty target counts as none. */
  predicate IsLink(menus: Menus, m: Mapping)
  {
    m.response == "MENU" && m.target.Some? && m.target.value != "" && m.target.value in menus
  }

  function ChildOf(menus: Menus, m: Mapping): Child
    requires IsLink(menus, m) && m.sig in menus
  {
    var buttons := menus[m.sig].buttons;
    Child(m.button, if m.button < |buttons| then buttons[m.button] else 0, m.target.value)
  }

  /** The child entries of `sig`, in the order of the button map. */
  function ChildEntries(menus: Menus, bmap: seq<Mapping>, sig: string): seq<Child>
    requires sig in menus
  {
    if bmap == [] then [] else
      var last := bmap[|bmap| - 1];
      ChildEntries(menus, bmap[..|bmap| - 1], sig)
        + (if IsLink(menus, last) && last.sig == sig then [ChildOf(menus, last)] else [])
  }

  function ChildrenOf(children: Children, sig: string): seq<Child> { if sig in children then children[sig] else [] }

  /** A link of a menu that is not there makes `build_tree` fail. */
  predicate AllLinksFromMenus(menus: Menus, bmap: seq<Mapping>)
  {
    forall m :: m in bmap && IsLink(menus, m) ==> m.sig in menus
  }

  ghost predicate IsTree(menus: Menus, bmap: seq<Mapping>, children: Children)
  {
    && children.Keys <= menus.Keys
    && forall sig :: sig in menus ==> ChildrenOf(children, sig) == ChildEntries(menus, bmap, sig)
  }

  /** `build_tree`: group the links by their menu (`None` is the key error). */
  method BuildTree(menus: Menus, roots: seq<Menu>, bmap: seq<Mapping>)
    returns (children: Option<Children>, rootSigs: set<string>)
    ensures children.Some? <==> AllLinksFromMenus(menus, bmap)
    ensures children.Some? ==> IsTree(menus, bmap, children.value)
    ensures children.Some? ==> rootSigs == set r | r in roots :: r.sig
  {
    var result: Children := map[];
    assert IsTree(menus, bmap[..0], result);
    hide IsTree, ChildrenOf, IsLink, ChildOf;
    rootSigs := {};
    for i := 0 to |bmap|
      invariant AllLinksFromMenus(menus, bmap[..i])
      invariant IsTree(menus, bmap[..i], result)
    {
      var m := bmap[i];
      assert bmap[..i + 1] == bmap[..i] + [m];
      TreeStep(menus, bmap[..i], m, result);
      if IsLink(menus, m) {
        if m.sig !in menus {
          assert m in bmap;
          return None, {};
        }
        result := result[m.sig := ChildrenOf(result, m.sig) + [ChildOf(menus, m)]];
      }
    }
    assert bmap[..|bmap|] == bmap;
    return Some(result), set r | r in roots :: r.sig;
  }

  lemma TreeStep(menus: Menus, bmap: seq<Mapping>, m: Mapping, children: Children)
    requires IsTree(menus, bmap, children)
    ensures !IsLink(menus, m) ==> IsTree(menus, bmap + [m], children)
    ensures IsLink(menus, m) && m.sig in menus ==>
      IsTree(menus, bmap + [m], children[m.sig := ChildrenOf(children, m.sig) + [ChildOf(menus, m)]])
  {
    assert (bmap + [m])[..|bmap|] == bmap;
  }

  // ------------------------------------------------------------- reachability

  /** Pressing buttons of `from` can open `to`. */
  predicate Opens(children: Children, from: string, to: string)
  {
    exists k :: 0 <= k < |ChildrenOf(children, from)| && ChildrenOf(children, from)[k].sig == to
  }

  ghost predicate IsPath(menus: Menus, children: Children, p: seq<string>)
  {
    && p != []
    && forall k :: 0 <= k < |p| - 1 ==> p[k] in menus && Opens(children, p[k], p[k + 1])
  }

  ghost predicate Reachable(menus: Menus, children: Children, from: string, to: string)
  {
    exists p :: IsPath(menus, children, p) && p[0] == from && p[|p| - 1] == to
  }

  /** A known menu with a button that the map does not mention. */
  predicate HasUnmapped(menus: Menus, mapped: set<(string, nat)>, sig: string)
  {
    sig in menus && exists b: nat :: b < |menus[sig].buttons| && (sig, b) !in mapped
  }

  /** Some menu reachable from `sig` has an unmapped button. */
  ghost predicate UnknownBelow(menus: Menus, mapped: set<(string, nat)>, children: Children, sig: string)
  {
    exists s :: Reachable(menus, children, sig, s) && HasUnmapped(menus, mapped, s)
  }

  lemma ReachableSelf(menus: Menus, children: Children, sig: string)
    ensures Reachable(menus, children, sig, sig)
  {
    assert IsPath(menus, children, [sig]);
  }

  lemma UnknownBelowChild(menus: Menus, mapped: set<(string, nat)>, children: Children, sig: string, child: string)
    requires sig in menus && Opens(children, sig, child) && UnknownBelow(menus, mapped, children, child)
    ensures UnknownBelow(menus, mapped, children, sig)
  {
    var s :| Reachable(menus, children, child, s) && HasUnmapped(menus, mapped, s);
    var p :| IsPath(menus, children, p) && p[0] == child && p[|p| - 1] == s;
    var q := [sig] + p;
    forall k | 0 <= k < |q| - 1
      ensures q[k] in menus && Opens(children, q[k], q[k + 1])
    {
      if k > 0 {
        assert q[k] == p[k - 1] && q[k + 1] == p[k];
      }
    }
    assert IsPath(menus, children, q) && q[0] == sig && q[|q| - 1] == s;
  }

  // -------------------------------------------------------------- the search

  /** The set that all calls of one search share. */
  class Visited {
    var seen: set<string>

    constructor ()
      ensures seen == {}
    {
      seen := {};
    }
  }

  /** Menus finished between two moments of the search: fully mapped, and all they open has been seen. */
  ghost predicate Finished(menus: Menus, mapped: set<(string, nat)>, children: Children, done: set<string>,
      seen: set<string>)
  {
    forall s :: s in done && s in menus ==>
      !HasUnmapped(menus, mapped, s) && forall c :: Opens(children, s, c) ==> c in seen
  }

  /** `has_unknown_below` with the shared visited set.  It terminates on cyclic graphs. */
  method HasUnknownBelow(sig: string, menus: Menus, mapped: set<(string, nat)>, children: Children, visited: Visited)
    returns (found: bool)
    modifies visited
    ensures old(visited.seen) + {sig} <= visited.seen
    ensures found ==> UnknownBelow(menus, mapped, children, sig)
    ensures !found ==> Finished(menus, mapped, children, visited.seen - old(visited.seen), visited.seen)
    decreases menus.Keys - visited.seen, sig !in visited.seen
  {
    if sig in visited.seen {
      return false;
    }
    visited.seen := visited.seen + {sig};
    if sig !in menus {
      return false;
    }
    var menu := menus[sig];
    for b := 0 to |menu.buttons|
      invariant forall b' :: 0 <= b' < b ==> (sig, b') in mapped
      invariant visited.seen == old(visited.seen) + {sig}
    {
      if (sig, b) !in mapped {
        ReachableSelf(menus, children, sig);
        assert HasUnmapped(menus, mapped, sig);
        return true;
      }
    }
    var links := ChildrenOf(children, sig);
    for k := 0 to |links|
      invariant old(visited.seen) + {sig} <= visited.seen
      invariant Finished(menus, mapped, children, visited.seen - old(visited.seen) - {sig}, visited.seen)
      invariant forall k' :: 0 <= k' < k ==> links[k'].sig in visited.seen
    {
      assert Opens(children, sig, links[k].sig);
      ghost var before := visited.seen;
      var below := HasUnknownBelow(links[k].sig, menus, mapped, children, visited);
      if below {
        UnknownBelowChild(menus, mapped, children, sig, links[k].sig);
        return true;
      }
      StillFinished(menus, mapped, children, old(visited.seen) + {sig}, before, visited.seen);
    }
    return false;
  }

  lemma StillFinished(menus: Menus, mapped: set<(string, nat)>, children: Children,
                      start: set<string>, middle: set<string>, end: set<string>)
    requires start <= middle <= end
    requires Finished(menus, mapped, children, middle - start, middle)
    requires Finished(menus, mapped, children, end - middle, end)
    ensures Finished(menus, mapped, children, end - start, end)
  {
  }

  /** A set of finished menus that is closed under opening holds everything reachable. */
  lemma {:induction false} ClosedHoldsPath(menus: Menus, mapped: set<(string, nat)>, children: Children,
      seen: set<string>, p: seq<string>)
    requires Finished(menus, mapped, children, seen, seen) && IsPath(menus, children, p) && p[0] in seen
    ensures p[|p| - 1] in seen
  {
    if |p| > 1 {
      var q := p[1..];
      assert p[0] in menus && Opens(children, p[0], p[1]);
      forall k | 0 <= k < |q| - 1
        ensures q[k] in menus && Opens(children, q[k], q[k + 1])
      {
        assert q[k] == p[k + 1] && q[k + 1] == p[k + 2];
      }
      ClosedHoldsPath(menus, mapped, children, seen, q);
    }
  }

  /** `has_unknown_below` as it is called from outside: with a fresh visited set it
    * answers exactly whether an unmapped button is reachable. */
  method HasUnknown(sig: string, menus: Menus, mapped: set<(string, nat)>, children: Children) returns (found: bool)
    ensures found <==> UnknownBelow(menus, mapped, children, sig)
  {
    var visited := new Visited();
    found := HasUnknownBelow(sig, menus, mapped, children, visited);
    if !found && UnknownBelow(menus, mapped, children, sig) {
      ghost var s :| Reachable(menus, children, sig, s) && HasUnmapped(menus, mapped, s);
      ghost var p :| IsPath(menus, children, p) && p[0] == sig && p[|p| - 1] == s;
      ClosedHoldsPath(menus, mapped, children, visited.seen, p);
      assert false;
    }
  }

  /** The button map has an entry that opens menu `c` from menu `s` by a button, and `c` is known. */
  ghost predicate Links(menus: Menus, bmap: seq<Mapping>, s: string, button: nat, c: string)
  {
    c != "" && c in menus && Mapping(s, button, "MENU", Some(c)) in bmap
  }

  /** The text of a button, or 0 if the menu has no such button. */
  function TextOf(menu: Menu, button: nat): int { if button < |menu.buttons| then menu.buttons[button] else 0 }

  /** A link of the menu, with the text of its button. */
  ghost predicate IsChild(menus: Menus, bmap: seq<Mapping>, s: string, child: Child)
  {
    s in menus && Links(menus, bmap, s, child.button, child.sig) && child.text == TextOf(menus[s], child.button)
  }

  /** What `build_tree` returns is a graph the search accepts, and its links are those of the button map. */
  lemma TreeLinks(menus: Menus, bmap: seq<Mapping>, children: Children)
    requires AllLinksFromMenus(menus, bmap) && IsTree(menus, bmap, children)
    ensures forall s, child :: child in ChildrenOf(children, s) <==> IsChild(menus, bmap, s, child)
    ensures forall s, c :: Opens(children, s, c) <==> s in menus && exists button :: Links(menus, bmap, s, button, c)
    ensures forall s, c :: Opens(children, s, c) ==> c in menus
  {
    forall s, child
      ensures child in ChildrenOf(children, s) <==> IsChild(menus, bmap, s, child)
    {
      if s in menus {
        EntriesAreLinks(menus, bmap, s, child);
      } else {
        assert s !in children;
      }
    }
    forall s, c
      ensures Opens(children, s, c) <==> s in menus && exists button :: Links(menus, bmap, s, button, c)
    {
      OpensByChild(children, s, c);
      if s in menus {
        if button :| Links(menus, bmap, s, button, c) {
          assert Child(button, TextOf(menus[s], button), c) in ChildrenOf(children, s);
        }
      }
    }
  }

  lemma OpensByChild(children: Children, s: string, c: string)
    ensures Opens(children, s, c) <==> exists child :: child in ChildrenOf(children, s) && child.sig == c
  {
    var entries := ChildrenOf(children, s);
    if child :| child in entries && child.sig == c {
      var k :| 0 <= k < |entries| && entries[k] == child;
    }
  }

  lemma {:induction false} EntriesAreLinks(menus: Menus, bmap: seq<Mapping>, s: string, child: Child)
    requires s in menus
    ensures child in ChildEntries(menus, bmap, s)
      <==> Links(menus, bmap, s, child.button, child.sig) && child.text == TextOf(menus[s], child.button)
  {
    if bmap != [] {
      var front, last := bmap[..|bmap| - 1], bmap[|bmap| - 1];
      assert bmap == front + [last];
      EntriesAreLinks(menus, front, s, child);
    }
  }
}
