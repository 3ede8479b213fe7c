/** The calls that the Lua scanner reads off the lines of a script. */
module LuaCalls {
  import opened Sequences
  import opened Text
  import opened Wrappers

  // ------------------------------------------------------------------ line parsers

  /** `s.split(',')`. */
  function SplitComma(s: string): seq<string>
  {
    match Find(s, ",")
    case None => [s]
    case Some(i) => [s[..i]] + SplitComma(s[i + 1..])
  }

  function TrimAll(args: seq<string>): (r: seq<string>)
    ensures |r| == |args|
  {
    seq(|args|, i requires 0 <= i < |args| => Trim(args[i]))
  }

  /** `parse_comma_args`. */
  function CommaArgs(s: string): seq<string> { TrimAll(SplitComma(s)) }

  /** `parse_int_arg`: a number, possibly with a sign. */
  function ParseIntArg(arg: string): (r: Option<I32>)
  {
    var s := Trim(arg);
    if s != "" && s[0] == '+' then
      if |s| > 1 && s[1] == '-' then None else ParseI32(s[1..])
    else ParseI32(s)
  }

  /** The arguments of the first call of `name` in the line. */
  function CallArgs(line: string, name: string): Option<seq<string>>
  {
    match Find(line, name + "(")
    case None => None
    case Some(start) =>
      var rest := line[start + |name| + 1..];
      match Find(rest, ")")
      case None => None
      case Some(end) => Some(CommaArgs(rest[..end]))
  }

  /** The number after the first comma of such a call. */
  function SecondInt(line: string, name: string): Option<I32>
  {
    match CallArgs(line, name)
    case None => None
    case Some(args) => if |args| >= 2 then ParseIntArg(args[1]) else None
  }

  /** `parse_save_event`. */
  function ParseSaveEvent(line: string): Option<I32> { SecondInt(line, "SaveEvent") }

  /** `parse_exchange`: the first of four calls that is there and has a number. */
  function ParseExchange(line: string): Option<I32>
  {
    ExchangeAmong(line, ["RunQuestExchange", "RunCountExchange", "RunRandomExchange", "CheckExchange"])
  }

  function ExchangeAmong(line: string, names: seq<string>): Option<I32>
  {
    if names == [] then None
    else if Find(line, names[0] + "(").None? then ExchangeAmong(line, names[1..])
    else if CallArgs(line, names[0]).None? then None
    else
      var id := SecondInt(line, names[0]);
      if id.Some? then id else ExchangeAmong(line, names[1..])
  }

  datatype SelectMsg = SelectMsg(flag: I32, quest: I32, header: I32, npc: I32, buttons: seq<(I32, I32)>)

  function IntOr(arg: string, default: I32): I32
  {
    match ParseIntArg(arg)
    case None => default
    case Some(n) => n
  }

  /** The buttons: a text and the event it leads to, pair by pair. */
  function ButtonsOf(args: seq<string>): seq<(I32, I32)>
  {
    if |args| < 2 then [] else [(IntOr(args[0], 0), IntOr(args[1], -1))] + ButtonsOf(args[2..])
  }

  /** `parse_select_msg`. */
  function ParseSelectMsg(line: string): Option<SelectMsg>
  {
    match CallArgs(line, "SelectMsg")
    case None => None
    case Some(args) =>
      if |args| < 5 then None
      else
        match ParseIntArg(args[1])
        case None => None
        case Some(flag) =>
          Some(SelectMsg(flag, IntOr(args[2], -1), IntOr(args[3], 0), IntOr(args[4], 0), ButtonsOf(args[5..])))
  }

  // ------------------------------------------------------------- the calls of a block

  /** The calls the scanner keeps of a block, in order. */
  datatype Calls = Calls(selects: seq<SelectMsg>, exchanges: seq<I32>, saves: seq<I32>)

  function Listed<T>(o: Option<T>): seq<T>
  {
    match o
    case None => []
    case Some(x) => [x]
  }

  /** The calls of one trimmed line; a comment has none. */
  function TrimmedCalls(trimmed: string): Calls
  {
    if StartsWith(trimmed, "--") then Calls([], [], [])
    else Calls(Listed(ParseSelectMsg(trimmed)), Listed(ParseExchange(trimmed)), Listed(ParseSaveEvent(trimmed)))
  }

  function Both(a: Calls, b: Calls): Calls
  {
    Calls(a.selects + b.selects, a.exchanges + b.exchanges, a.saves + b.saves)
  }

  function CallsIn(lines: seq<string>): Calls
  {
    if lines == [] then Calls([], [], [])
      else Both(CallsIn(lines[..|lines| - 1]), TrimmedCalls(Trim(lines[|lines| - 1])))
  }

  lemma CallsMore(lines: seq<string>, line: string)
    ensures CallsIn(lines + [line]) == Both(CallsIn(lines), TrimmedCalls(Trim(line)))
  {
    assert (lines + [line])[..|lines|] == lines;
  }

  // --------------------------------------------------------------- reading what is printed

  /** An argument that reads as itself. */
  predicate Atom(a: string) { a != "" && forall c :: c in a ==> c != ',' && c != ')' && c != '(' && !IsWhite(c) }

  predicate Atoms(args: seq<string>) { args != [] && forall a :: a in args ==> Atom(a) }

  function Joined(args: seq<string>): string
  {
    if args == [] then "" else if |args| == 1 then args[0] else args[0] + (", " + Joined(args[1..]))
  }

  /** A call as it is written. */
  function Call(name: string, args: seq<string>): string { name + ("(" + (Joined(args) + ")")) }

  lemma AtomTrimmed(a: string)
    requires Atom(a)
    ensures Trim(a) == a && Trim(" " + a) == a
  {
    assert a[0] in a && a[|a| - 1] in a;
    assert (" " + a)[1..] == a;
    assert TrimStart(a) == a && TrimEnd(a) == a;
  }

  predicate Blank(b: string) { b == "" || b == " " }

  lemma NoComma(blank: string, a: string)
    requires Atom(a) && Blank(blank)
    ensures ',' !in blank + a
  {
    assert forall c :: c in blank + a ==> c in blank || c in a;
  }

  lemma SplitAt(x: string, rest: string)
    requires ',' !in x
    ensures SplitComma(x + ("," + rest)) == [x] + SplitComma(rest)
  {
    hide Find;
    CharBehind(x, ',', rest);
    var s := x + ("," + rest);
    assert s[..|x|] == x && s[|x| + 1..] == rest;
  }

  lemma SplitOnce(blank: string, a: string, rest: string)
    requires Atom(a) && Blank(blank)
    ensures SplitComma(blank + (a + (", " + rest))) == [blank + a] + SplitComma(" " + rest)
  {
    hide SplitComma, Atom, Blank;
    NoComma(blank, a);
    SplitAt(blank + a, " " + rest);
    assert blank + (a + (", " + rest)) == (blank + a) + ("," + (" " + rest));
  }

  lemma SplitLast(blank: string, a: string)
    requires Atom(a) && Blank(blank)
    ensures SplitComma(blank + a) == [blank + a]
  {
    hide Find;
    NoComma(blank, a);
    CharNowhere(blank + a, ',');
  }

  lemma TrimFirst(x: string, rest: seq<string>)
    ensures TrimAll([x] + rest) == [Trim(x)] + TrimAll(rest)
  {
    hide Trim;
  }

  /** Splitting undoes joining, up to the blank behind each comma. */
  lemma {:induction false} SplitJoined(blank: string, args: seq<string>)
    requires Atoms(args) && Blank(blank)
    ensures TrimAll(SplitComma(blank + Joined(args))) == args
    decreases |args|
  {
    hide SplitComma, Trim, TrimAll, Atom, Blank;
    BlankTrimmed(blank, args[0]);
    if |args| == 1 {
      SplitLast(blank, args[0]);
      TrimFirst(blank + args[0], []);
      assert args == [args[0]] && TrimAll([]) == [];
      assert [blank + args[0]] + [] == [blank + args[0]];
    } else {
      SplitOnce(blank, args[0], Joined(args[1..]));
      TrimFirst(blank + args[0], SplitComma(" " + Joined(args[1..])));
      assert Blank(" ") by { IsBlank(); }
      SplitJoined(" ", args[1..]);
      assert args == [args[0]] + args[1..];
    }
  }

  lemma IsBlank()
    ensures Blank(" ") && Blank("")
  {
  }

  lemma BlankTrimmed(blank: string, a: string)
    requires Atom(a) && Blank(blank)
    ensures Trim(blank + a) == a
  {
    hide Trim;
    AtomTrimmed(a);
    assert "" + a == a;
  }

  lemma {:induction false} JoinedChars(args: seq<string>)
    requires forall a :: a in args ==> Atom(a)
    ensures forall c :: c in Joined(args) ==> c != ')' && c != '('
  {
    if |args| == 1 {
      assert args[0] in args;
    } else if |args| > 1 {
      JoinedChars(args[1..]);
      assert args[0] in args;
      assert Joined(args) == args[0] + (", " + Joined(args[1..]));
    }
  }

  /** A call is read with its arguments, behind anything that has no letter its name starts with. */
  lemma CallRead(before: string, name: string, args: seq<string>, after: string)
    requires Atoms(args) && name != "" && name[0] !in before
    ensures CallArgs(before + (Call(name, args) + after), name) == Some(args)
  {
    hide Find, SplitComma, TrimAll, Atom;
    var line, list := before + (Call(name, args) + after), Joined(args);
    NameFound(before, name, list + (")" + after));
    assert line == before + ((name + "(") + (list + (")" + after)));
    assert line[|before| + |name| + 1..] == list + (")" + after);
    JoinedChars(args);
    CharBehind(list, ')', after);
    assert (list + (")" + after))[..|list|] == "" + list;
    IsBlank();
    SplitJoined("", args);
  }

  lemma NameFound(before: string, name: string, after: string)
    requires name != "" && name[0] !in before
    ensures Find(before + ((name + "(") + after), name + "(") == Some(|before|)
  {
    hide Find;
    var pat := name + "(";
    var line := before + (pat + after);
    assert line[|before|..|before| + |pat|] == pat;
    forall i | 0 <= i < |before|
      ensures line[i] != pat[0]
    {
      assert line[i] == before[i] && before[i] in before;
    }
    FirstAt(line, pat, |before|);
  }

  /** A pattern is found where its first letter first stands. */
  lemma FirstAt(line: string, pat: string, n: nat)
    requires pat != "" && OccursAt(line, pat, n) && forall i :: 0 <= i < n ==> line[i] != pat[0]
    ensures Find(line, pat) == Some(n)
  {
    hide Find;
    var r := Find(line, pat);
    if r.Some? {
      FirstLetter(line, pat, r.value);
    }
  }

  lemma FirstLetter(line: string, pat: string, i: nat)
    requires pat != "" && OccursAt(line, pat, i)
    ensures i < |line| && line[i] == pat[0]
  {
    assert line[i..i + |pat|][0] == line[i];
  }

  /** No call of a name where no parenthesis opens. */
  lemma NoParenthesis(line: string, name: string)
    requires '(' !in line
    ensures Find(line, name + "(").None?
  {
    hide Find;
    var r := Find(line, name + "(");
    if r.Some? {
      ParenthesisAt(line, name, r.value);
    }
  }

  lemma ParenthesisAt(line: string, name: string, i: nat)
    requires OccursAt(line, name + "(", i)
    ensures i + |name| < |line| && line[i + |name|] == '(' && line[i..i + |name|] == name
    ensures line[i + |name|] in line
  {
    assert line[i..i + |name| + 1][|name|] == line[i + |name|];
    assert line[i..i + |name| + 1][..|name|] == name;
  }

  /** No call of a name where the one parenthesis opens behind something else. */
  lemma OtherCall(before: string, after: string, name: string)
    requires '(' !in before && '(' !in after && !EndsWith(before, name)
    ensures Find(before + ("(" + after), name + "(").None?
  {
    hide Find;
    var line := before + ("(" + after);
    var r := Find(line, name + "(");
    if r.Some? {
      ParenthesisAt(line, name, r.value);
      OneParenthesis(before, after, r.value + |name|);
      EndIs(before, "(" + after, name, r.value);
    }
  }

  lemma OneParenthesis(before: string, after: string, k: nat)
    requires '(' !in before && '(' !in after
    requires var line := before + ("(" + after); k < |line| && line[k] == '('
    ensures k == |before|
  {
  }

  lemma EndIs(before: string, rest: string, name: string, i: nat)
    requires i + |name| == |before| && (before + rest)[i..i + |name|] == name
    ensures EndsWith(before, name)
  {
    assert (before + rest)[i..|before|] == before[i..];
  }
}
