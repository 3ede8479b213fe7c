/** Putting the generated block into quest files, and what the scanner then finds there. */
module QuestFiles {
  import opened Sequences
  import opened Sorting
  import opened Text
  import opened LuaParser
  import opened QuestAnalyzer
  import opened QuestGenerator
  import opened Wrappers

  // ------------------------------------------------------------ stripping a block

  /** What the stripper looks for: a line feed, the rule, and the title. */
  function Marker(): string { "\n" + (Sep() + ("\n-- " + Title())) }

  function RuleStart(): string { "-- \U{2550}\U{2550}\U{2550}" }

  /** The lines before the first that holds the title. */
  function BeforeTitle(lines: seq<string>): seq<string>
  {
    if lines == [] || Contains(lines[0], Title()) then [] else [lines[0]] + BeforeTitle(lines[1..])
  }

  function DropRules(lines: seq<string>): seq<string>
  {
    if lines != [] && StartsWith(lines[|lines| - 1], RuleStart()) then DropRules(lines[..|lines| - 1]) else lines
  }

  function DropEmpty(lines: seq<string>): seq<string>
  {
    if lines != [] && lines[|lines| - 1] == "" then DropEmpty(lines[..|lines| - 1]) else lines
  }

  function Join(lines: seq<string>): string
  {
    if lines == [] then "" else if |lines| == 1 then lines[0] else lines[0] + "\n" + Join(lines[1..])
  }

  /** The lines in front of a block whose rule is not the usual one. */
  function KeptLines(lines: seq<string>): seq<string> { DropEmpty(DropRules(BeforeTitle(lines))) }

  /** `strip_autogen_block`. */
  function Strip(content: string): string
  {
    match Find(content, Marker())
    case Some(pos) => TrimEnd(content[..pos]) + "\n"
    case None =>
      if Contains(content, Title()) then Join(KeptLines(Lines(content))) + "\n" else content
  }

  method LinesBeforeTitle(all: seq<string>) returns (lines: seq<string>)
    ensures lines == BeforeTitle(all)
  {
    hide Contains, Title;
    lines := [];
    var hitMarker := false;
    ghost var later := BeforeTitle(all);
    assert all[0..] == all;
    for i := 0 to |all|
      invariant later == if hitMarker then [] else BeforeTitle(all[i..])
      invariant lines + later == BeforeTitle(all)
    {
      assert all[i..][1..] == all[i + 1..];
      if Contains(all[i], Title()) {
        hitMarker, later := true, [];
      }
      if !hitMarker {
        later := BeforeTitle(all[i + 1..]);
        Regroup(lines, [all[i]], later);
        lines := lines + [all[i]];
      }
    }
    Regroup(lines, [], []);
  }

  method StripAutogenBlock(content: string) returns (r: string)
    ensures r == Strip(content)
  {
    hide Find, Contains, Lines, Title, Marker, RuleStart, Join, TrimEnd, BeforeTitle;
    var pos := Find(content, Marker());
    if pos.Some? {
      var trimmed := TrimEnd(content[..pos.value]);
      r := trimmed + "\n";
    } else if Contains(content, Title()) {
      var lines := LinesBeforeTitle(Lines(content));
      ghost var before := lines;
      while |lines| > 0 && StartsWith(lines[|lines| - 1], RuleStart())
        invariant DropRules(lines) == DropRules(before)
        decreases |lines|
      {
        lines := lines[..|lines| - 1];
      }
      while |lines| > 0 && lines[|lines| - 1] == ""
        invariant DropEmpty(lines) == DropEmpty(DropRules(before))
        decreases |lines|
      {
        lines := lines[..|lines| - 1];
      }
      r := Join(lines) + "\n";
    } else {
      r := content;
    }
  }

  // --------------------------------------------------------------- writing a block

  /** The content in front of the new block. */
  function Base(content: string): string
  {
    var base := Strip(content);
    if EndsWith(base, "\n") then base else base + "\n"
  }

  /** A quest file with generated code put into it. */
  function Apply(content: string, code: string): string { Base(content) + code }

  function Applied(dir: map<string, string>, generated: map<string, string>): map<string, string>
  {
    map f | f in dir :: if f in generated then Apply(dir[f], generated[f]) else dir[f]
  }

  method ApplyToFile(existing: string, code: string) returns (newContent: string)
    ensures newContent == Apply(existing, code)
  {
    hide Strip;
    newContent := StripAutogenBlock(existing);
    if !EndsWith(newContent, "\n") {
      newContent := newContent + "\n";
    }
    newContent := newContent + code;
  }

  /** How many of the files are there. */
  ghost function Shared(dir: map<string, string>, files: set<string>): nat { |dir.Keys * files| }

  lemma OneMore(dir: map<string, string>, files: set<string>, f: string)
    requires f !in files
    ensures Shared(dir, files + {f}) == Shared(dir, files) + (if f in dir then 1 else 0)
  {
    if f in dir {
      assert dir.Keys * (files + {f}) == dir.Keys * files + {f};
    } else {
      assert dir.Keys * (files + {f}) == dir.Keys * files;
    }
  }

  /** The files of `done` have their code; the others are as they were. */
  ghost predicate Progress(dir: map<string, string>, dir': map<string, string>, generated: map<string, string>,
      done: set<string>)
  {
    && done <= generated.Keys && dir'.Keys == dir.Keys
    && forall f :: f in dir ==> dir'[f] == if f in done then Apply(dir[f], generated[f]) else dir[f]
  }

  lemma ProgressStep(dir: map<string, string>, dir': map<string, string>, generated: map<string, string>,
      done: set<string>, f: string)
    requires Progress(dir, dir', generated, done) && f in generated && f !in done
    ensures f !in dir ==> Progress(dir, dir', generated, done + {f})
    ensures f in dir ==>
      f in dir' && dir'[f] == dir[f] && Progress(dir, dir'[f := Apply(dir[f], generated[f])], generated, done + {f})
  {
    hide Apply;
  }

  lemma ProgressEnds(dir: map<string, string>, dir': map<string, string>, generated: map<string, string>)
    requires Progress(dir, dir', generated, generated.Keys)
    ensures dir' == Applied(dir, generated)
  {
    hide Apply;
  }

  lemma NoProgress(dir: map<string, string>, generated: map<string, string>)
    ensures Progress(dir, dir, generated, {}) && Shared(dir, {}) == 0
  {
  }

  /** `apply_generated` on the files of the quest directory. */
  method ApplyGenerated(dir: map<string, string>, generated: map<string, string>)
    returns (dir': map<string, string>, modified: nat)
    ensures dir' == Applied(dir, generated)
    ensures modified == Shared(dir, generated.Keys)
  {
    hide Apply, Progress, Applied, Shared;
    dir', modified := dir, 0;
    var left := generated.Keys;
    ghost var done: set<string> := {};
    NoProgress(dir, generated);
    while left != {}
      invariant left <= generated.Keys && done == generated.Keys - left
      invariant Progress(dir, dir', generated, done)
      invariant modified == Shared(dir, done)
    {
      var filename :| filename in left;
      OneMore(dir, done, filename);
      ProgressStep(dir, dir', generated, done, filename);
      left, done := left - {filename}, done + {filename};
      if filename !in dir {
        continue;
      }
      var newContent := ApplyToFile(dir'[filename], generated[filename]);
      dir' := dir'[filename := newContent];
      modified := modified + 1;
    }
    assert done == generated.Keys;
    ProgressEnds(dir, dir', generated);
  }

  // ------------------------------------------------- trailing white space is no event

  /** The event of an unfinished last line. */
  function TailKeys(x: string): set<int> { if EventOf(x).Some? then {EventOf(x).value} else {} }

  lemma KeysOfTail(a: string, x: string)
    requires WholeLines(a) && '\n' !in x
    ensures EventKeys(a + x) == EventKeys(a) + TailKeys(x)
    ensures EventKeys(a + (x + "\n")) == EventKeys(a) + TailKeys(x)
  {
    hide EventOf, Lines, StripCr;
    NoKeyword("");
    LinesAppend(a, x);
    LinesOfTail(x);
    EventsAppend(EventOf, Lines(a), Lines(x));
    KeysOfOne(x);
    LinesAppend(a, x + "\n");
    LinesOfLine(x);
    EventsAppend(EventOf, Lines(a), [StripCr(x)]);
    KeysOfOne(StripCr(x));
    StrippedEvent(x);
    assert EventsIn([]) == {};
  }

  lemma KeysOfOne(l: string)
    ensures EventsIn([l]) == TailKeys(l)
  {
    hide EventOf;
    assert [l][0] == l;
  }

  lemma StrippedEvent(x: string)
    ensures EventOf(StripCr(x)) == EventOf(x)
  {
    hide ParseEventIf, ParseElseifEvent;
    if EndsWith(x, "\r") {
      assert x == StripCr(x) + "\r" && x[..|x| - 1] == StripCr(x);
      TrimDropsWhite(StripCr(x), '\r');
    }
  }

  lemma {:induction false} TrimStartSnoc(x: string, w: char)
    ensures TrimStart(x + [w]) == if TrimStart(x) == "" then TrimStart([w]) else TrimStart(x) + [w]
  {
    if x == "" {
      assert x + [w] == [w];
    } else {
      assert (x + [w])[1..] == x[1..] + [w];
      if IsWhite(x[0]) {
        TrimStartSnoc(x[1..], w);
      }
    }
  }

  lemma TrimDropsWhite(x: string, w: char)
    requires IsWhite(w)
    ensures Trim(x + [w]) == Trim(x)
  {
    TrimStartSnoc(x, w);
    var t := TrimStart(x);
    assert (t + [w])[..|t|] == t;
  }

  /** The last line break, if any. */
  lemma {:induction false} SplitLast(s: string) returns (a: string, x: string)
    ensures s == a + x && WholeLines(a) && '\n' !in x
  {
    if s == "" || s[|s| - 1] == '\n' {
      a, x := s, "";
    } else {
      var b, y := SplitLast(s[..|s| - 1]);
      a, x := b, y + [s[|s| - 1]];
      assert s == s[..|s| - 1] + [s[|s| - 1]];
    }
  }

  lemma WhiteAtEnd(s: string, w: char)
    requires IsWhite(w)
    ensures EventKeys(s + [w]) == EventKeys(s)
  {
    hide EventKeys, ParseEventIf, ParseElseifEvent, IsWhite, Trim;
    var a, x := SplitLast(s);
    KeysOfTail(a, x);
    if w == '\n' {
      assert s + [w] == a + (x + "\n");
    } else {
      assert s + [w] == a + (x + [w]);
      KeysOfTail(a, x + [w]);
      TrimDropsWhite(x, w);
    }
  }

  lemma {:induction false} TrimmedKeys(s: string)
    ensures EventKeys(TrimEnd(s)) == EventKeys(s)
  {
    hide EventKeys;
    if s != "" && IsWhite(s[|s| - 1]) {
      TrimmedKeys(s[..|s| - 1]);
      WhiteAtEnd(s[..|s| - 1], s[|s| - 1]);
      assert s == s[..|s| - 1] + [s[|s| - 1]];
    }
  }

  lemma BaseKeys(content: string)
    ensures EventKeys(Base(content)) == EventKeys(Strip(content)) && WholeLines(Base(content)) && Base(content) != ""
  {
    hide Strip, EventKeys;
    WhiteAtEnd(Strip(content), '\n');
    var base := Strip(content);
    if EndsWith(base, "\n") {
      assert base[|base| - 1] == base[|base| - 1..][0];
    }
  }

  // ---------------------------------------------------------------- the main results

  /** For any content, a file with the block applied handles what was left of its own events
    * and exactly the generated ones. */
  lemma ApplyKeys(content: string, ms: seq<MissingHandler>, tbl: Tables)
    ensures EventKeys(Apply(content, Code(ms, tbl))) == EventKeys(Strip(content)) + IdSet(ms)
  {
    hide Code, BlockLines, Lines, EventsBy, Strip, Base, Opened;
    var code := Code(ms, tbl);
    BaseKeys(content);
    LinesAppend(Base(content), code);
    EventsAppend(EventOf, Lines(Base(content)), Lines(code));
    CodeKeys(ms, tbl);
  }

  lemma CodeKeys(ms: seq<MissingHandler>, tbl: Tables)
    ensures EventKeys(Code(ms, tbl)) == IdSet(ms)
  {
    hide Code, BlockLines, Lines, EventsBy, Opened, Kept;
    BlockOpens(ms, tbl);
    OpenedIsEvents(Lines(Code(ms, tbl)));
    OneHandlerPerEvent(ms);
    IdsAreSet(Kept(ms));
    forall e
      ensures e in EventsIn(Lines(Code(ms, tbl))) <==> e in IdSet(ms)
    {
      assert e in Opened(Lines(Code(ms, tbl))) <==> e in Ids(Kept(ms));
    }
  }

  // ------------------------------------------------------------- finding the block again

  lemma MarkerParts()
    ensures Marker() != "" && Marker()[0] == '\n' && Marker()[|Marker()| - 1] != '\n'
    ensures forall k :: 0 < k < |Marker()| && Marker()[k] == '\n' ==> Marker()[k - 1] != '\n'
  {
    var sep, rest := Sep(), "-- " + Title();
    assert '\n' !in rest;
    hide Sep, Title;
    forall k | 0 < k <= |sep|
      ensures Marker()[k] != '\n'
    {
      assert Marker()[k] == sep[k - 1];
    }
    forall k | 1 + |sep| < k < |Marker()|
      ensures Marker()[k] != '\n'
    {
      assert Marker()[k] == rest[k - 2 - |sep|];
    }
  }

  lemma OccursInPrefix(p: string, s: string, pat: string, i: nat)
    requires p <= s && OccursAt(p, pat, i)
    ensures OccursAt(s, pat, i)
  {
    assert s[i..i + |pat|] == p[i..i + |pat|];
  }

  lemma OccurrenceChars(s: string, pat: string, i: nat, j: nat)
    requires OccursAt(s, pat, i) && i <= j < i + |pat|
    ensures s[j] == pat[j - i] && s[j] in pat
  {
    assert s[i..i + |pat|][j - i] == s[j];
  }

  lemma OccursBeforeEnd(p: string, pat: string, i: nat)
    requires OccursAt(p + "\n", pat, i) && pat != "" && pat[|pat| - 1] != '\n'
    ensures OccursAt(p, pat, i)
  {
    var s := p + "\n";
    OccurrenceChars(s, pat, i, i + |pat| - 1);
    assert s[i..i + |pat|] == p[i..i + |pat|];
  }

  /** A line feed at the end completes no marker. */
  lemma AddNewline(p: string, pat: string)
    requires Find(p, pat).None? && pat != "" && pat[|pat| - 1] != '\n'
    ensures Find(p + "\n", pat).None?
  {
    hide OccursAt;
    if Find(p + "\n", pat).Some? {
      OccursBeforeEnd(p, pat, Find(p + "\n", pat).value);
    }
  }

  lemma TrimmedPrefixAbsent(s: string, pat: string)
    requires Find(s, pat).Some? && pat != ""
    ensures Find(TrimEnd(s[..Find(s, pat).value]), pat).None?
  {
    var pos := Find(s, pat).value;
    var t := TrimEnd(s[..pos]);
    assert t <= s[..pos] <= s;
    if Find(t, pat).Some? {
      OccursInPrefix(t, s, pat, Find(t, pat).value);
    }
  }

  lemma OccursAtEnd(s: string, x: string, pat: string, i: nat)
    requires OccursAt(s, x + pat, i)
    ensures OccursAt(s, pat, i + |x|)
  {
    assert s[i + |x|..i + |x| + |pat|] == s[i..i + |x + pat|][|x|..];
    assert (x + pat)[|x|..] == pat;
  }

  lemma SuffixAbsent(s: string, x: string, pat: string)
    requires Find(s, pat).None?
    ensures Find(s, x + pat).None?
  {
    if Find(s, x + pat).Some? {
      OccursAtEnd(s, x, pat, Find(s, x + pat).value);
    }
  }

  /** No title, no marker. */
  lemma TitleNoMarker(s: string)
    requires Find(s, Title()).None?
    ensures Find(s, Marker()).None?
  {
    hide Find, Sep, Title;
    SuffixAbsent(s, "\n" + (Sep() + "\n-- "), Title());
    assert ("\n" + (Sep() + "\n-- ")) + Title() == Marker();
  }

  /** Text without a line feed occurs on one side of a line feed or the other. */
  lemma OccursBesideNewline(l: string, rest: string, pat: string, i: nat)
    requires OccursAt(l + "\n" + rest, pat, i) && '\n' !in pat
    ensures i + |pat| <= |l| ==> OccursAt(l, pat, i)
    ensures i + |pat| > |l| ==> i > |l| && OccursAt(rest, pat, i - |l| - 1)
  {
    var s := l + "\n" + rest;
    if i + |pat| <= |l| {
      assert l[i..i + |pat|] == s[i..i + |pat|];
    } else if i <= |l| {
      OccurrenceChars(s, pat, i, |l|);
    } else {
      assert rest[i - |l| - 1..i - |l| - 1 + |pat|] == s[i..i + |pat|];
    }
  }

  lemma LinesApartAbsent(l: string, rest: string, pat: string)
    requires Find(l, pat).None? && Find(rest, pat).None? && '\n' !in pat
    ensures Find(l + "\n" + rest, pat).None?
  {
    hide OccursAt;
    if Find(l + "\n" + rest, pat).Some? {
      OccursBesideNewline(l, rest, pat, Find(l + "\n" + rest, pat).value);
    }
  }

  ghost predicate NoTitle(lines: seq<string>) { forall l :: l in lines ==> Find(l, Title()).None? }

  lemma {:induction false} JoinedNoTitle(lines: seq<string>)
    requires NoTitle(lines)
    ensures Find(Join(lines), Title()).None?
  {
    assert Find("", Title()).None?;
    hide Find, Title;
    if |lines| > 1 {
      JoinedNoTitle(lines[1..]);
      assert lines[0] in lines;
      LinesApartAbsent(lines[0], Join(lines[1..]), Title());
    } else if |lines| == 1 {
      assert lines[0] in lines;
    }
  }

  lemma {:induction false} BeforeTitleNoTitle(lines: seq<string>)
    ensures NoTitle(BeforeTitle(lines))
  {
    hide Find, Title;
    if lines != [] {
      BeforeTitleNoTitle(lines[1..]);
    }
  }

  lemma {:induction false} DropRulesPrefix(lines: seq<string>)
    ensures DropRules(lines) <= lines
  {
    hide StartsWith;
    if lines != [] {
      DropRulesPrefix(lines[..|lines| - 1]);
    }
  }

  lemma {:induction false} DropEmptyPrefix(lines: seq<string>)
    ensures DropEmpty(lines) <= lines
  {
    if lines != [] {
      DropEmptyPrefix(lines[..|lines| - 1]);
    }
  }

  lemma PrefixNoTitle(p: seq<string>, lines: seq<string>)
    requires p <= lines && NoTitle(lines)
    ensures NoTitle(p)
  {
    hide Find, Title;
    forall l | l in p
      ensures Find(l, Title()).None?
    {
      assert l in lines;
    }
  }

  /** Stripping leaves no marker. */
  lemma StripNoMarker(content: string)
    ensures Find(Strip(content), Marker()).None?
  {
    hide Find, Marker, Title, TrimEnd, Lines, Join, DropRules, DropEmpty, BeforeTitle;
    MarkerParts();
    var pos := Find(content, Marker());
    if pos.Some? {
      TrimmedPrefixAbsent(content, Marker());
      AddNewline(TrimEnd(content[..pos.value]), Marker());
    } else if Contains(content, Title()) {
      var all := Lines(content);
      BeforeTitleNoTitle(all);
      DropRulesPrefix(BeforeTitle(all));
      PrefixNoTitle(DropRules(BeforeTitle(all)), BeforeTitle(all));
      DropEmptyPrefix(DropRules(BeforeTitle(all)));
      var kept := DropEmpty(DropRules(BeforeTitle(all)));
      PrefixNoTitle(kept, DropRules(BeforeTitle(all)));
      JoinedNoTitle(kept);
      TitleNoMarker(Join(kept));
      AddNewline(Join(kept), Marker());
    }
  }

  lemma BaseNoMarker(content: string)
    ensures Find(Base(content), Marker()).None?
  {
    hide Strip, Find, Marker;
    StripNoMarker(content);
    MarkerParts();
    AddNewline(Strip(content), Marker());
  }

  /** An occurrence that starts in front of the block lies there, or meets the line feeds on
    * both sides of the border. */
  lemma OccursBeforeBlock(base: string, code: string, pat: string, i: nat)
    requires OccursAt(base + code, pat, i) && i < |base| && code != ""
    ensures i + |pat| <= |base| ==> OccursAt(base, pat, i)
    ensures i + |pat| > |base| ==> pat[|base| - i] == code[0] && pat[|base| - i - 1] == base[|base| - 1]
  {
    var s := base + code;
    if i + |pat| <= |base| {
      assert base[i..i + |pat|] == s[i..i + |pat|];
    } else {
      OccurrenceChars(s, pat, i, |base|);
      OccurrenceChars(s, pat, i, |base| - 1);
    }
  }

  /** The first marker is the one of the block. */
  lemma BlockFound(base: string, code: string)
    requires WholeLines(base) && base != "" && Find(base, Marker()).None? && Marker() <= code
    ensures Find(base + code, Marker()) == Some(|base|)
  {
    hide Marker;
    MarkerParts();
    var m := Marker();
    var s := base + code;
    assert s[|base|..|base| + |m|] == m;
    assert OccursAt(s, m, |base|);
    var i := Find(s, m).value;
    if i < |base| {
      OccursBeforeBlock(base, code, m, i);
    }
  }

  lemma CodeStartsWithMarker(ms: seq<MissingHandler>, tbl: Tables)
    ensures Marker() <= Code(ms, tbl)
  {
    hide Sep, Title, HandlersLines, Kept;
    var later := HandlersLines(Kept(ms), tbl);
    var title := TitleLine();
    var three := [Sep(), ""] + later;
    var two := [title] + three;
    var one := [Sep()] + two;
    var all := BlockLines(ms, tbl);
    assert all == [""] + one;
    assert all[1..] == one && one[1..] == two && two[1..] == three;
    assert Written(two) == title + "\n" + Written(three);
    assert Written(one) == Sep() + "\n" + Written(two);
    assert Written(all) == "" + "\n" + Written(one);
    PrefixOfCode(Sep(), "-- " + Title(), " (ko-quest-gen)\n" + Written(three), Written(all));
  }

  lemma PrefixOfCode(sep: string, start: string, rest: string, code: string)
    requires code == "" + "\n" + (sep + "\n" + (start + rest))
    ensures "\n" + (sep + ("\n" + start)) <= code
  {
    assert code == ("\n" + (sep + ("\n" + start))) + rest;
  }

  // ----------------------------------------------------------- applying more than once

  lemma TrimEndWhite(s: string, w: char)
    requires IsWhite(w)
    ensures TrimEnd(s + [w]) == TrimEnd(s)
  {
    assert (s + [w])[..|s|] == s;
  }

  lemma {:induction false} TrimEndTwice(s: string)
    ensures TrimEnd(TrimEnd(s)) == TrimEnd(s)
  {
  }

  /** Stripping an applied block brings back the stripped content, less white space at its end. */
  lemma StripApplied(content: string, ms: seq<MissingHandler>, tbl: Tables)
    ensures Strip(Apply(content, Code(ms, tbl))) == TrimEnd(Strip(content)) + "\n"
  {
    hide Code, Find, Marker, TrimEnd, Join, EventKeys, DropRules, DropEmpty, BeforeTitle, Lines;
    var code := Code(ms, tbl);
    BaseNoMarker(content);
    BaseKeys(content);
    CodeStartsWithMarker(ms, tbl);
    BlockFound(Base(content), code);
    assert (Base(content) + code)[..|Base(content)|] == Base(content);
    TrimEndWhite(Strip(content), '\n');
  }

  /** A second block replaces the first, whatever the two are. */
  lemma SecondReplaces(content: string, ms1: seq<MissingHandler>, tbl1: Tables, ms2: seq<MissingHandler>, tbl2: Tables)
    ensures Apply(Apply(content, Code(ms1, tbl1)), Code(ms2, tbl2)) == TrimEnd(Strip(content)) + "\n" + Code(ms2, tbl2)
  {
    hide Code, TrimEnd, Strip;
    StripApplied(content, ms1, tbl1);
    var base := TrimEnd(Strip(content)) + "\n";
    assert base[|base| - 1..] == "\n";
  }

  /** Applying a block after any block, and once more, changes nothing. */
  lemma ThirdChangesNothing(content: string, ms1: seq<MissingHandler>, tbl1: Tables, ms2: seq<MissingHandler>,
      tbl2: Tables)
    ensures var twice := Apply(Apply(content, Code(ms1, tbl1)), Code(ms2, tbl2));
      Apply(twice, Code(ms2, tbl2)) == twice
  {
    hide Code, TrimEnd, Strip, Apply;
    var once := Apply(content, Code(ms1, tbl1));
    SecondReplaces(content, ms1, tbl1, ms2, tbl2);
    SecondReplaces(once, ms2, tbl2, ms2, tbl2);
    StripApplied(content, ms1, tbl1);
    TrimEndWhite(TrimEnd(Strip(content)), '\n');
    TrimEndTwice(Strip(content));
  }

  /** Applying the same block twice is applying it once, exactly when the content in front
    * of it ended in one line feed and no other white space. */
  lemma SecondExactly(content: string, ms: seq<MissingHandler>, tbl: Tables)
    ensures Apply(Apply(content, Code(ms, tbl)), Code(ms, tbl)) == Apply(content, Code(ms, tbl))
      <==> Base(content) == TrimEnd(Strip(content)) + "\n"
  {
    hide Code, TrimEnd, Strip, Base;
    SecondReplaces(content, ms, tbl, ms, tbl);
    SameFront(Base(content), TrimEnd(Strip(content)) + "\n", Code(ms, tbl));
  }

  lemma SameFront(a: string, b: string, c: string)
    ensures a + c == b + c <==> a == b
  {
    if a + c == b + c {
      assert |a| == |b|;
      assert a == (a + c)[..|a|] && b == (b + c)[..|b|];
    }
  }

  /** A second block with other handlers forgets those of the first: what is then handled
    * are the file's own events and the second block's. */
  lemma SecondForgets(content: string, ms1: seq<MissingHandler>, tbl1: Tables, ms2: seq<MissingHandler>, tbl2: Tables)
    ensures EventKeys(Apply(content, Code(ms1, tbl1))) == EventKeys(Strip(content)) + IdSet(ms1)
    ensures EventKeys(Apply(Apply(content, Code(ms1, tbl1)), Code(ms2, tbl2))) == EventKeys(Strip(content)) + IdSet(ms2)
  {
    hide Code, TrimEnd, Strip, EventKeys, Apply;
    ApplyKeys(content, ms1, tbl1);
    ApplyKeys(Apply(content, Code(ms1, tbl1)), ms2, tbl2);
    StripApplied(content, ms1, tbl1);
    WhiteAtEnd(TrimEnd(Strip(content)), '\n');
    TrimmedKeys(Strip(content));
  }

  // ------------------------------------------------------------- what stripping keeps

  lemma {:induction false} TrimEndKeeps(s: string)
    ensures forall i :: |TrimEnd(s)| <= i < |s| ==> IsWhite(s[i])
  {
    hide IsWhite;
    if s != "" && IsWhite(s[|s| - 1]) {
      var front := s[..|s| - 1];
      TrimEndKeeps(front);
      assert forall i :: 0 <= i < |front| ==> s[i] == front[i];
    }
  }

  /** The front of the file without the white space at its end. */
  ghost predicate IsTrimmed(front: string, t: string)
  {
    t <= front && (forall i :: |t| <= i < |front| ==> IsWhite(front[i])) && (t != "" ==> !IsWhite(t[|t| - 1]))
  }

  /** Without the title a file is left alone; in front of the rule and the title everything is kept but
    * the white space at its end. */
  lemma StripKeeps(content: string)
    ensures Find(content, "AUTO-GENERATED EVENT HANDLERS").None? ==> Strip(content) == content
    ensures Find(content, Marker()).Some? ==>
      var front := content[..Find(content, Marker()).value];
      exists t: string :: Strip(content) == t + "\n" && IsTrimmed(front, t)
  {
    hide Find, Marker, TrimEnd, Lines, Join, KeptLines, IsWhite, IsTrimmed;
    if Find(content, Title()).None? {
      TitleNoMarker(content);
    }
    if Find(content, Marker()).Some? {
      var front := content[..Find(content, Marker()).value];
      TrimmedFront(front);
      assert Strip(content) == TrimEnd(front) + "\n" && IsTrimmed(front, TrimEnd(front));
    }
  }

  lemma TrimmedFront(front: string)
    ensures IsTrimmed(front, TrimEnd(front))
  {
    hide TrimEnd, IsWhite;
    TrimEndKeeps(front);
  }

  lemma StripUnmarked(content: string)
    requires Find(content, Title()).None?
    ensures Strip(content) == content
  {
    hide Find, Marker, Title, TrimEnd, Lines, Join, KeptLines;
    TitleNoMarker(content);
  }

  /** With the title under another rule the lines before it are kept, but for rules, and then empty
    * lines, at their end. */
  lemma StripKeepsLines(content: string)
    requires Find(content, Marker()).None? && Find(content, "AUTO-GENERATED EVENT HANDLERS").Some?
    ensures exists k: nat, j: nat, n: nat ::
      KeptTo(Lines(content), k, j, n) && Strip(content) == Join(Lines(content)[..k]) + "\n"
  {
    hide Find, Marker, Lines, Join, BeforeTitle, DropRules, DropEmpty, IsTitle, Rules, Empty;
    var lines := Lines(content);
    var n := TitleLineAt(lines);
    var j := RulesDropped(lines, n);
    var k := EmptyDropped(lines, j);
    assert KeptTo(lines, k, j, n);
    assert KeptLines(lines) == lines[..k];
  }

  /** The title first stands on line `n`; before it come rules from line `j` on, and empty lines from `k` on. */
  predicate KeptTo(lines: seq<string>, k: nat, j: nat, n: nat)
  {
    && k <= j <= n <= |lines|
    && IsTitle(lines, n) && Rules(lines, j, n) && Empty(lines, k, j)
    && (j > 0 ==> !StartsWith(lines[j - 1], "-- \U{2550}\U{2550}\U{2550}"))
    && (k > 0 ==> lines[k - 1] != "")
  }

  /** The first line with the title, or the end. */
  predicate IsTitle(lines: seq<string>, n: nat)
  {
    && n <= |lines|
    && (forall i :: 0 <= i < n ==> Find(lines[i], "AUTO-GENERATED EVENT HANDLERS").None?)
    && (n < |lines| ==> Find(lines[n], "AUTO-GENERATED EVENT HANDLERS").Some?)
  }

  predicate Rules(lines: seq<string>, from: nat, to: nat)
    requires from <= to <= |lines|
  {
    forall i :: from <= i < to ==> StartsWith(lines[i], "-- \U{2550}\U{2550}\U{2550}")
  }

  predicate Empty(lines: seq<string>, from: nat, to: nat)
    requires from <= to <= |lines|
  {
    forall i :: from <= i < to ==> lines[i] == ""
  }

  lemma {:induction false} TitleLineAt(lines: seq<string>) returns (n: nat)
    ensures n <= |lines| && IsTitle(lines, n) && BeforeTitle(lines) == lines[..n]
  {
    hide Find;
    if lines == [] || Contains(lines[0], Title()) {
      n := 0;
    } else {
      var rest := TitleLineAt(lines[1..]);
      n := rest + 1;
      assert lines[..n] == [lines[0]] + lines[1..][..rest];
      assert forall i :: 0 <= i < |lines| - 1 ==> lines[1..][i] == lines[i + 1];
      assert forall i :: 0 < i < n ==> lines[i] == lines[1..][i - 1];
    }
  }

  lemma {:induction false} RulesDropped(lines: seq<string>, n: nat) returns (j: nat)
    requires n <= |lines|
    ensures j <= n && DropRules(lines[..n]) == lines[..j] && Rules(lines, j, n)
    ensures j > 0 ==> !StartsWith(lines[j - 1], "-- \U{2550}\U{2550}\U{2550}")
  {
    if n > 0 && StartsWith(lines[n - 1], RuleStart()) {
      assert lines[..n][..n - 1] == lines[..n - 1];
      j := RulesDropped(lines, n - 1);
    } else {
      j := n;
    }
  }

  lemma {:induction false} EmptyDropped(lines: seq<string>, n: nat) returns (k: nat)
    requires n <= |lines|
    ensures k <= n && DropEmpty(lines[..n]) == lines[..k] && Empty(lines, k, n)
    ensures k > 0 ==> lines[k - 1] != ""
  {
    if n > 0 && lines[n - 1] == "" {
      assert lines[..n][..n - 1] == lines[..n - 1];
      k := EmptyDropped(lines, n - 1);
    } else {
      k := n;
    }
  }

  lemma BaseUnmarked(content: string)
    requires Find(content, Title()).None?
    ensures Base(content) == content + (if content != "" && content[|content| - 1] == '\n' then "" else "\n")
    ensures Strip(content) == content
  {
    hide Find, Strip, EndsWith, Title;
    StripUnmarked(content);
    EndsInNewline(content);
    assert content + "" == content;
  }

  lemma EndsInNewline(s: string)
    ensures EndsWith(s, "\n") <==> s != "" && s[|s| - 1] == '\n'
  {
    if s != "" {
      assert s[|s| - 1..] == [s[|s| - 1]];
    }
  }

  /** A block put into a file that has none stands behind the whole old text, and the file then handles
    * its old events and the generated ones. */
  lemma FirstApplication(content: string, ms: seq<MissingHandler>, tbl: Tables)
    requires Find(content, Title()).None?
    ensures Apply(content, Code(ms, tbl))
      == content + (if content != "" && content[|content| - 1] == '\n' then "" else "\n") + Code(ms, tbl)
    ensures EventKeys(Apply(content, Code(ms, tbl))) == EventKeys(content) + IdSet(ms)
  {
    hide Find, Code, EventKeys, Strip, Base, Title;
    BaseUnmarked(content);
    ApplyKeys(content, ms, tbl);
  }

  // ---------------------------------------------------------------------- whole runs

  /** No two files of the directory differ in case only. */
  ghost predicate Distinct(lower: string -> string, dir: map<string, string>)
  {
    forall f, g :: f in dir && g in dir && lower(f) == lower(g) ==> f == g
  }

  /** What `load_all_lua` finds in the directory. */
  ghost function Loaded(lower: string -> string, dir: map<string, string>): (files: LuaFiles)
    requires Distinct(lower, dir)
    ensures forall f :: f in dir ==> lower(f) in files && files[lower(f)] == EventKeys(dir[f])
    ensures forall k :: k in files ==> exists f :: f in dir && lower(f) == k
  {
    map f | f in dir :: lower(f) := EventKeys(dir[f])
  }

  /** What the tool asks for, for this directory. */
  ghost function Asked(lower: string -> string, order: (Row, Row) -> bool, rows: seq<Row>, tbl: Tables,
      dir: map<string, string>): seq<MissingHandler>
    requires Distinct(lower, dir)
  {
    Missing(lower, order, rows, Loaded(lower, dir), tbl)
  }

  /** The directory after one run of the tool. */
  ghost function Run(lower: string -> string, order: (Row, Row) -> bool, rows: seq<Row>, tbl: Tables,
      dir: map<string, string>): map<string, string>
    requires Distinct(lower, dir)
  {
    Applied(dir, Generated(Asked(lower, order, rows, tbl, dir), tbl))
  }

  lemma {:induction false} ForExactly(ms: seq<MissingHandler>, f: string)
    ensures forall m :: m in For(ms, f) <==> m in ms && m.luaFile == f
  {
    if ms != [] {
      ForExactly(ms[..|ms| - 1], f);
      assert ms == ms[..|ms| - 1] + [ms[|ms| - 1]];
    }
  }

  /** What a file handles after a run. */
  lemma RunKeys(lower: string -> string, order: (Row, Row) -> bool, rows: seq<Row>, tbl: Tables,
      dir: map<string, string>, f: string)
    requires Distinct(lower, dir) && f in dir
    ensures var asked := Asked(lower, order, rows, tbl, dir);
      EventKeys(Run(lower, order, rows, tbl, dir)[f])
        == if f in FilesOf(asked) then EventKeys(Strip(dir[f])) + IdSet(For(asked, f)) else EventKeys(dir[f])
  {
    hide Code, Strip, EventKeys, Asked, Apply, For, FilesOf;
    var asked := Asked(lower, order, rows, tbl, dir);
    ApplyKeys(dir[f], For(asked, f), tbl);
  }

  /** When every file the tool asks about is there under its own name, and stripping costs
    * it no event, a second run finds every quest event covered. */
  lemma SecondRunFindsNothing(lower: string -> string, order: (Row, Row) -> bool, rows: seq<Row>, tbl: Tables,
      dir: map<string, string>)
    requires Distinct(lower, dir)
    requires forall f :: f in FilesOf(Asked(lower, order, rows, tbl, dir)) ==>
      f in dir && EventKeys(dir[f]) <= EventKeys(Strip(dir[f]))
    ensures Asked(lower, order, rows, tbl, Run(lower, order, rows, tbl, dir)) == []
  {
    hide Missing, Strip, EventKeys, Generated, Apply;
    var asked := Asked(lower, order, rows, tbl, dir);
    var dir' := Run(lower, order, rows, tbl, dir);
    var files, files' := Loaded(lower, dir), Loaded(lower, dir');
    forall f | f in dir
      ensures EventKeys(dir[f]) <= EventKeys(dir'[f])
    {
      RunKeys(lower, order, rows, tbl, dir, f);
    }
    assert files'.Keys == files.Keys;
    forall k | k in files
      ensures files[k] <= files'[k]
    {
      var f :| f in dir && lower(f) == k;
    }
    forall m | m in asked && lower(m.luaFile) in files'
      ensures m.eventId in files'[lower(m.luaFile)]
    {
      var f := m.luaFile;
      assert f in FilesOf(asked);
      RunKeys(lower, order, rows, tbl, dir, f);
      ForExactly(asked, f);
      assert m.eventId in IdSet(For(asked, f));
    }
    CoveredMeansDone(lower, order, rows, files, files', tbl);
  }

  /** The files as a run will leave them, known before it: a file that is asked about under its own
    * name loses what stripping loses and gains what is asked for it; the others stay. */
  ghost function FilesAfter(lower: string -> string, order: (Row, Row) -> bool, rows: seq<Row>, tbl: Tables,
                            dir: map<string, string>): LuaFiles
    requires Distinct(lower, dir)
  {
    var asked := Asked(lower, order, rows, tbl, dir);
    map f | f in dir :: lower(f) :=
      if f in FilesOf(asked) then EventKeys(Strip(dir[f])) + IdSet(For(asked, f)) else EventKeys(dir[f])
  }

  lemma LoadedAfter(lower: string -> string, order: (Row, Row) -> bool, rows: seq<Row>, tbl: Tables,
      dir: map<string, string>)
    requires Distinct(lower, dir)
    ensures Loaded(lower, Run(lower, order, rows, tbl, dir)) == FilesAfter(lower, order, rows, tbl, dir)
  {
    hide Asked, EventKeys, Strip, For, FilesOf, Run;
    var dir' := Run(lower, order, rows, tbl, dir);
    RunKeepsFiles(lower, order, rows, tbl, dir);
    forall f | f in dir
      ensures Loaded(lower, dir')[lower(f)] == FilesAfter(lower, order, rows, tbl, dir)[lower(f)]
    {
      RunKeys(lower, order, rows, tbl, dir, f);
    }
  }

  lemma RunKeepsFiles(lower: string -> string, order: (Row, Row) -> bool, rows: seq<Row>, tbl: Tables,
      dir: map<string, string>)
    requires Distinct(lower, dir)
    ensures Run(lower, order, rows, tbl, dir).Keys == dir.Keys
  {
    hide Asked, Apply, Generated;
  }

  /** A second run finds nothing exactly when the files as the first will leave them cover every
    * chain and every dispatch row. */
  lemma SecondRunExactly(lower: string -> string, order: (Row, Row) -> bool, rows: seq<Row>, tbl: Tables,
      dir: map<string, string>)
    requires TotalPreorder(order) && Distinct(lower, dir)
    ensures var after := FilesAfter(lower, order, rows, tbl, dir);
      Asked(lower, order, rows, tbl, Run(lower, order, rows, tbl, dir)) == [] <==>
        && (forall c :: c in Chains(rows) ==> ChainCovered(lower, after, c))
        && (forall r :: r in rows && IsSearch(r) ==> SearchCovered(lower, after, r))
  {
    hide Missing, Run, FilesAfter, Loaded;
    LoadedAfter(lower, order, rows, tbl, dir);
    MissingExactly(lower, order, rows, FilesAfter(lower, order, rows, tbl, dir), tbl);
  }

  /** A later run that has something to add to a file with a block keeps all its events
    * handled exactly when the file's own text already handles the events of that block. */
  lemma RerunKeepsExactly(lower: string -> string, order: (Row, Row) -> bool, rows: seq<Row>, tbl: Tables,
      dir: map<string, string>, f: string, content: string, ms1: seq<MissingHandler>, tbl1: Tables)
    requires Distinct(lower, dir) && f in dir && dir[f] == Apply(content, Code(ms1, tbl1))
    requires f in FilesOf(Asked(lower, order, rows, tbl, dir))
    ensures EventKeys(dir[f]) <= EventKeys(Run(lower, order, rows, tbl, dir)[f])
      <==> IdSet(ms1) <= EventKeys(Strip(content))
  {
    hide Missing, Strip, EventKeys, Generated, Apply, Code, TrimEnd, Run;
    var asked := Asked(lower, order, rows, tbl, dir);
    RunKeys(lower, order, rows, tbl, dir, f);
    SecondForgets(content, ms1, tbl1, For(asked, f), tbl);
    ApplyKeys(dir[f], For(asked, f), tbl);
    MissingIsNew(lower, order, rows, Loaded(lower, dir), tbl);
    ForExactly(asked, f);
    assert IdSet(For(asked, f)) !! EventKeys(dir[f]);
  }
}
