/** String operations of the Rust standard library that the Lua tools rely on. */
module Text {
  import opened Sequences
  import opened Wrappers

  // -------------------------------------------------------------------- trimming

  /** The characters with the Unicode White_Space property. */
  predicate IsWhite(c: char)
  {
    || '\t' <= c <= '\r' || c == ' ' || c == '\U{85}' || c == '\U{A0}' || c == '\U{1680}'
    || '\U{2000}' <= c <= '\U{200A}' || c == '\U{2028}' || c == '\U{2029}' || c == '\U{202F}'
    || c == '\U{205F}' || c == '\U{3000}'
  }

  function TrimStart(s: string): (r: string)
    ensures |r| <= |s|
    ensures r != "" ==> !IsWhite(r[0])
    ensures forall c :: c in r ==> c in s
  {
    if s != "" && IsWhite(s[0]) then TrimStart(s[1..]) else s
  }

  function TrimEnd(s: string): (r: string)
    ensures r <= s
    ensures r != "" ==> !IsWhite(r[|r| - 1])
  {
    if s != "" && IsWhite(s[|s| - 1]) then TrimEnd(s[..|s| - 1]) else s
  }

  function Trim(s: string): string { TrimEnd(TrimStart(s)) }

  lemma TrimmedAlready(s: string)
    requires s != "" && !IsWhite(s[0]) && !IsWhite(s[|s| - 1])
    ensures Trim(s) == s
  {
  }

  // -------------------------------------------------------------------- searching

  predicate StartsWith(s: string, prefix: string) { prefix <= s }

  predicate EndsWith(s: string, suffix: string)
  {
    |suffix| <= |s| && s[|s| - |suffix|..] == suffix
  }

  /** `pat` occurs in `s` at position `i`. */
  predicate OccursAt(s: string, pat: string, i: nat)
  {
    i + |pat| <= |s| && s[i..i + |pat|] == pat
  }

  lemma SliceShift(s: string, i: nat, n: nat)
    requires i + n < |s|
    ensures s[i + 1..i + 1 + n] == s[1..][i..i + n]
  {
  }

  lemma OccurrencesShift(s: string, pat: string)
    requires s != ""
    ensures OccursAt(s, pat, 0) <==> pat <= s
    ensures forall i :: 1 <= i ==> (OccursAt(s, pat, i) <==> OccursAt(s[1..], pat, i - 1))
  {
    assert pat <= s ==> s[0..|pat|] == pat;
    forall i | 1 <= i
      ensures OccursAt(s, pat, i) <==> OccursAt(s[1..], pat, i - 1)
    {
      if i + |pat| <= |s| {
        SliceShift(s, i - 1, |pat|);
      }
    }
  }

  /** The first occurrence. */
  function Find(s: string, pat: string): (r: Option<nat>)
    ensures r.Some? ==> OccursAt(s, pat, r.value) && forall i :: 0 <= i < r.value ==> !OccursAt(s, pat, i)
    ensures r.None? ==> forall i :: 0 <= i <= |s| ==> !OccursAt(s, pat, i)
    decreases |s|
  {
    if s == "" then (if pat == "" then Some(0) else None)
    else if pat <= s then
      OccurrencesShift(s, pat);
      Some(0)
    else
      OccurrencesShift(s, pat);
      match Find(s[1..], pat)
      case None => None
      case Some(i) => Some(i + 1)
  }

  predicate Contains(s: string, pat: string) { Find(s, pat).Some? }

  // ------------------------------------------------------------------------ lines

  function StripCr(s: string): string { if EndsWith(s, "\r") then s[..|s| - 1] else s }

  /** `lines()`: a line feed ends a line, and takes a carriage return before it along. */
  function Lines(s: string): seq<string>
    decreases |s|
  {
    if s == "" then []
    else
      match Find(s, "\n")
      case None => [s]
      case Some(i) => [StripCr(s[..i])] + Lines(s[i + 1..])
  }

  predicate NoNewline(s: string) { '\n' !in s && '\r' !in s }

  /** A whole number of lines: empty, or ended by a line feed. */
  predicate WholeLines(s: string) { s == "" || s[|s| - 1] == '\n' }

  lemma CharAt(s: string, c: char, i: nat)
    ensures OccursAt(s, [c], i) <==> i < |s| && s[i] == c
  {
    if i < |s| {
      assert s[i..i + 1] == [s[i]];
    }
  }

  lemma CharFirst(s: string, c: char, n: nat)
    requires n < |s| && s[n] == c && forall i :: 0 <= i < n ==> s[i] != c
    ensures Find(s, [c]) == Some(n)
  {
    hide Find;
    CharAt(s, c, n);
    var r := Find(s, [c]);
    if r.Some? {
      CharAt(s, c, r.value);
    }
  }

  lemma CharBehind(before: string, c: char, after: string)
    requires c !in before
    ensures Find(before + ([c] + after), [c]) == Some(|before|)
  {
    hide Find;
    var s := before + ([c] + after);
    assert s[|before|] == ([c] + after)[0];
    forall i | 0 <= i < |before|
      ensures s[i] != c
    {
      assert s[i] == before[i] && before[i] in before;
    }
    CharFirst(s, c, |before|);
  }

  lemma CharNowhere(s: string, c: char)
    requires c !in s
    ensures Find(s, [c]).None?
  {
    hide Find;
    var r := Find(s, [c]);
    if r.Some? {
      CharAt(s, c, r.value);
    }
  }

  lemma NewlineAt(s: string, i: nat)
    ensures OccursAt(s, "\n", i) <==> i < |s| && s[i] == '\n'
  {
    if i < |s| {
      assert s[i..i + 1] == [s[i]];
    }
  }

  lemma LinesStep(s: string)
    ensures s == "" ==> Lines(s) == []
    ensures s != "" && Find(s, "\n").Some? ==>
      var i := Find(s, "\n").value; i < |s| && Lines(s) == [StripCr(s[..i])] + Lines(s[i + 1..])
  {
  }

  /** The text after whole lines does not change them. */
  lemma {:induction false} LinesAppend(a: string, b: string)
    requires WholeLines(a)
    ensures Lines(a + b) == Lines(a) + Lines(b)
    decreases |a|
  {
    hide Find, OccursAt, StripCr, Lines, WholeLines;
    LinesStep(a);
    if a == "" {
      Regroup(b, b, b);
      Regroup(Lines(b), [], []);
    } else {
      LinesStep(a + b);
      FirstNewline(a, b);
      var i := Find(a, "\n").value;
      LinesAppend(a[i + 1..], b);
      Regroup([StripCr(a[..i])], Lines(a[i + 1..]), Lines(b));
    }
  }

  lemma FirstNewline(a: string, b: string)
    requires a != "" && WholeLines(a)
    ensures Find(a, "\n").Some? && Find(a + b, "\n") == Find(a, "\n")
    ensures var i := Find(a, "\n").value;
      i < |a| && WholeLines(a[i + 1..]) && (a + b)[..i] == a[..i] && (a + b)[i + 1..] == a[i + 1..] + b
  {
    hide OccursAt;
    NewlineAt(a, |a| - 1);
    var i := Find(a, "\n").value;
    NewlineAt(a, i);
    NewlineAt(a + b, i);
    var j := Find(a + b, "\n").value;
    NewlineAt(a + b, j);
    NewlineAt(a, j);
    SlicesAround(a, b, i);
  }

  lemma SlicesAround(a: string, b: string, i: nat)
    requires i < |a|
    ensures (a + b)[..i] == a[..i] && (a + b)[i + 1..] == a[i + 1..] + b
  {
  }

  /** One line, written with its line feed. */
  lemma LinesOfLine(line: string)
    requires '\n' !in line
    ensures Lines(line + "\n") == [StripCr(line)]
  {
    var s := line + "\n";
    NewlineAt(s, |line|);
    var i := Find(s, "\n").value;
    NewlineAt(s, i);
    assert i == |line|;
    assert s[..i] == line && s[i + 1..] == "";
  }

  /** The last line may lack its line feed. */
  lemma LinesOfTail(line: string)
    requires '\n' !in line
    ensures Lines(line) == if line == "" then [] else [line]
  {
    if line != "" && Find(line, "\n").Some? {
      NewlineAt(line, Find(line, "\n").value);
    }
  }

  lemma NothingToStrip(line: string)
    requires NoNewline(line)
    ensures StripCr(line) == line
  {
    if line != "" {
      assert line[|line| - 1..][0] == line[|line| - 1] && line[|line| - 1] in line;
    }
  }

  /** Lines written out, each with its line feed. */
  function Written(lines: seq<string>): (s: string)
    ensures WholeLines(s)
  {
    if lines == [] then "" else
      var rest := Written(lines[1..]);
      lines[0] + "\n" + rest
  }

  lemma {:induction false} LinesOfWritten(lines: seq<string>)
    requires forall l :: l in lines ==> NoNewline(l)
    ensures Lines(Written(lines)) == lines
  {
    if lines != [] {
      assert NoNewline(lines[0]);
      LinesOfLine(lines[0]);
      NothingToStrip(lines[0]);
      LinesOfWritten(lines[1..]);
      LinesAppend(lines[0] + "\n", Written(lines[1..]));
    }
  }

  lemma {:induction false} WrittenAppend(a: seq<string>, b: seq<string>)
    ensures Written(a + b) == Written(a) + Written(b)
  {
    if a == [] {
      assert a + b == b;
    } else {
      WrittenAppend(a[1..], b);
      assert (a + b)[1..] == a[1..] + b;
      Regroup(a[0] + "\n", Written(a[1..]), Written(b));
    }
  }

  // --------------------------------------------------------------------- integers

  predicate IsDigit(c: char) { '0' <= c <= '9' }

  function DigitChar(d: nat): (c: char)
    requires d < 10
    ensures IsDigit(c) && DigitValue(c) == d
  {
    '0' + d as char
  }

  function DigitValue(c: char): (d: nat)
    requires IsDigit(c)
    ensures d < 10
  {
    (c - '0') as int
  }

  function DecimalNat(n: nat): (s: string)
    ensures s != "" && forall c :: c in s ==> IsDigit(c)
  {
    if n < 10 then [DigitChar(n)] else DecimalNat(n / 10) + [DigitChar(n % 10)]
  }

  /** An integer as `{}` prints it. */
  function Decimal(n: int): string { if n < 0 then "-" + DecimalNat(-n) else DecimalNat(n) }

  function NatValue(s: string): nat
    requires forall c :: c in s ==> IsDigit(c)
  {
    if s == "" then 0 else 10 * NatValue(s[..|s| - 1]) + DigitValue(s[|s| - 1])
  }

  lemma {:induction false} NatRoundTrip(n: nat)
    ensures NatValue(DecimalNat(n)) == n
  {
    var s := DecimalNat(n);
    if n < 10 {
      assert s[..0] == "";
    } else {
      assert s[..|s| - 1] == DecimalNat(n / 10);
      NatRoundTrip(n / 10);
    }
  }

  const I32_MIN: int := -0x8000_0000
  const I32_MAX: int := 0x7FFF_FFFF

  type I32 = n: int | I32_MIN <= n <= I32_MAX

  /** `parse::<i32>()` of a string of digits and minus signs. */
  function ParseI32(s: string): (r: Option<int>)
    ensures r.Some? ==> I32_MIN <= r.value <= I32_MAX
  {
    var digits := if s != "" && s[0] == '-' then s[1..] else s;
    if digits == "" || !(forall c :: c in digits ==> IsDigit(c)) then None
    else
      var n: int := NatValue(digits);
      var v := if s[0] == '-' then -n else n;
      if I32_MIN <= v <= I32_MAX then Some(v) else None
  }

  lemma IntRoundTrip(n: int)
    requires I32_MIN <= n <= I32_MAX
    ensures ParseI32(Decimal(n)) == Some(n)
  {
    hide DecimalNat, NatValue;
    var digits := DecimalNat(if n < 0 then -n else n);
    assert digits[0] in digits;
    NatRoundTrip(if n < 0 then -n else n);
    assert n < 0 ==> Decimal(n)[1..] == digits;
  }

  /** The leading digits and minus signs of a string. */
  function Numeral(s: string): (r: string)
    ensures r <= s
  {
    if s != "" && (IsDigit(s[0]) || s[0] == '-') then [s[0]] + Numeral(s[1..]) else ""
  }

  lemma {:induction false} NumeralOf(digits: string, rest: string)
    requires forall c :: c in digits ==> IsDigit(c) || c == '-'
    requires rest == "" || !(IsDigit(rest[0]) || rest[0] == '-')
    ensures Numeral(digits + rest) == digits
  {
    if digits == "" {
      assert digits + rest == rest;
    } else {
      assert digits[0] in digits;
      assert (digits + rest)[1..] == digits[1..] + rest;
      NumeralOf(digits[1..], rest);
    }
  }
}
