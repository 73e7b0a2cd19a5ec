/** A .config file as a text: what load_config makes of it line by line. */
module ConfigText {
  import opened Expressions
  import opened Escaping

  /** Python facts that differ between versions: str.isspace(), the characters that \w matches, and
      whether reading a file turns \r into a line end. */
  datatype Chars = Chars(space: char -> bool, word: char -> bool, universal: bool)

  predicate Breaks(c: Chars, x: char) {
    x == '\n' || (c.universal && x == '\r')
  }

  predicate HasBreak(c: Chars, t: string) {
    exists k :: 0 <= k < |t| && Breaks(c, t[k])
  }

  // ---------------------------------------------------------------- lines

  /** The text that a program sees of a file. */
  function Decoded(t: string, universal: bool): string
    decreases |t|
  {
    if t == "" then ""
    else if universal && t[0] == '\r' then
      "\n" + Decoded(if |t| > 1 && t[1] == '\n' then t[2..] else t[1..], universal)
    else [t[0]] + Decoded(t[1..], universal)
  }

  function LineLength(t: string): (n: nat)
    requires t != ""
    ensures 0 < n <= |t| && (t[n - 1] == '\n' || n == |t|) && '\n' !in t[..n - 1]
  {
    if t[0] == '\n' || |t| == 1 then 1 else
      assert t[..LineLength(t[1..])] == [t[0]] + t[1..][..LineLength(t[1..]) - 1];
      1 + LineLength(t[1..])
  }

  /** The lines of an open file, each with its line end. */
  function Physical(t: string): seq<string>
    decreases |t|
  {
    if t == "" then [] else [t[..LineLength(t)]] + Physical(t[LineLength(t)..])
  }

  predicate Continued(line: string) {
    |line| >= 2 && line[|line| - 2] == SLASH && line[|line| - 1] == '\n'
  }

  /** _get_lines: a line that ends in a backslash goes on with the next; one at the end of the file
      is lost. */
  function Joined(lines: seq<string>, accum: string): seq<string> {
    if lines == [] then []
    else if Continued(lines[0]) then Joined(lines[1..], accum + lines[0][..|lines[0]| - 2])
    else [accum + lines[0]] + Joined(lines[1..], "")
  }

  function LinesOf(c: Chars, text: string): seq<string> {
    Joined(Physical(Decoded(text, c.universal)), "")
  }

  method GetLines(c: Chars, text: string) returns (lines: seq<string>)
    ensures lines == LinesOf(c, text)
  {
    var physical := Physical(Decoded(text, c.universal));
    lines := [];
    var accum := "";
    assert physical[0..] == physical;
    for k := 0 to |physical|
      invariant Joined(physical, "") == lines + Joined(physical[k..], accum)
    {
      var line := physical[k];
      assert physical[k..][1..] == physical[k + 1..];
      if Continued(line) {
        accum := accum + line[..|line| - 2];
      } else {
        lines := lines + [accum + line];
        accum := "";
      }
    }
  }

  lemma JoinedFirst(line: string, rest: seq<string>, accum: string)
    ensures Joined([line] + rest, accum) ==
            if Continued(line) then Joined(rest, accum + line[..|line| - 2]) else [accum + line] + Joined(rest, "")
  {
    assert ([line] + rest)[1..] == rest;
  }

  lemma OnePhysical(t: string)
    requires '\n' !in t
    ensures Physical(t + "\n") == [t + "\n"]
  {
    var u := t + "\n";
    OneLineLength(t);
    assert u[..|u|] == u && u[|u|..] == "";
  }

  /** A backslash at the end of a line joins it with the next one. */
  lemma BackslashJoins(c: Chars, x: string, y: string)
    requires '\n' !in x && '\n' !in y && '\r' !in x && '\r' !in y && (y == "" || y[|y| - 1] != SLASH)
    ensures LinesOf(c, x + [SLASH, '\n'] + (y + "\n")) == [x + y + "\n"]
  {
    hide *;
    var a, b := x + [SLASH] + "\n", y + "\n";
    var none: seq<string> := [];
    assert x + [SLASH, '\n'] + b == a + b && x + b == x + y + "\n" && "" + x == x;
    LineKinds(x, y);
    DecodedPlain(c, a + b);
    OnePhysical(x + [SLASH]);
    OnePhysical(y);
    PhysicalAppend(a, b);
    JoinedFirst(a, [b] + none, "");
    JoinedFirst(b, none, x);
    JoinedNone();
    assert [a] + ([b] + none) == [a] + [b] && [x + b] + none == [x + b];
    LinesAre(c, a + b);
  }

  lemma LineKinds(x: string, y: string)
    requires y == "" || y[|y| - 1] != SLASH
    ensures var a := x + [SLASH] + "\n"; Continued(a) && a[..|a| - 2] == x
    ensures !Continued(y + "\n") && SLASH != '\n' && SLASH != '\r'
  {
  }

  lemma JoinedNone()
    ensures Joined([], "") == []
  {
  }

  lemma LinesAre(c: Chars, text: string)
    ensures LinesOf(c, text) == Joined(Physical(Decoded(text, c.universal)), "")
  {
  }

  /** And the last line of a file that ends so is lost. */
  lemma BackslashLoses(c: Chars, x: string)
    requires '\n' !in x && '\r' !in x
    ensures LinesOf(c, x + [SLASH, '\n']) == []
  {
    var a := x + [SLASH] + "\n";
    var none: seq<string> := [];
    assert x + [SLASH, '\n'] == a;
    DecodedPlain(c, a);
    OnePhysical(x + [SLASH]);
    assert Continued(a);
    JoinedFirst(a, none, "");
    assert [a] + none == [a];
  }

  // ---------------------------------------------------------------- one line

  function RStrip(c: Chars, t: string): string {
    if t != "" && c.space(t[|t| - 1]) then RStrip(c, t[..|t| - 1]) else t
  }

  function WordLength(c: Chars, t: string): (n: nat)
    ensures n <= |t|
  {
    if t != "" && c.word(t[0]) then 1 + WordLength(c, t[1..]) else 0
  }

  const SET_PREFIX := "CONFIG_"
  const UNSET_PREFIX := "# CONFIG_"
  const UNSET_SUFFIX := " is not set"

  /** _set_re_match: the name, and what follows the equals sign. */
  function MatchSet(c: Chars, line: string): Option<(string, string)> {
    if !(SET_PREFIX <= line) then None
    else
      var rest := line[|SET_PREFIX|..];
      var n := WordLength(c, rest);
      if n > 0 && n < |rest| && rest[n] == '=' then Some((rest[..n], rest[n + 1..])) else None
  }

  /** _unset_re_match */
  function MatchUnset(c: Chars, line: string): Option<string> {
    if !(UNSET_PREFIX <= line) then None
    else
      var rest := line[|UNSET_PREFIX|..];
      var n := WordLength(c, rest);
      if n > 0 && UNSET_SUFFIX <= rest[n..] then Some(rest[..n]) else None
  }

  datatype Reading = Nothing | Assign(name: string, text: string) | Malformed

  predicate LooksQuoted(t: string) {
    t != "" && (t[0] == QUOTE || t[0] == '\'')
  }

  /** The text that a right-hand side stands for, None for a malformed string literal. */
  function TextOf(val: string): Option<string> {
    if LooksQuoted(val) then
      if |val| < 2 || val[|val| - 1] != val[0] then None else Some(PythonUnescaped(val[1..|val| - 1]))
    else Some(val)
  }

  /** The body of the loop of load_config. */
  function ReadLine(c: Chars, line: string): Reading {
    var t := RStrip(c, line);
    var set_match := MatchSet(c, t);
    if set_match.Some? then
      var text := TextOf(set_match.value.1);
      if text.Some? then Assign(set_match.value.0, text.value) else Malformed
    else
      var unset_match := MatchUnset(c, t);
      if unset_match.Some? then Assign(unset_match.value, "n") else Nothing
  }

  // ---------------------------------------------------------------- text that ends a line

  /** How many characters become the first one. */
  function Taken(t: string, universal: bool): (n: nat)
    requires t != ""
    ensures 0 < n <= |t|
  {
    if universal && t[0] == '\r' && |t| > 1 && t[1] == '\n' then 2 else 1
  }

  lemma FirstDecoded(x: string, y: string, universal: bool)
    requires x != "" && x[|x| - 1] != '\r'
    ensures Decoded(x + y, universal) ==
            [if universal && x[0] == '\r' then '\n' else x[0]] + Decoded(x[Taken(x, universal)..] + y, universal)
  {
    assert (x + y)[1..] == x[1..] + y;
    if |x| > 1 {
      assert (x + y)[2..] == x[2..] + y;
    }
  }

  lemma {:induction false} DecodedAppend(x: string, y: string, universal: bool)
    requires x == "" || x[|x| - 1] != '\r'
    ensures Decoded(x + y, universal) == Decoded(x, universal) + Decoded(y, universal)
    decreases |x|
  {
    if x == "" {
      assert x + y == y;
    } else {
      FirstDecoded(x, y, universal);
      FirstDecoded(x, "", universal);
      var tail := x[Taken(x, universal)..];
      assert x + "" == x && tail + "" == tail;
      assert tail != "" ==> tail[|tail| - 1] == x[|x| - 1];
      var head := [if universal && x[0] == '\r' then '\n' else x[0]];
      hide *;
      DecodedAppend(tail, y, universal);
      Escaping.Joined(head, Decoded(tail, universal), Decoded(y, universal));
    }
  }

  lemma {:induction false} DecodedPlain(c: Chars, t: string)
    requires c.universal ==> '\r' !in t
    ensures Decoded(t, c.universal) == t
  {
    if t != "" {
      DecodedPlain(c, t[1..]);
    }
  }

  /** Decoding makes up no characters but line ends, and leaves no \r. */
  lemma {:induction false} DecodedChars(t: string, universal: bool)
    ensures forall x :: x in Decoded(t, universal) ==> x in t || x == '\n'
    ensures universal ==> '\r' !in Decoded(t, universal)
    ensures t != "" && t[|t| - 1] == '\n' ==> Decoded(t, universal) != "" && Decoded(t, universal)[|Decoded(t, universal)| - 1] == '\n'
    decreases |t|
  {
    if t != "" {
      var n := if universal && t[0] == '\r' && |t| > 1 && t[1] == '\n' then 2 else 1;
      DecodedChars(t[n..], universal);
    }
  }

  lemma {:induction false} LineLengthAppend(x: string, y: string)
    requires x != "" && x[|x| - 1] == '\n'
    ensures LineLength(x + y) == LineLength(x)
  {
    if x[0] != '\n' {
      assert (x + y)[1..] == x[1..] + y;
      LineLengthAppend(x[1..], y);
    }
  }

  lemma {:induction false} PhysicalAppend(x: string, y: string)
    requires x == "" || x[|x| - 1] == '\n'
    ensures Physical(x + y) == Physical(x) + Physical(y)
    decreases |x|
  {
    if x == "" {
      NoPhysical(y);
    } else {
      var n := LineLength(x);
      FirstPhysical(x, y);
      FirstPhysical(x, "");
      assert x + "" == x && x[n..] + "" == x[n..];
      var tail := x[n..];
      assert tail != "" ==> tail[|tail| - 1] == x[|x| - 1];
      hide *;
      PhysicalAppend(tail, y);
      Regroup(x[..n], Physical(tail), Physical(y));
    }
  }

  lemma NoPhysical(y: string)
    ensures Physical("" + y) == Physical("") + Physical(y)
  {
    assert "" + y == y;
  }

  lemma Regroup(a: string, b: seq<string>, c: seq<string>)
    ensures [a] + (b + c) == [a] + b + c
  {
  }

  lemma FirstPhysical(x: string, y: string)
    requires x != "" && x[|x| - 1] == '\n'
    ensures Physical(x + y) == [x[..LineLength(x)]] + Physical(x[LineLength(x)..] + y)
  {
    LineLengthAppend(x, y);
    var n := LineLength(x);
    assert (x + y)[..n] == x[..n] && (x + y)[n..] == x[n..] + y;
  }

  /** The last line ends as the text does. */
  lemma {:induction false} LastPhysical(t: string)
    requires t != ""
    ensures Physical(t) != []
    ensures Continued(Physical(t)[|Physical(t)| - 1]) ==> Continued(t)
    decreases |t|
  {
    var n := LineLength(t);
    var rest := Physical(t[n..]);
    assert Physical(t) == [t[..n]] + rest;
    if n < |t| {
      LastPhysical(t[n..]);
      assert Continued(t[n..]) ==> Continued(t);
      hide *;
    } else {
      assert rest == [] && t[..n] == t;
    }
  }

  /** Lines are pieces of the text, with line ends only at their ends. */
  lemma {:induction false} PhysicalPiece(t: string, line: string)
    requires line in Physical(t)
    ensures line != "" && (forall x :: x in line ==> x in t) && '\n' !in line[..|line| - 1]
    decreases |t|
  {
    var n := LineLength(t);
    if line != t[..n] {
      PhysicalPiece(t[n..], line);
    }
  }

  lemma {:induction false} JoinedAppend(xs: seq<string>, ys: seq<string>, accum: string)
    requires if xs == [] then accum == "" else !Continued(xs[|xs| - 1])
    ensures Joined(xs + ys, accum) == Joined(xs, accum) + Joined(ys, "")
    decreases |xs|
  {
    if xs == [] {
      assert xs + ys == ys;
    } else {
      assert (xs + ys)[1..] == xs[1..] + ys;
      if Continued(xs[0]) {
        JoinedAppend(xs[1..], ys, accum + xs[0][..|xs[0]| - 2]);
      } else {
        JoinedAppend(xs[1..], ys, "");
      }
    }
  }

  /** A text that ends its last line separates what follows from what is before. */
  predicate Ends(c: Chars, t: string) {
    && t != "" && t[|t| - 1] == '\n' && !Continued(Decoded(t, c.universal))
  }

  lemma LinesAppend(c: Chars, x: string, y: string)
    requires Ends(c, x)
    ensures LinesOf(c, x + y) == LinesOf(c, x) + LinesOf(c, y)
  {
    var d := Decoded(x, c.universal);
    DecodedAppend(x, y, c.universal);
    DecodedChars(x, c.universal);
    PhysicalAppend(d, Decoded(y, c.universal));
    LastPhysical(d);
    JoinedAppend(Physical(d), Physical(Decoded(y, c.universal)), "");
  }

  lemma {:induction false} DecodedLast(t: string, universal: bool)
    requires t != "" && t[|t| - 1] != '\r'
    ensures Decoded(t, universal) != "" && Decoded(t, universal)[|Decoded(t, universal)| - 1] == t[|t| - 1]
    decreases |t|
  {
    if |t| > 1 {
      var n := if universal && t[0] == '\r' && t[1] == '\n' then 2 else 1;
      if n < |t| {
        DecodedLast(t[n..], universal);
      }
    }
  }

  /** A line that ends in neither a backslash nor \r does that. */
  lemma LineEnds(c: Chars, t: string)
    requires t == "" || (t[|t| - 1] != SLASH && t[|t| - 1] != '\r')
    ensures Ends(c, t + "\n")
  {
    DecodedAppend(t, "\n", c.universal);
    assert Decoded("\n", c.universal) == "\n";
    if t != "" {
      DecodedLast(t, c.universal);
    }
  }

  /** And so does a text without a backslash. */
  lemma NoSlashEnds(c: Chars, t: string)
    requires SLASH !in t
    ensures Ends(c, t + "\n")
  {
    DecodedChars(t + "\n", c.universal);
    var d := Decoded(t + "\n", c.universal);
    assert SLASH !in d;
  }

  /** A line without a line break is one line. */
  lemma OneLine(c: Chars, t: string)
    requires !HasBreak(c, t) && (t == "" || t[|t| - 1] != SLASH)
    ensures LinesOf(c, t + "\n") == [t + "\n"]
  {
    var u := t + "\n";
    DecodedPlain(c, u);
    OneLineLength(t);
    assert u[..|u|] == u && u[|u|..] == "";
    assert Physical(u) == [u];
    OnlyLine(u);
  }

  lemma OnlyLine(line: string)
    requires !Continued(line)
    ensures Joined([line], "") == [line]
  {
    assert "" + line == line;
  }

  lemma {:induction false} OneLineLength(t: string)
    requires '\n' !in t
    ensures LineLength(t + "\n") == |t| + 1
  {
    if t != "" {
      assert (t + "\n")[1..] == t[1..] + "\n";
      OneLineLength(t[1..]);
    }
  }

  // ---------------------------------------------------------------- what one line says

  lemma {:induction false} RStripIs(c: Chars, t: string)
    ensures t == "" || !c.space(t[|t| - 1]) ==> RStrip(c, t) == t
    ensures RStrip(c, t) <= t
    ensures RStrip(c, t) != "" ==> !c.space(RStrip(c, t)[|RStrip(c, t)| - 1])
  {
    if t != "" && c.space(t[|t| - 1]) {
      RStripIs(c, t[..|t| - 1]);
    }
  }

  lemma {:induction false} RStripTail(c: Chars, p: string, t: string)
    requires p != "" && !c.space(p[|p| - 1])
    ensures RStrip(c, p + t) == p + RStrip(c, t)
  {
    if t == "" {
      assert p + t == p;
    } else if c.space(t[|t| - 1]) {
      assert (p + t)[..|p + t| - 1] == p + t[..|t| - 1];
      RStripTail(c, p, t[..|t| - 1]);
    }
  }

  lemma RStripEnd(c: Chars, t: string)
    requires c.space('\n')
    ensures RStrip(c, t + "\n") == RStrip(c, t)
  {
    assert (t + "\n")[..|t|] == t;
  }

  lemma {:induction false} WordLengthIs(c: Chars, name: string, rest: string)
    requires (forall k :: 0 <= k < |name| ==> c.word(name[k])) && (rest == "" || !c.word(rest[0]))
    ensures WordLength(c, name + rest) == |name|
  {
    if name != "" {
      assert (name + rest)[1..] == name[1..] + rest;
      WordLengthIs(c, name[1..], rest);
    } else {
      assert name + rest == rest;
    }
  }

  predicate IsName(c: Chars, name: string) {
    name != "" && forall k :: 0 <= k < |name| ==> c.word(name[k])
  }

  lemma SetMatches(c: Chars, name: string, val: string)
    requires IsName(c, name) && !c.word('=')
    ensures MatchSet(c, SET_PREFIX + name + "=" + val) == Some((name, val))
  {
    var line := SET_PREFIX + name + "=" + val;
    assert line[|SET_PREFIX|..] == name + ("=" + val);
    WordLengthIs(c, name, "=" + val);
  }

  lemma UnsetMatches(c: Chars, name: string)
    requires IsName(c, name) && !c.word(' ')
    ensures MatchUnset(c, UNSET_PREFIX + name + UNSET_SUFFIX) == Some(name)
    ensures MatchSet(c, UNSET_PREFIX + name + UNSET_SUFFIX) == None
  {
    var line := UNSET_PREFIX + name + UNSET_SUFFIX;
    assert line[|UNSET_PREFIX|..] == name + UNSET_SUFFIX;
    WordLengthIs(c, name, UNSET_SUFFIX);
    assert line[0] == '#' && SET_PREFIX[0] == 'C';
  }

  /** Nothing is asked of what follows. */
  lemma UnsetMatchesPrefix(c: Chars, name: string, rest: string)
    requires IsName(c, name) && !c.word(' ')
    ensures MatchUnset(c, UNSET_PREFIX + name + UNSET_SUFFIX + rest) == Some(name)
  {
    var line := UNSET_PREFIX + name + UNSET_SUFFIX + rest;
    assert line[|UNSET_PREFIX|..] == name + (UNSET_SUFFIX + rest);
    WordLengthIs(c, name, UNSET_SUFFIX + rest);
    assert (name + (UNSET_SUFFIX + rest))[|name|..] == UNSET_SUFFIX + rest;
  }

  /** Either kind of quotes is taken off, and must be closed. */
  lemma QuotesAreTakenOff(t: string, q: char)
    requires q == QUOTE || q == '\''
    ensures TextOf([q] + t + [q]) == Some(PythonUnescaped(t))
    ensures (t == "" || t[|t| - 1] != q) ==> TextOf([q] + t) == None
  {
    assert ([q] + t + [q])[1..|t| + 1] == t;
  }

  /** Both expressions need a G. */
  lemma NoGNothing(c: Chars, line: string)
    requires 'G' !in line
    ensures ReadLine(c, line) == Nothing
  {
    RStripIs(c, line);
    var t := RStrip(c, line);
    assert SET_PREFIX[5] == 'G' && UNSET_PREFIX[7] == 'G';
    forall k | 0 <= k < |t| ensures t[k] != 'G' {
      assert t[k] == line[k];
    }
  }

  /** A line that sets a symbol says what its right-hand side says. */
  lemma SetRead(c: Chars, name: string, rhs: string)
    requires IsName(c, name) && !c.word('=') && !c.space('=') && c.space('\n')
    ensures var t := TextOf(RStrip(c, rhs));
            ReadLine(c, SET_PREFIX + name + "=" + rhs + "\n") == if t.Some? then Assign(name, t.value) else Malformed
  {
    var p := SET_PREFIX + name + "=";
    RStripEnd(c, p + rhs);
    RStripTail(c, p, rhs);
    SetMatches(c, name, RStrip(c, rhs));
  }

  lemma UnsetRead(c: Chars, name: string)
    requires IsName(c, name) && !c.word(' ') && !c.space('t') && c.space('\n')
    ensures ReadLine(c, UNSET_PREFIX + name + UNSET_SUFFIX + "\n") == Assign(name, "n")
  {
    var line := UNSET_PREFIX + name + UNSET_SUFFIX;
    RStripEnd(c, line);
    RStripIs(c, line);
    assert line[|line| - 1] == UNSET_SUFFIX[10] == 't';
    UnsetMatches(c, name);
  }

  /** A line that load_config takes into the header. */
  predicate IsHeader(c: Chars, line: string) {
    "#" <= line && MatchUnset(c, line).None?
  }

  lemma {:induction false} WordLengthPrefix(c: Chars, a: string, b: string)
    requires a <= b && WordLength(c, a) < |a|
    ensures WordLength(c, b) == WordLength(c, a)
  {
    if c.word(a[0]) {
      WordLengthPrefix(c, a[1..], b[1..]);
    }
  }

  /** Such a line assigns nothing: the white space that is stripped from a line first does not matter. */
  lemma HeaderSaysNothing(c: Chars, line: string)
    requires IsHeader(c, line)
    ensures ReadLine(c, line) == Nothing
  {
    RStripIs(c, line);
    var t := RStrip(c, line);
    assert SET_PREFIX[0] == 'C' && (t != "" ==> t[0] == line[0]);
    if MatchUnset(c, t).Some? {
      UnsetStillMatches(c, t, line);
    }
  }

  lemma UnsetStillMatches(c: Chars, t: string, line: string)
    requires t <= line && MatchUnset(c, t).Some?
    ensures MatchUnset(c, line).Some?
  {
    var a, b := t[|UNSET_PREFIX|..], line[|UNSET_PREFIX|..];
    var n := WordLength(c, a);
    assert UNSET_SUFFIX <= a[n..] && a <= b;
    assert n < |a|;
    WordLengthPrefix(c, a, b);
    assert a[n..] <= b[n..];
  }

  // ---------------------------------------------------------------- no text that is read has a line break

  /** Line ends only where the line ends, and no \r that counts as one. */
  predicate Unbroken(c: Chars, line: string) {
    && (forall k :: 0 <= k < |line| - 1 ==> line[k] != '\n')
    && (c.universal ==> '\r' !in line)
  }

  lemma PhysicalUnbroken(c: Chars, text: string, line: string)
    requires line in Physical(Decoded(text, c.universal))
    ensures line != "" && Unbroken(c, line)
  {
    PhysicalPiece(Decoded(text, c.universal), line);
    DecodedChars(text, c.universal);
    forall k | 0 <= k < |line| - 1 ensures line[k] != '\n' {
      assert line[k] == line[..|line| - 1][k];
    }
  }

  lemma {:induction false} JoinedUnbroken(c: Chars, lines: seq<string>, accum: string, line: string)
    requires line in Joined(lines, accum) && Unbroken(c, accum + " ")
    requires forall l :: l in lines ==> l != "" && Unbroken(c, l)
    ensures Unbroken(c, line)
    decreases lines
  {
    var first := lines[0];
    assert first in lines && forall l :: l in lines[1..] ==> l in lines;
    forall k | 0 <= k < |accum| ensures accum[k] != '\n' && (c.universal ==> accum[k] != '\r') {
      assert (accum + " ")[k] == accum[k] && (accum + " ")[k] in accum + " ";
    }
    if Continued(first) {
      JoinedUnbroken(c, lines[1..], accum + first[..|first| - 2], line);
    } else if line != accum + first {
      JoinedUnbroken(c, lines[1..], "", line);
    }
  }

  lemma {:induction false} ReplaceChars(s: string, what: string, with: string)
    requires what != ""
    ensures forall x :: x in Replace(s, what, with) ==> x in s || x in with
  {
    if |s| >= |what| {
      if s[..|what|] == what {
        ReplaceChars(s[|what|..], what, with);
      } else {
        ReplaceChars(s[1..], what, with);
      }
    }
  }

  lemma UnescapedChars(t: string)
    ensures forall x :: x in PythonUnescaped(t) ==> x in t || x == QUOTE || x == SLASH
  {
    var u := Replace(t, [SLASH, QUOTE], [QUOTE]);
    ReplaceChars(t, [SLASH, QUOTE], [QUOTE]);
    ReplaceChars(u, [SLASH, SLASH], [SLASH]);
  }

  lemma ReadUnbroken(c: Chars, line: string)
    requires Unbroken(c, line) && c.space('\n') && ReadLine(c, line).Assign?
    ensures !HasBreak(c, ReadLine(c, line).text)
  {
    StrippedUnbroken(c, line);
    ReadChars(c, line);
    hide *;
    NoBreakIn(c, ReadLine(c, line).text, RStrip(c, line));
  }

  lemma StrippedUnbroken(c: Chars, line: string)
    requires Unbroken(c, line) && c.space('\n')
    ensures forall x :: x in RStrip(c, line) ==> !Breaks(c, x)
  {
    RStripIs(c, line);
    var t := RStrip(c, line);
    forall x | x in t ensures !Breaks(c, x) {
      var k :| 0 <= k < |t| && t[k] == x;
      assert line[k] == x;
    }
  }

  /** A text that is read is made of what the line holds, of quotes, backslashes and `n`. */
  lemma ReadChars(c: Chars, line: string)
    requires ReadLine(c, line).Assign?
    ensures forall x :: x in ReadLine(c, line).text ==> x in RStrip(c, line) || x == QUOTE || x == SLASH || x == 'n'
  {
    var m := MatchSet(c, RStrip(c, line));
    if m.Some? {
      var val := m.value.1;
      assert forall x :: x in val ==> x in RStrip(c, line);
      hide *;
      TextChars(val);
      ReadSet(c, line);
    }
  }

  lemma ReadSet(c: Chars, line: string)
    requires ReadLine(c, line).Assign? && MatchSet(c, RStrip(c, line)).Some?
    ensures TextOf(MatchSet(c, RStrip(c, line)).value.1) == Some(ReadLine(c, line).text)
  {
  }

  lemma TextChars(val: string)
    requires TextOf(val).Some?
    ensures forall x :: x in TextOf(val).value ==> x in val || x == QUOTE || x == SLASH
  {
    if LooksQuoted(val) {
      UnescapedChars(val[1..|val| - 1]);
    }
  }

  lemma NoBreakIn(c: Chars, t: string, line: string)
    requires forall x :: x in t ==> x in line || x == QUOTE || x == SLASH || x == 'n'
    requires forall x :: x in line ==> !Breaks(c, x)
    ensures !HasBreak(c, t)
  {
    forall k | 0 <= k < |t| ensures !Breaks(c, t[k]) {
      assert t[k] in t;
    }
  }

  /** Whatever a file says, no text that is assigned holds a line break. */
  lemma TextsUnbroken(c: Chars, text: string, line: string)
    requires c.space('\n') && line in LinesOf(c, text) && ReadLine(c, line).Assign?
    ensures !HasBreak(c, ReadLine(c, line).text)
  {
    var lines := Physical(Decoded(text, c.universal));
    forall l | l in lines ensures l != "" && Unbroken(c, l) {
      PhysicalUnbroken(c, text, l);
    }
    JoinedUnbroken(c, lines, "", line);
    ReadUnbroken(c, line);
  }

  // ---------------------------------------------------------------- texts with line breaks

  /** What is before the first line break. */
  function FirstPart(c: Chars, t: string): string {
    if t == "" || Breaks(c, t[0]) then "" else [t[0]] + FirstPart(c, t[1..])
  }

  lemma {:induction false} FirstPartIs(c: Chars, t: string)
    ensures FirstPart(c, t) <= t && !HasBreak(c, FirstPart(c, t))
    ensures !HasBreak(c, t) ==> FirstPart(c, t) == t
    ensures HasBreak(c, t) ==> |FirstPart(c, t)| < |t| && Breaks(c, t[|FirstPart(c, t)|])
  {
    if t != "" && !Breaks(c, t[0]) {
      FirstPartIs(c, t[1..]);
      var f := FirstPart(c, t[1..]);
      forall k | 0 <= k < |f| + 1 ensures !Breaks(c, ([t[0]] + f)[k]) {
        assert k > 0 ==> ([t[0]] + f)[k] == f[k - 1];
      }
      if HasBreak(c, t) {
        var k :| 0 <= k < |t| && Breaks(c, t[k]);
        assert t[1..][k - 1] == t[k];
      } else {
        assert forall k :: 0 <= k < |t| - 1 ==> t[1..][k] == t[k + 1];
      }
    }
  }

  /** A line break ends a line; the rest is read on its own. */
  lemma Broken(c: Chars, x: string, b: char, rest: string) returns (rest1: string)
    requires !HasBreak(c, x) && SLASH !in x && Breaks(c, b)
    ensures LinesOf(c, x + [b] + rest) == [x + "\n"] + LinesOf(c, rest1)
    ensures forall y :: y in rest1 ==> y in rest
  {
    NoSlashEnds(c, x);
    OneLine(c, x);
    if b == '\n' {
      rest1 := rest;
      assert x + [b] + rest == (x + "\n") + rest;
    } else {
      rest1 := if rest != "" && rest[0] == '\n' then rest[1..] else rest;
      CarriageReturn(c, x, rest, rest1);
    }
    LinesAppend(c, x + "\n", rest1);
  }

  lemma CarriageReturn(c: Chars, x: string, rest: string, rest1: string)
    requires c.universal && !HasBreak(c, x)
    requires rest1 == if rest != "" && rest[0] == '\n' then rest[1..] else rest
    ensures LinesOf(c, x + "\r" + rest) == LinesOf(c, x + "\n" + rest1)
  {
    var a, b := "\r" + rest, "\n" + rest1;
    assert x + "\r" + rest == x + a && x + "\n" + rest1 == x + b;
    assert x != "" ==> !Breaks(c, x[|x| - 1]);
    DecodedAppend(x, a, true);
    DecodedAppend(x, b, true);
    assert a[1..] == rest && b[1..] == rest1 && (rest != "" ==> a[2..] == rest[1..]);
  }

  /** Lines of a text without G say nothing. */
  lemma NoGLines(c: Chars, t: string, line: string)
    requires 'G' !in t && line in LinesOf(c, t)
    ensures ReadLine(c, line) == Nothing
  {
    var lines := Physical(Decoded(t, c.universal));
    DecodedChars(t, c.universal);
    forall l | l in lines ensures 'G' !in l {
      PhysicalPiece(Decoded(t, c.universal), l);
    }
    JoinedNoG(lines, "", line);
    NoGNothing(c, line);
  }

  lemma {:induction false} JoinedNoG(lines: seq<string>, accum: string, line: string)
    requires line in Joined(lines, accum) && 'G' !in accum && forall l :: l in lines ==> 'G' !in l
    ensures 'G' !in line
    decreases lines
  {
    var first := lines[0];
    assert first in lines && forall l :: l in lines[1..] ==> l in lines;
    if Continued(first) {
      JoinedNoG(lines[1..], accum + first[..|first| - 2], line);
    } else if line != accum + first {
      JoinedNoG(lines[1..], "", line);
    }
  }

  lemma {:induction false} JoinedStarts(lines: seq<string>, accum: string, p: string)
    requires lines != [] && !Continued(lines[|lines| - 1])
    requires p <= accum || (accum == "" && p < lines[0] && p != "" && p[|p| - 1] != SLASH)
    ensures Joined(lines, accum) != [] && p <= Joined(lines, accum)[0]
    decreases lines
  {
    if Continued(lines[0]) {
      JoinedStarts(lines[1..], accum + lines[0][..|lines[0]| - 2], p);
    }
  }

  /** The first line of a text begins as the text does. */
  lemma FirstLineStarts(c: Chars, p: string, rest: string)
    requires p != "" && !HasBreak(c, p) && p[|p| - 1] != SLASH && p[|p| - 1] != '\r' && rest != "" && Ends(c, p + rest)
    ensures LinesOf(c, p + rest) != [] && p <= LinesOf(c, p + rest)[0]
  {
    var d := Decoded(p + rest, c.universal);
    PrefixDecoded(c, p, rest);
    hide *;
    FirstJoinedStarts(p, Decoded(rest, c.universal), d);
    LinesAre(c, p + rest);
  }

  lemma PrefixDecoded(c: Chars, p: string, rest: string)
    requires p != "" && !HasBreak(c, p) && p[|p| - 1] != '\r' && rest != "" && Ends(c, p + rest)
    ensures '\n' !in p && Decoded(rest, c.universal) != "" && !Continued(Decoded(p + rest, c.universal))
    ensures Decoded(p + rest, c.universal) == p + Decoded(rest, c.universal)
  {
    forall x | x in p ensures !Breaks(c, x) {
      var k :| 0 <= k < |p| && p[k] == x;
    }
    assert (p + rest)[|p + rest| - 1] == rest[|rest| - 1];
    hide Ends, HasBreak, Continued;
    DecodedAppend(p, rest, c.universal);
    DecodedPlain(c, p);
    DecodedChars(rest, c.universal);
  }

  lemma FirstJoinedStarts(p: string, e: string, d: string)
    requires p != "" && e != "" && '\n' !in p && d == p + e && p[|p| - 1] != SLASH && !Continued(d)
    ensures Joined(Physical(d), "") != [] && p <= Joined(Physical(d), "")[0]
  {
    FirstPhysicalStarts(p, e);
    LastPhysical(d);
    hide *;
    JoinedStarts(Physical(d), "", p);
  }

  lemma FirstPhysicalStarts(p: string, e: string)
    requires p != "" && e != "" && '\n' !in p
    ensures Physical(p + e) != [] && p < Physical(p + e)[0]
  {
    var d := p + e;
    var n := LineLength(d);
    assert forall k :: 0 <= k < |p| ==> d[k] == p[k];
    assert d[n - 1] == '\n' || n == |d|;
    assert p < d[..n];
  }
}
