/** What write_config puts into a file for symbols, menus and comments, and what load_config takes
    out of the text. */
module KconfiglibLines {
  import opened Expressions
  import opened Kconfiglib
  import opened Escaping
  import T = ConfigText

  /** One string of _make_block_conf: for a symbol with a value, for one that is `n`, or for a menu
      or comment that is shown. */
  datatype Line = Set(id: nat, rhs: string) | Unset(id: nat) | Title(text: string)

  function NameOf(s: Setup, i: nat): string {
    if i < |s.syms| then s.syms[i].name else ""
  }

  function LineText(s: Setup, line: Line): string {
    match line
    case Set(i, rhs) => T.SET_PREFIX + NameOf(s, i) + "=" + rhs
    case Unset(i) => T.UNSET_PREFIX + NameOf(s, i) + T.UNSET_SUFFIX
    case Title(text) => "\n#\n# " + text + "\n#"
  }

  function Texts(s: Setup, lines: seq<Line>): (r: seq<string>)
    ensures |r| == |lines|
  {
    seq(|lines|, k requires 0 <= k < |lines| => LineText(s, lines[k]))
  }

  /** "\n".join */
  function Join(texts: seq<string>): string {
    if texts == [] then ""
    else if |texts| == 1 then texts[0]
    else texts[0] + "\n" + Join(texts[1..])
  }

  /** The file that write_config writes, without a header. */
  function FileText(s: Setup, lines: seq<Line>): string {
    Join(Texts(s, lines)) + "\n"
  }

  /** self.syms: the symbol with a name, from `k` on. */
  function SymbolNamed(s: Setup, name: string, k: nat): (i: Option<nat>)
    requires k <= |s.syms|
    ensures i.Some? ==> i.value < |s.syms| && s.syms[i.value].name == name
    ensures i.None? ==> forall j :: k <= j < |s.syms| ==> s.syms[j].name != name
    decreases |s.syms| - k
  {
    if k == |s.syms| then None
    else if s.syms[k].name == name then Some(k)
    else SymbolNamed(s, name, k + 1)
  }

  /** The assignments that load_config makes, up to the first malformed line, and whether there is
      none. */
  function ReadLines(s: Setup, lines: seq<string>): (r: (seq<(nat, string)>, bool))
    ensures forall k :: 0 <= k < |r.0| ==> r.0[k].0 < |s.syms|
  {
    if lines == [] then ([], true)
    else
      match T.ReadLine(s.chars, lines[0])
      case Malformed => ([], false)
      case Nothing => ReadLines(s, lines[1..])
      case Assign(name, text) =>
        var i, rest := SymbolNamed(s, name, 0), ReadLines(s, lines[1..]);
        if i.None? then rest else ([(i.value, text)] + rest.0, rest.1)
  }

  function ReadText(s: Setup, text: string): (r: (seq<(nat, string)>, bool))
    ensures forall k :: 0 <= k < |r.0| ==> r.0[k].0 < |s.syms|
  {
    ReadLines(s, T.LinesOf(s.chars, text))
  }

  /** load_config: the header is skipped, then the assignments are collected. */
  method ReadFile(s: Setup, text: string) returns (read: seq<(nat, string)>, ok: bool)
    ensures (read, ok) == ReadText(s, text)
  {
    var lines := T.GetLines(s.chars, text);
    var start := 0;
    while start < |lines| && T.IsHeader(s.chars, lines[start])
      invariant start <= |lines| && ReadLines(s, lines[start..]) == ReadLines(s, lines)
    {
      T.HeaderSaysNothing(s.chars, lines[start]);
      assert lines[start..][1..] == lines[start + 1..];
      start := start + 1;
    }
    read := [];
    ThenNothing(ReadLines(s, lines));
    for k := start to |lines|
      invariant ReadLines(s, lines) == Then((read, true), ReadLines(s, lines[k..]))
    {
      ReadNext(s, lines, k, read);
      hide ReadLines;
      var reading := T.ReadLine(s.chars, lines[k]);
      if reading.Malformed? {
        return read, false;
      }
      if reading.Assign? {
        var i := SymbolNamed(s, reading.name, 0);
        if i.Some? {
          read := read + [(i.value, reading.text)];
        }
      }
    }
    ThenNothing((read, true));
    ok := true;
  }

  lemma ReadNext(s: Setup, lines: seq<string>, k: nat, read: seq<(nat, string)>)
    requires k < |lines|
    ensures Then((read, true), ReadLines(s, lines[k..])) ==
            var first := FirstRead(s, lines[k]); Then((read + first.0, first.1), ReadLines(s, lines[k + 1..]))
    ensures read + [] == read
  {
    assert lines[k..] == [lines[k]] + lines[k + 1..];
    ReadFirst(s, lines[k], lines[k + 1..]);
    ThenAssociates((read, true), FirstRead(s, lines[k]), ReadLines(s, lines[k + 1..]));
  }

  // ---------------------------------------------------------------- block by block

  /** Python facts: which characters are white space or belong to names; that int() ignores white
      space at the end of what it takes, and takes nothing that holds a backslash, a G or a double
      quote, or begins with a quote; and that str() and hex() write no line breaks. */
  ghost predicate PythonText(s: Setup) {
    var c := s.chars;
    && c.space('\n') && !c.space(QUOTE) && !c.space('y') && !c.space('m') && !c.space('=') && !c.space('t')
    && !c.word('=') && !c.word(' ') && !c.word('\n') && !c.word('\r') && !c.word(SLASH)
    && (forall t: string, base: nat :: s.parse(t, base).Some? ==> NumberText(s, t, base))
    && (forall n :: CleanText(c, s.show(n, 10)) && CleanText(c, s.show(n, 16)))
  }

  /** A text without a line break that leaves the line end behind it alone. */
  predicate CleanText(c: Chars, t: string) {
    !T.HasBreak(c, t) && (t == "" || (t[|t| - 1] != SLASH && t[|t| - 1] != '\r'))
  }

  predicate NumberText(s: Setup, t: string, base: nat) {
    && s.parse(T.RStrip(s.chars, t), base) == s.parse(t, base)
    && !T.LooksQuoted(t) && 'G' !in t && SLASH !in t && QUOTE !in t
  }

  /** The names of symbols are words, and all different. */
  predicate KnownNames(s: Setup) {
    && (forall i :: 0 <= i < |s.syms| ==> T.IsName(s.chars, s.syms[i].name))
    && (forall i, j :: 0 <= i < j < |s.syms| ==> s.syms[i].name != s.syms[j].name)
  }

  lemma NameFinds(s: Setup, i: nat)
    requires KnownNames(s) && i < |s.syms|
    ensures SymbolNamed(s, s.syms[i].name, 0) == Some(i)
  {
  }

  /** One reading after another; the second is not reached if the first fails. */
  function Then(a: (seq<(nat, string)>, bool), b: (seq<(nat, string)>, bool)): (seq<(nat, string)>, bool) {
    if a.1 then (a.0 + b.0, b.1) else a
  }

  /** What the first line adds. */
  function FirstRead(s: Setup, line: string): (seq<(nat, string)>, bool) {
    match T.ReadLine(s.chars, line)
    case Malformed => ([], false)
    case Nothing => ([], true)
    case Assign(name, text) =>
      var i := SymbolNamed(s, name, 0);
      if i.None? then ([], true) else ([(i.value, text)], true)
  }

  lemma ReadFirst(s: Setup, line: string, rest: seq<string>)
    ensures ReadLines(s, [line] + rest) == Then(FirstRead(s, line), ReadLines(s, rest))
  {
    assert ([line] + rest)[1..] == rest;
    var r := ReadLines(s, rest);
    assert [] + r.0 == r.0;
  }

  lemma ThenAssociates(a: (seq<(nat, string)>, bool), b: (seq<(nat, string)>, bool), c: (seq<(nat, string)>, bool))
    ensures Then(Then(a, b), c) == Then(a, Then(b, c))
  {
    assert a.0 + b.0 + c.0 == a.0 + (b.0 + c.0);
  }

  lemma ThenNothing(a: (seq<(nat, string)>, bool))
    ensures Then(a, ([], true)) == a == Then(([], true), a)
  {
    assert a.0 + [] == a.0 && [] + a.0 == a.0;
  }

  lemma {:induction false} ReadLinesAppend(s: Setup, xs: seq<string>, ys: seq<string>)
    ensures ReadLines(s, xs + ys) == Then(ReadLines(s, xs), ReadLines(s, ys))
  {
    if xs == [] {
      assert xs + ys == ys;
      ThenNothing(ReadLines(s, ys));
    } else {
      assert xs == [xs[0]] + xs[1..] && xs + ys == [xs[0]] + (xs[1..] + ys);
      ReadFirst(s, xs[0], xs[1..]);
      ReadFirst(s, xs[0], xs[1..] + ys);
      ReadLinesAppend(s, xs[1..], ys);
      ThenAssociates(FirstRead(s, xs[0]), ReadLines(s, xs[1..]), ReadLines(s, ys));
    }
  }

  lemma OneRead(s: Setup, line: string)
    ensures ReadLines(s, [line]) == FirstRead(s, line)
  {
    var none: seq<string> := [];
    ReadFirst(s, line, none);
    assert [line] + none == [line];
    ThenNothing(FirstRead(s, line));
  }

  /** What one string of the file is read as, on its own. */
  function ReadBlock(s: Setup, line: Line): (r: (seq<(nat, string)>, bool))
    ensures forall k :: 0 <= k < |r.0| ==> r.0[k].0 < |s.syms|
  {
    ReadText(s, LineText(s, line) + "\n")
  }

  function ReadBlocks(s: Setup, lines: seq<Line>): (r: (seq<(nat, string)>, bool))
    ensures forall k :: 0 <= k < |r.0| ==> r.0[k].0 < |s.syms|
  {
    if lines == [] then ([], true)
    else
      Then(ReadBlock(s, lines[0]), ReadBlocks(s, lines[1..]))
  }

  lemma JoinFirst(s: Setup, lines: seq<Line>)
    requires lines != []
    ensures FileText(s, lines) ==
            LineText(s, lines[0]) + "\n" + if |lines| == 1 then "" else FileText(s, lines[1..])
  {
    assert Texts(s, lines)[1..] == Texts(s, lines[1..]);
  }

  /** A file is read string by string, if each ends its last line. */
  lemma {:induction false} FileRead(s: Setup, lines: seq<Line>)
    requires s.chars.space('\n')
    requires forall k :: 0 <= k < |lines| ==> T.Ends(s.chars, LineText(s, lines[k]) + "\n")
    ensures ReadText(s, FileText(s, lines)) == ReadBlocks(s, lines)
    decreases lines
  {
    if lines == [] {
      EmptyRead(s);
    } else {
      JoinFirst(s, lines);
      var first, rest := LineText(s, lines[0]) + "\n", if |lines| == 1 then "" else FileText(s, lines[1..]);
      T.LinesAppend(s.chars, first, rest);
      ReadLinesAppend(s, T.LinesOf(s.chars, first), T.LinesOf(s.chars, rest));
      if |lines| > 1 {
        FileRead(s, lines[1..]);
      } else {
        ThenNothing(ReadBlock(s, lines[0]));
      }
    }
  }

  lemma EmptyRead(s: Setup)
    requires s.chars.space('\n')
    ensures ReadText(s, FileText(s, [])) == ([], true)
  {
    assert FileText(s, []) == "" + "\n";
    T.OneLine(s.chars, "");
    T.NoGNothing(s.chars, "" + "\n");
    SaysNothing(s, ["" + "\n"]);
  }

  lemma {:induction false} SaysNothing(s: Setup, lines: seq<string>)
    requires forall line :: line in lines ==> Silent(s, line)
    ensures ReadLines(s, lines) == ([], true)
  {
    if lines != [] {
      assert lines[0] in lines && forall line :: line in lines[1..] ==> line in lines;
      SaysNothing(s, lines[1..]);
    }
  }

  /** A line that assigns nothing to a known symbol. */
  predicate Silent(s: Setup, line: string) {
    var r := T.ReadLine(s.chars, line);
    r.Nothing? || (r.Assign? && SymbolNamed(s, r.name, 0).None?)
  }

  // ---------------------------------------------------------------- symbols

  lemma NamesAreClean(s: Setup, i: nat)
    requires PythonText(s) && KnownNames(s) && i < |s.syms|
    ensures forall x :: x in T.SET_PREFIX + NameOf(s, i) + "=" ==> !T.Breaks(s.chars, x) && x != SLASH && x != '\n' && x != '\r'
    ensures forall x :: x in T.UNSET_PREFIX + NameOf(s, i) + T.UNSET_SUFFIX ==> !T.Breaks(s.chars, x) && x != SLASH && x != '\n' && x != '\r'
  {
    forall x | x in NameOf(s, i) ensures s.chars.word(x) {
    }
  }

  lemma UnsetBlock(s: Setup, i: nat)
    requires PythonText(s) && KnownNames(s) && i < |s.syms|
    ensures ReadBlock(s, Unset(i)) == ([(i, "n")], true) && T.Ends(s.chars, LineText(s, Unset(i)) + "\n")
    ensures T.LinesOf(s.chars, LineText(s, Unset(i)) + "\n") == [LineText(s, Unset(i)) + "\n"]
  {
    var t := LineText(s, Unset(i));
    NamesAreClean(s, i);
    Clean(s, t);
    T.OneLine(s.chars, t);
    T.NoSlashEnds(s.chars, t);
    T.UnsetRead(s.chars, NameOf(s, i));
    NameFinds(s, i);
    OneRead(s, t + "\n");
  }

  lemma Clean(s: Setup, t: string)
    requires forall x :: x in t ==> !T.Breaks(s.chars, x)
    ensures !T.HasBreak(s.chars, t)
  {
  }

  /** The text for a symbol whose right-hand side is written as `rhs`. */
  function Back(s: Setup, rhs: string): Option<string> {
    T.TextOf(T.RStrip(s.chars, T.FirstPart(s.chars, rhs)))
  }

  function Single(i: nat, text: Option<string>): (seq<(nat, string)>, bool) {
    if text.None? then ([], false) else ([(i, text.value)], true)
  }

  /** A right-hand side without a line break, or like that of a number: what is before the line break
      is read, and the rest says nothing. */
  lemma SetBlock(s: Setup, i: nat, rhs: string)
    requires PythonText(s) && KnownNames(s) && i < |s.syms|
    requires if T.HasBreak(s.chars, rhs) then SLASH !in rhs && 'G' !in rhs else rhs == "" || rhs[|rhs| - 1] != SLASH
    ensures ReadBlock(s, Set(i, rhs)) == Single(i, Back(s, rhs))
  {
    var c, part := s.chars, T.FirstPart(s.chars, rhs);
    var p := T.SET_PREFIX + NameOf(s, i) + "=";
    T.FirstPartIs(c, rhs);
    NamesAreClean(s, i);
    assert part <= rhs && p != "" && forall x :: x in p ==> !T.Breaks(c, x) && x != SLASH;
    SetLineRead(s, i, part);
    if T.HasBreak(c, rhs) {
      assert SLASH !in part;
      assert LineText(s, Set(i, rhs)) == p + rhs;
      hide *;
      PrefixClean(s, p, part);
      var rest := rhs[|part| + 1..] + "\n";
      BreakSplits(p, part, rhs);
      RestIsSilent(s, p + part, rhs[|part|], rest);
      BlockIs(s, i, rhs, part, p + part + [rhs[|part|]] + rest);
    } else {
      assert part == rhs && LineText(s, Set(i, rhs)) == p + part;
      PrefixClean(s, p, part);
      hide *;
      T.OneLine(c, p + part);
      BlockIs(s, i, rhs, part, p + part + "\n");
    }
  }

  lemma BreakSplits(p: string, part: string, rhs: string)
    requires part <= rhs && |part| < |rhs|
    ensures p + rhs + "\n" == (p + part) + [rhs[|part|]] + (rhs[|part| + 1..] + "\n")
    ensures 'G' !in rhs ==> 'G' !in rhs[|part| + 1..] + "\n"
  {
  }

  lemma BlockIs(s: Setup, i: nat, rhs: string, part: string, text: string)
    requires text == LineText(s, Set(i, rhs)) + "\n" && part == T.FirstPart(s.chars, rhs)
    requires ReadText(s, text) == Single(i, T.TextOf(T.RStrip(s.chars, part)))
    ensures ReadBlock(s, Set(i, rhs)) == Single(i, Back(s, rhs))
  {
  }

  lemma RestIsSilent(s: Setup, x: string, b: char, rest: string)
    requires PythonText(s) && !T.HasBreak(s.chars, x) && SLASH !in x && T.Breaks(s.chars, b) && 'G' !in rest
    ensures ReadText(s, x + [b] + rest) == ReadLines(s, [x + "\n"])
  {
    var rest1 := T.Broken(s.chars, x, b, rest);
    var lines := T.LinesOf(s.chars, rest1);
    forall line | line in lines ensures Silent(s, line) {
      T.NoGLines(s.chars, rest1, line);
    }
    SaysNothing(s, lines);
    ReadLinesAppend(s, [x + "\n"], lines);
    ThenNothing(ReadLines(s, [x + "\n"]));
  }

  lemma PrefixClean(s: Setup, p: string, part: string)
    requires forall x :: x in p ==> !T.Breaks(s.chars, x) && x != SLASH
    requires !T.HasBreak(s.chars, part) && p != ""
    ensures !T.HasBreak(s.chars, p + part)
    ensures SLASH !in part ==> SLASH !in p + part
    ensures part == "" || part[|part| - 1] != SLASH ==> (p + part)[|p + part| - 1] != SLASH
  {
    forall k | 0 <= k < |p + part| ensures !T.Breaks(s.chars, (p + part)[k]) {
      if k < |p| {
        assert p[k] in p;
      }
    }
  }

  lemma SetLineRead(s: Setup, i: nat, part: string)
    requires PythonText(s) && KnownNames(s) && i < |s.syms|
    ensures ReadLines(s, [T.SET_PREFIX + NameOf(s, i) + "=" + part + "\n"]) == Single(i, T.TextOf(T.RStrip(s.chars, part)))
  {
    T.SetRead(s.chars, NameOf(s, i), part);
    NameFinds(s, i);
    OneRead(s, T.SET_PREFIX + NameOf(s, i) + "=" + part + "\n");
  }

  /** Whatever the right-hand side holds: if the block can be read, its first assignment is to the
      symbol. */
  lemma FirstAssigned(s: Setup, i: nat, rhs: string)
    requires PythonText(s) && KnownNames(s) && i < |s.syms| && T.Ends(s.chars, LineText(s, Set(i, rhs)) + "\n")
    ensures var r := ReadBlock(s, Set(i, rhs)); r.1 ==> r.0 != [] && r.0[0].0 == i
  {
    var c, p := s.chars, T.SET_PREFIX + NameOf(s, i) + "=";
    var text := LineText(s, Set(i, rhs)) + "\n";
    NamesAreClean(s, i);
    Clean(s, p);
    assert p[|p| - 1] == '=' && text == p + (rhs + "\n");
    T.FirstLineStarts(c, p, rhs + "\n");
    var first := T.LinesOf(c, text)[0];
    var tail := first[|p|..];
    assert first == p + tail;
    T.RStripTail(c, p, tail);
    T.SetMatches(c, NameOf(s, i), T.RStrip(c, tail));
    NameFinds(s, i);
  }

  /** No text that is assigned holds a line break. */
  lemma TextsAssigned(s: Setup, text: string, k: nat)
    requires s.chars.space('\n') && k < |ReadText(s, text).0|
    ensures !T.HasBreak(s.chars, ReadText(s, text).0[k].1)
  {
    var line := WhichLine(s, T.LinesOf(s.chars, text), k);
    T.TextsUnbroken(s.chars, text, line);
  }

  lemma {:induction false} WhichLine(s: Setup, lines: seq<string>, k: nat) returns (line: string)
    requires k < |ReadLines(s, lines).0|
    ensures line in lines && T.ReadLine(s.chars, line).Assign? && T.ReadLine(s.chars, line).text == ReadLines(s, lines).0[k].1
  {
    var first, rest := FirstRead(s, lines[0]), ReadLines(s, lines[1..]);
    assert lines == [lines[0]] + lines[1..];
    ReadFirst(s, lines[0], lines[1..]);
    FirstReadIs(s, lines[0]);
    hide *;
    ThenAt(first, rest, k);
    if k < |first.0| {
      line := lines[0];
    } else {
      line := WhichLine(s, lines[1..], k - |first.0|);
    }
  }

  lemma FirstReadIs(s: Setup, line: string)
    ensures forall k :: 0 <= k < |FirstRead(s, line).0| ==>
              T.ReadLine(s.chars, line).Assign? && FirstRead(s, line).0[k].1 == T.ReadLine(s.chars, line).text
  {
  }

  lemma ThenAt(a: (seq<(nat, string)>, bool), b: (seq<(nat, string)>, bool), k: nat)
    requires k < |Then(a, b).0|
    ensures if k < |a.0| then Then(a, b).0[k] == a.0[k] else k - |a.0| < |b.0| && Then(a, b).0[k] == b.0[k - |a.0|]
  {
  }

  // ---------------------------------------------------------------- menus and comments

  /** A title without a line break or a backslash at its end that does not read like the line of a
      symbol that is not set. */
  predicate Harmless(s: Setup, title: string) {
    CleanText(s.chars, title) && Silent(s, "# " + title + "\n")
  }

  lemma TitleBlock(s: Setup, title: string)
    requires PythonText(s) && Harmless(s, title)
    ensures ReadBlock(s, Title(title)) == ([], true) && T.Ends(s.chars, LineText(s, Title(title)) + "\n")
  {
    var a := "# " + title;
    PrefixClean(s, "# ", title);
    T.OneLine(s.chars, a);
    T.LineEnds(s.chars, a);
    TitleRead(s, title);
    SaysNothing(s, [a + "\n"]);
    T.LineEnds(s.chars, LineText(s, Title(title)));
  }

  /** The lines around a title say nothing. */
  lemma TitleRead(s: Setup, title: string)
    requires PythonText(s) && T.Ends(s.chars, "# " + title + "\n") && T.LinesOf(s.chars, "# " + title + "\n") == ["# " + title + "\n"]
    ensures ReadBlock(s, Title(title)) == ReadLines(s, ["# " + title + "\n"])
  {
    var c, a := s.chars, "# " + title + "\n";
    var hash, blank := "#" + "\n", "" + "\n";
    assert LineText(s, Title(title)) + "\n" == blank + (hash + (a + hash));
    TitleLine(s, "");
    TitleLine(s, "#");
    T.LinesAppend(c, a, hash);
    T.LinesAppend(c, hash, a + hash);
    T.LinesAppend(c, blank, hash + (a + hash));
    SaysNothing(s, [blank]);
    SaysNothing(s, [hash]);
    ReadLinesAppend(s, [a], [hash]);
    ReadLinesAppend(s, [hash], [a] + [hash]);
    ReadLinesAppend(s, [blank], [hash] + ([a] + [hash]));
    ThenNothing(ReadLines(s, [a]));
  }

  lemma TitleLine(s: Setup, t: string)
    requires PythonText(s) && (t == "" || t == "#")
    ensures T.LinesOf(s.chars, t + "\n") == [t + "\n"] && T.Ends(s.chars, t + "\n") && Silent(s, t + "\n")
  {
    T.OneLine(s.chars, t);
    T.LineEnds(s.chars, t);
    T.NoGNothing(s.chars, t + "\n");
  }

  /** A menu or comment whose title reads like such a line is read as an assignment. */
  lemma TitleIsRead(s: Setup, i: nat)
    requires PythonText(s) && KnownNames(s) && i < |s.syms|
    ensures var title := T.UNSET_PREFIX[2..] + NameOf(s, i) + T.UNSET_SUFFIX;
            ReadBlock(s, Title(title)) == ([(i, "n")], true)
  {
    var title := T.UNSET_PREFIX[2..] + NameOf(s, i) + T.UNSET_SUFFIX;
    assert LineText(s, Unset(i)) == "# " + title;
    UnsetBlock(s, i);
    TitleRead(s, title);
  }
}
