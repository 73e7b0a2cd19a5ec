/** write_config followed by load_config, symbol by symbol: what is written, what is read back, and
    whether it gives the symbol its value back. */
module KconfiglibFiles {
  import opened Tristates
  import opened RankNumbers
  import opened Expressions
  import opened Formulas
  import opened Kconfiglib
  import opened Assignments
  import opened Escaping
  import opened KconfiglibLines
  import T = ConfigText

  /** What write_config goes through: symbols, and menus and comments with the conditions under
      which their titles are written. */
  datatype Item = OfSymbol(id: nat) | Heading(title: string, conds: seq<Option<Formula>>)

  /** Symbol._make_conf of a symbol that has write_to_conf set. */
  function MakeConf(d: SymDecl, i: nat, val: Value): Line {
    if val.Truth? then if val.t == NO then Unset(i) else Set(i, TruthText(val.t))
    else if d.stype.Str? then Set(i, [QUOTE] + PythonEscaped(val.s) + [QUOTE])
    else Set(i, val.s)
  }

  predicate Shown(s: Setup, conds: seq<Option<Formula>>, v: seq<Value>) {
    forall k :: 0 <= k < |conds| ==> Condition(conds[k], s.modules, v) != NO
  }

  predicate KnownItems(s: Setup, order: seq<Item>) {
    forall k :: 0 <= k < |order| && order[k].OfSymbol? ==> order[k].id < |s.syms|
  }

  /** The lines for one item; a symbol is written where it is listed first (already_written). */
  function WrittenFor(s: Setup, u: Entries, v: seq<Value>, item: Item, done: set<nat>): seq<Line>
    requires Known(s) && KnownEntries(s, u) && |v| == |s.syms| && (item.OfSymbol? ==> item.id < |s.syms|)
  {
    match item
    case OfSymbol(i) => if i !in done && ValueOf(s, u, i, v).1 then [MakeConf(s.syms[i], i, v[i])] else []
    case Heading(title, conds) => if Shown(s, conds, v) then [Title(title)] else []
  }

  function DoneWith(item: Item, done: set<nat>): set<nat> {
    if item.OfSymbol? then done + {item.id} else done
  }

  /** The lines of a file. `order` lists the items of the blocks as they come. */
  function Written(s: Setup, u: Entries, v: seq<Value>, order: seq<Item>, done: set<nat>): seq<Line>
    requires Known(s) && KnownEntries(s, u) && |v| == |s.syms| && KnownItems(s, order)
  {
    if order == [] then []
    else WrittenFor(s, u, v, order[0], done) + Written(s, u, v, order[1..], DoneWith(order[0], done))
  }

  predicate IsFor(line: Line, i: nat) {
    !line.Title? && line.id == i
  }

  function CountFor(lines: seq<Line>, i: nat): nat {
    if lines == [] then 0 else (if IsFor(lines[0], i) then 1 else 0) + CountFor(lines[1..], i)
  }

  lemma {:induction false} CountAppend(a: seq<Line>, b: seq<Line>, i: nat)
    ensures CountFor(a + b, i) == CountFor(a, i) + CountFor(b, i)
  {
    if a == [] {
      assert a + b == b;
    } else {
      assert (a + b)[1..] == a[1..] + b;
      CountAppend(a[1..], b, i);
    }
  }

  lemma WrittenForCount(s: Setup, u: Entries, v: seq<Value>, item: Item, done: set<nat>, i: nat)
    requires Known(s) && KnownEntries(s, u) && |v| == |s.syms| && (item.OfSymbol? ==> item.id < |s.syms|) && i < |s.syms|
    ensures CountFor(WrittenFor(s, u, v, item, done), i) == if item == OfSymbol(i) && i !in done && ValueOf(s, u, i, v).1 then 1 else 0
    ensures forall t :: Title(t) in WrittenFor(s, u, v, item, done) <==>
              item.Heading? && item.title == t && forall k :: 0 <= k < |item.conds| ==> Condition(item.conds[k], s.modules, v) != NO
  {
    if item.OfSymbol? {
      ConfIsFor(s.syms[item.id], item.id, v[item.id]);
    }
    hide ValueOf, MakeConf, Known;
  }

  lemma ConfIsFor(d: SymDecl, i: nat, val: Value)
    ensures !MakeConf(d, i, val).Title? && MakeConf(d, i, val).id == i
  {
  }

  /** Every symbol that is listed and has write_to_conf set has one line, and no other symbol has one. */
  lemma {:induction false} WrittenOnce(s: Setup, u: Entries, v: seq<Value>, order: seq<Item>, done: set<nat>, i: nat)
    requires Known(s) && KnownEntries(s, u) && |v| == |s.syms| && KnownItems(s, order) && i < |s.syms|
    ensures CountFor(Written(s, u, v, order, done), i) ==
            if i !in done && OfSymbol(i) in order && ValueOf(s, u, i, v).1 then 1 else 0
    decreases order
  {
    if order != [] {
      WrittenOnce(s, u, v, order[1..], DoneWith(order[0], done), i);
      WrittenForCount(s, u, v, order[0], done, i);
      CountAppend(WrittenFor(s, u, v, order[0], done), Written(s, u, v, order[1..], DoneWith(order[0], done)), i);
      assert OfSymbol(i) in order <==> OfSymbol(i) == order[0] || OfSymbol(i) in order[1..];
      hide WrittenFor, ValueOf, Known;
    }
  }

  function AllDone(order: seq<Item>, done: set<nat>): set<nat> {
    if order == [] then done else AllDone(order[1..], DoneWith(order[0], done))
  }

  /** The lines come in the order of the items. */
  lemma {:induction false} WrittenInOrder(s: Setup, u: Entries, v: seq<Value>, xs: seq<Item>, ys: seq<Item>, done: set<nat>)
    requires Known(s) && KnownEntries(s, u) && |v| == |s.syms| && KnownItems(s, xs) && KnownItems(s, ys)
    ensures KnownItems(s, xs + ys)
    ensures Written(s, u, v, xs + ys, done) == Written(s, u, v, xs, done) + Written(s, u, v, ys, AllDone(xs, done))
    decreases xs
  {
    if xs == [] {
      assert xs + ys == ys;
    } else {
      assert (xs + ys)[1..] == xs[1..] + ys;
      WrittenInOrder(s, u, v, xs[1..], ys, DoneWith(xs[0], done));
      hide WrittenFor, Known;
    }
  }

  /** A title is written if its menu or comment is listed and none of its conditions is `n`. */
  lemma {:induction false} TitleWrittenIff(s: Setup, u: Entries, v: seq<Value>, order: seq<Item>, done: set<nat>, title: string)
    requires Known(s) && KnownEntries(s, u) && |v| == |s.syms| && KnownItems(s, order)
    ensures Title(title) in Written(s, u, v, order, done) <==>
            exists k :: 0 <= k < |order| && order[k].Heading? && order[k].title == title &&
              forall j :: 0 <= j < |order[k].conds| ==> Condition(order[k].conds[j], s.modules, v) != NO
    decreases order
  {
    if order != [] {
      TitleWrittenIff(s, u, v, order[1..], DoneWith(order[0], done), title);
      hide ValueOf, MakeConf, Known;
      if order[0].OfSymbol? {
        ConfIsFor(s.syms[order[0].id], order[0].id, v[order[0].id]);
      }
      assert forall k :: 0 < k < |order| ==> order[k] == order[1..][k - 1];
      assert forall k :: 0 <= k < |order| - 1 ==> order[1..][k] == order[k + 1];
    }
  }

  // ---------------------------------------------------------------- what is read back

  /** The hypotheses of the round trip: no symbols of choices, and names that are different words. */
  ghost predicate Plain(s: Setup, v: seq<Value>) {
    && |v| == |s.syms| && PythonText(s) && KnownNames(s)
    && (forall i :: 0 <= i < |s.syms| ==> s.syms[i].choice.None?)
  }

  /** A text that int() takes in one of the two bases. */
  predicate NumberLike(s: Setup, t: string) {
    s.parse(t, 10).Some? || s.parse(t, 16).Some?
  }

  /** What int and hex symbols may have as a value. */
  predicate TidySym(s: Setup, u: Entries, v: seq<Value>, i: nat)
    requires Known(s) && KnownEntries(s, u) && |v| == |s.syms| && i < |s.syms|
  {
    ValueOf(s, u, i, v).1 && v[i].Text? && !s.syms[i].stype.Str? ==> NumberLike(s, v[i].s) || CleanText(s.chars, v[i].s)
  }

  predicate HarmlessTitles(s: Setup, order: seq<Item>) {
    forall k :: 0 <= k < |order| && order[k].Heading? ==> Harmless(s, order[k].title)
  }

  predicate Tidy(s: Setup, u: Entries, v: seq<Value>, order: seq<Item>)
    requires Known(s) && KnownEntries(s, u) && |v| == |s.syms|
  {
    (forall i :: 0 <= i < |s.syms| ==> TidySym(s, u, v, i)) && HarmlessTitles(s, order)
  }

  /** The text that comes back for a symbol, None if its line is malformed. */
  function TextBack(s: Setup, d: SymDecl, val: Value): Option<string> {
    match MakeConf(d, 0, val)
    case Unset(_) => Some("n")
    case Set(_, rhs) => Back(s, rhs)
    case Title(_) => None
  }

  predicate BrokenString(s: Setup, v: seq<Value>, i: nat)
    requires i < |s.syms| == |v|
  {
    s.syms[i].stype.Str? && v[i].Text? && T.HasBreak(s.chars, v[i].s)
  }

  /** A string that could be entered and holds a line break. */
  predicate BrokenEntry(s: Setup, v: seq<Value>, i: nat)
    requires Known(s) && i < |s.syms| == |v|
  {
    BrokenString(s, v, i) && Visibility(s, i, v) != NO
  }

  lemma EscapedBreaks(c: T.Chars, t: string)
    requires !T.HasBreak(c, t)
    ensures !T.HasBreak(c, [QUOTE] + PythonEscaped(t) + [QUOTE])
  {
    var d := Doubled(t);
    T.ReplaceChars(t, [SLASH], [SLASH, SLASH]);
    T.ReplaceChars(d, [QUOTE], [SLASH, QUOTE]);
    var rhs := [QUOTE] + PythonEscaped(t) + [QUOTE];
    forall k | 0 <= k < |rhs| ensures !T.Breaks(c, rhs[k]) {
      if 0 < k < |rhs| - 1 {
        assert rhs[k] == PythonEscaped(t)[k - 1] && rhs[k] in PythonEscaped(t);
      }
    }
  }

  /** Values of bool and tristate symbols, and strings without a line break, come back as they are. */
  lemma LineBack(s: Setup, v: seq<Value>, i: nat)
    requires Plain(s, v) && i < |v|
    ensures v[i].Truth? ==> TextBack(s, s.syms[i], v[i]) == Some(TruthText(v[i].t))
    ensures v[i].Text? && s.syms[i].stype.Str? && !T.HasBreak(s.chars, v[i].s) ==> TextBack(s, s.syms[i], v[i]) == Some(v[i].s)
  {
    if v[i].Truth? {
      if v[i].t != NO { TruthBreaks(s, v[i].t); }
    } else if s.syms[i].stype.Str? && !T.HasBreak(s.chars, v[i].s) {
      var rhs := [QUOTE] + PythonEscaped(v[i].s) + [QUOTE];
      EscapedBreaks(s.chars, v[i].s);
      T.FirstPartIs(s.chars, rhs);
      T.RStripIs(s.chars, rhs);
      PythonRoundTrip(v[i].s);
      assert rhs[1..|rhs| - 1] == PythonEscaped(v[i].s);
    }
  }

  lemma TruthBreaks(s: Setup, t: Tristate)
    requires PythonText(s) && t != NO
    ensures !T.HasBreak(s.chars, TruthText(t)) && Back(s, TruthText(t)) == Some(TruthText(t))
  {
    T.FirstPartIs(s.chars, TruthText(t));
    T.RStripIs(s.chars, TruthText(t));
  }

  lemma TruthEnds(s: Setup, t: Tristate)
    ensures t != NO ==> TruthText(t) != "" && TruthText(t)[|TruthText(t)| - 1] != SLASH && TruthText(t)[|TruthText(t)| - 1] != '\r'
  {
  }

  /** The line of a symbol ends before the next item begins. */
  lemma SymbolEnds(s: Setup, u: Entries, v: seq<Value>, i: nat)
    requires Known(s) && KnownEntries(s, u) && Plain(s, v) && i < |s.syms| && TidySym(s, u, v, i) && ValueOf(s, u, i, v).1
    ensures T.Ends(s.chars, LineText(s, MakeConf(s.syms[i], i, v[i])) + "\n")
  {
    var line := MakeConf(s.syms[i], i, v[i]);
    if line.Unset? {
      UnsetBlock(s, i);
    } else {
      NamesAreClean(s, i);
      if v[i].Truth? { TruthEnds(s, v[i].t); }
      var p := T.SET_PREFIX + NameOf(s, i) + "=";
      assert LineText(s, line) == p + line.rhs && p[|p| - 1] == '=';
      if SLASH !in line.rhs {
        assert forall x :: x in p ==> x != SLASH;
        T.NoSlashEnds(s.chars, p + line.rhs);
      } else {
        NumberClean(s, v[i]);
        T.LineEnds(s.chars, p + line.rhs);
      }
    }
  }

  lemma NumberClean(s: Setup, val: Value)
    requires PythonText(s)
    ensures val.Text? && NumberLike(s, val.s) ==> SLASH !in val.s && 'G' !in val.s && !T.LooksQuoted(val.s)
  {
    if val.Text? && NumberLike(s, val.s) {
      assert s.parse(val.s, 10).Some? ==> NumberText(s, val.s, 10);
      assert s.parse(val.s, 16).Some? ==> NumberText(s, val.s, 16);
    }
  }

  /** A line that is no broken string is read as one assignment, or malformed. */
  lemma SymbolBlock(s: Setup, u: Entries, v: seq<Value>, i: nat)
    requires Known(s) && KnownEntries(s, u) && Plain(s, v) && i < |s.syms| && TidySym(s, u, v, i) && ValueOf(s, u, i, v).1
    requires !BrokenString(s, v, i)
    ensures ReadBlock(s, MakeConf(s.syms[i], i, v[i])) == Single(i, TextBack(s, s.syms[i], v[i]))
  {
    var line := MakeConf(s.syms[i], i, v[i]);
    if line.Unset? {
      UnsetBlock(s, i);
    } else {
      if v[i].Truth? {
        TruthBreaks(s, v[i].t);
        TruthEnds(s, v[i].t);
      } else if s.syms[i].stype.Str? {
        EscapedBreaks(s.chars, v[i].s);
      } else {
        NumberClean(s, v[i]);
      }
      SetBlock(s, i, line.rhs);
    }
  }

  /** The line of a symbol, if it has one, can be read. */
  predicate Readable(s: Setup, u: Entries, v: seq<Value>, i: nat)
    requires Known(s) && KnownEntries(s, u) && |v| == |s.syms| && i < |s.syms|
  {
    ValueOf(s, u, i, v).1 ==> ReadBlock(s, MakeConf(s.syms[i], i, v[i])).1
  }

  // ---------------------------------------------------------------- the whole file

  lemma {:induction false} ReadBlocksAppend(s: Setup, a: seq<Line>, b: seq<Line>)
    ensures ReadBlocks(s, a + b) == Then(ReadBlocks(s, a), ReadBlocks(s, b))
  {
    if a == [] {
      assert a + b == b;
      ThenNothing(ReadBlocks(s, b));
    } else {
      assert (a + b)[1..] == a[1..] + b;
      ReadBlocksAppend(s, a[1..], b);
      ThenAssociates(ReadBlock(s, a[0]), ReadBlocks(s, a[1..]), ReadBlocks(s, b));
    }
  }

  lemma OneBlock(s: Setup, line: Line)
    ensures ReadBlocks(s, [line]) == ReadBlock(s, line)
  {
    ThenNothing(ReadBlock(s, line));
  }

  /** What the first item of the order is read as. */
  function ItemRead(s: Setup, u: Entries, v: seq<Value>, item: Item, done: set<nat>): (seq<(nat, string)>, bool)
    requires Known(s) && KnownEntries(s, u) && |v| == |s.syms| && (item.OfSymbol? ==> item.id < |s.syms|)
  {
    if item.OfSymbol? && item.id !in done && ValueOf(s, u, item.id, v).1 then
      ReadBlock(s, MakeConf(s.syms[item.id], item.id, v[item.id]))
    else ([], true)
  }

  lemma WrittenNext(s: Setup, u: Entries, v: seq<Value>, order: seq<Item>, done: set<nat>)
    requires Known(s) && KnownEntries(s, u) && Plain(s, v) && order != [] && KnownItems(s, order) && Tidy(s, u, v, order)
    ensures KnownItems(s, order[1..]) && Tidy(s, u, v, order[1..])
    ensures ReadBlocks(s, Written(s, u, v, order, done)) ==
            Then(ItemRead(s, u, v, order[0], done), ReadBlocks(s, Written(s, u, v, order[1..], DoneWith(order[0], done))))
    ensures forall line :: line in Written(s, u, v, order, done) ==>
              T.Ends(s.chars, LineText(s, line) + "\n") || line in Written(s, u, v, order[1..], DoneWith(order[0], done))
  {
    var item := order[0];
    var here, rest := WrittenFor(s, u, v, item, done), Written(s, u, v, order[1..], DoneWith(item, done));
    if item.OfSymbol? {
      ItemTidy(s, u, v, order, item.id);
    } else {
      assert Harmless(s, item.title);
    }
    assert Written(s, u, v, order, done) == here + rest;
    assert PythonText(s) && KnownNames(s);
    hide *;
    HereRead(s, u, v, item, done);
    ReadBlocksAppend(s, here, rest);
  }

  lemma HereRead(s: Setup, u: Entries, v: seq<Value>, item: Item, done: set<nat>)
    requires Known(s) && KnownEntries(s, u) && |v| == |s.syms| && Plain(s, v)
    requires PythonText(s) && if item.OfSymbol? then item.id < |s.syms| && TidySym(s, u, v, item.id) else Harmless(s, item.title)
    ensures ReadBlocks(s, WrittenFor(s, u, v, item, done)) == ItemRead(s, u, v, item, done)
    ensures forall line :: line in WrittenFor(s, u, v, item, done) ==> T.Ends(s.chars, LineText(s, line) + "\n")
  {
    hide ReadBlocks, ReadBlock, LineText, T.Ends, ValueOf, TidySym, Plain, Known;
    NoBlocks(s);
    match item
    case OfSymbol(i) =>
      OneBlock(s, MakeConf(s.syms[i], i, v[i]));
      if ValueOf(s, u, i, v).1 { SymbolEnds(s, u, v, i); }
    case Heading(title, _) =>
      OneBlock(s, Title(title));
      TitleBlock(s, title);
  }

  lemma ItemTidy(s: Setup, u: Entries, v: seq<Value>, order: seq<Item>, i: nat)
    requires Known(s) && KnownEntries(s, u) && |v| == |s.syms| && Tidy(s, u, v, order) && i < |s.syms|
    ensures TidySym(s, u, v, i)
  {
  }

  lemma NoBlocks(s: Setup)
    ensures ReadBlocks(s, []) == ([], true)
  {
  }

  /** Every line of the file ends before the next item begins. */
  lemma {:induction false} AllEnd(s: Setup, u: Entries, v: seq<Value>, order: seq<Item>, done: set<nat>, line: Line)
    requires Known(s) && KnownEntries(s, u) && Plain(s, v) && KnownItems(s, order) && Tidy(s, u, v, order)
    requires line in Written(s, u, v, order, done)
    ensures T.Ends(s.chars, LineText(s, line) + "\n")
    decreases order
  {
    WrittenNext(s, u, v, order, done);
    if !T.Ends(s.chars, LineText(s, line) + "\n") {
      AllEnd(s, u, v, order[1..], DoneWith(order[0], done), line);
    }
  }

  /** So the file is read item by item. */
  lemma FileIsRead(s: Setup, u: Entries, v: seq<Value>, order: seq<Item>)
    requires Known(s) && KnownEntries(s, u) && Plain(s, v) && KnownItems(s, order) && Tidy(s, u, v, order)
    ensures ReadText(s, FileText(s, Written(s, u, v, order, {}))) == ReadBlocks(s, Written(s, u, v, order, {}))
  {
    var lines := Written(s, u, v, order, {});
    forall k | 0 <= k < |lines| ensures T.Ends(s.chars, LineText(s, lines[k]) + "\n") {
      AllEnd(s, u, v, order, {}, lines[k]);
    }
    FileRead(s, lines);
  }

  /** The file can be read exactly if every line can. */
  lemma {:induction false} LinesReadable(s: Setup, u: Entries, v: seq<Value>, order: seq<Item>, done: set<nat>)
    requires Known(s) && KnownEntries(s, u) && Plain(s, v) && KnownItems(s, order) && Tidy(s, u, v, order)
    ensures ReadBlocks(s, Written(s, u, v, order, done)).1 <==>
            forall i :: 0 <= i < |s.syms| && i !in done && OfSymbol(i) in order ==> Readable(s, u, v, i)
    decreases order
  {
    hide ReadBlocks, ReadBlock, ValueOf, Plain, Tidy, Known, MakeConf;
    if order != [] {
      var item := order[0];
      WrittenNext(s, u, v, order, done);
      LinesReadable(s, u, v, order[1..], DoneWith(item, done));
      hide Written;
      assert forall i :: OfSymbol(i) in order <==> OfSymbol(i) == item || OfSymbol(i) in order[1..];
    } else {
      NoBlocks(s);
    }
  }

  /** What a symbol's line is read as is among what the file is read as. */
  lemma {:induction false} LineAmong(s: Setup, u: Entries, v: seq<Value>, order: seq<Item>, done: set<nat>, i: nat)
    requires Known(s) && KnownEntries(s, u) && Plain(s, v) && KnownItems(s, order) && Tidy(s, u, v, order)
    requires i < |s.syms| && i !in done && OfSymbol(i) in order && ValueOf(s, u, i, v).1
    requires ReadBlocks(s, Written(s, u, v, order, done)).1
    ensures ReadBlock(s, MakeConf(s.syms[i], i, v[i])).1
    ensures Among(ReadBlock(s, MakeConf(s.syms[i], i, v[i])).0, ReadBlocks(s, Written(s, u, v, order, done)).0)
    decreases order
  {
    var item := order[0];
    WrittenNext(s, u, v, order, done);
    assert OfSymbol(i) == item || OfSymbol(i) in order[1..];
    AmongBoth(ItemRead(s, u, v, item, done).0, ReadBlocks(s, Written(s, u, v, order[1..], DoneWith(item, done))).0);
    if item != OfSymbol(i) {
      LineAmong(s, u, v, order[1..], DoneWith(item, done), i);
    }
  }

  predicate Among(a: seq<(nat, string)>, b: seq<(nat, string)>) {
    forall x :: x in a ==> x in b
  }

  lemma AmongBoth(a: seq<(nat, string)>, b: seq<(nat, string)>)
    ensures Among(a, a + b) && forall x :: Among(x, b) ==> Among(x, a + b)
  {
  }

  // ---------------------------------------------------------------- entries, when no string is broken

  /** The entries that loading the file leaves: an entry for every symbol that was written and
      whose text is valid. */
  function EntryBack(s: Setup, u: Entries, v: seq<Value>, i: nat): Option<string>
    requires Known(s) && KnownEntries(s, u) && |v| == |s.syms| && i < |s.syms|
  {
    var d := s.syms[i];
    var t := TextBack(s, d, v[i]);
    if ValueOf(s, u, i, v).1 && d.special.None? && t.Some? && ValidText(s, d, t.value) then t else None
  }

  /** Assigning the text that comes back for a symbol that was written. */
  lemma LineAssigned(s: Setup, u: Entries, v: seq<Value>, i: nat, e: Entries)
    requires Known(s) && KnownEntries(s, u) && KnownEntries(s, e) && Plain(s, v) && i < |s.syms|
    requires e.vals[i] == None && ValueOf(s, u, i, v).1 && TextBack(s, s.syms[i], v[i]).Some?
    ensures Assigned(s, e, i, TextBack(s, s.syms[i], v[i]).value) == e.(vals := e.vals[i := EntryBack(s, u, v, i)])
  {
    assert KnownSym(s, i);
    if EntryBack(s, u, v, i).None? {
      assert e.vals[i := None] == e.vals;
    }
  }

  ghost predicate Unbroken(s: Setup, u: Entries, v: seq<Value>)
    requires Known(s) && KnownEntries(s, u) && |v| == |s.syms|
  {
    forall i :: 0 <= i < |s.syms| && ValueOf(s, u, i, v).1 ==> !BrokenString(s, v, i)
  }

  lemma {:induction false} LinesBack(s: Setup, u: Entries, v: seq<Value>, order: seq<Item>, done: set<nat>, e: Entries)
    requires Known(s) && KnownEntries(s, u) && KnownEntries(s, e) && Plain(s, v) && KnownItems(s, order)
    requires Tidy(s, u, v, order) && Unbroken(s, u, v)
    requires forall i :: 0 <= i < |s.syms| && i !in done ==> e.vals[i] == None
    requires ReadBlocks(s, Written(s, u, v, order, done)).1
    ensures var a := AssignedAll(s, e, ReadBlocks(s, Written(s, u, v, order, done)).0);
            && a.picks == e.picks && a.modes == e.modes
            && forall i :: 0 <= i < |s.syms| ==> a.vals[i] == if i !in done && OfSymbol(i) in order then EntryBack(s, u, v, i) else e.vals[i]
    decreases order
  {
    if order != [] {
      var item := order[0];
      WrittenNext(s, u, v, order, done);
      var rest := ReadBlocks(s, Written(s, u, v, order[1..], DoneWith(item, done)));
      if item.OfSymbol? && item.id !in done && ValueOf(s, u, item.id, v).1 {
        SymbolBlock(s, u, v, item.id);
        NextBack(s, u, v, order, done, e, rest.0);
      } else {
        if item.OfSymbol? && item.id !in done { NothingBack(s, u, v, item.id); }
        ThenNothing(rest);
        assert forall i :: OfSymbol(i) in order <==> OfSymbol(i) == item || OfSymbol(i) in order[1..];
        hide ReadBlocks, Written, ReadBlock, ValueOf, Plain, Tidy, Known, Unbroken, MakeConf, EntryBack;
        LinesBack(s, u, v, order[1..], DoneWith(item, done), e);
      }
    } else {
      NoBlocks(s);
    }
  }

  lemma NextBack(s: Setup, u: Entries, v: seq<Value>, order: seq<Item>, done: set<nat>, e: Entries, rest: seq<(nat, string)>)
    requires Known(s) && KnownEntries(s, u) && KnownEntries(s, e) && Plain(s, v) && KnownItems(s, order)
    requires Tidy(s, u, v, order) && Unbroken(s, u, v)
    requires forall i :: 0 <= i < |s.syms| && i !in done ==> e.vals[i] == None
    requires order != [] && order[0].OfSymbol? && order[0].id !in done && ValueOf(s, u, order[0].id, v).1
    requires TextBack(s, s.syms[order[0].id], v[order[0].id]).Some?
    requires KnownItems(s, order[1..]) && Tidy(s, u, v, order[1..])
    requires (rest, true) == ReadBlocks(s, Written(s, u, v, order[1..], done + {order[0].id}))
    ensures var i := order[0].id;
            var a := AssignedAll(s, e, [(i, TextBack(s, s.syms[i], v[i]).value)] + rest);
            && a.picks == e.picks && a.modes == e.modes
            && forall i :: 0 <= i < |s.syms| ==> a.vals[i] == if i !in done && OfSymbol(i) in order then EntryBack(s, u, v, i) else e.vals[i]
    decreases order, 0
  {
    var i := order[0].id;
    var t := TextBack(s, s.syms[i], v[i]).value;
    LineAssigned(s, u, v, i, e);
    assert ([(i, t)] + rest)[1..] == rest;
    assert forall j :: OfSymbol(j) in order <==> OfSymbol(j) == order[0] || OfSymbol(j) in order[1..];
    hide ReadBlocks, Written, ReadBlock, ValueOf, Plain, Tidy, Known, Unbroken, MakeConf, EntryBack, Assigned;
    LinesBack(s, u, v, order[1..], done + {i}, Assigned(s, e, i, t));
  }

  lemma NothingBack(s: Setup, u: Entries, v: seq<Value>, i: nat)
    requires Known(s) && KnownEntries(s, u) && |v| == |s.syms| && i < |s.syms| && !ValueOf(s, u, i, v).1
    ensures EntryBack(s, u, v, i) == None
  {
  }

  /** The entries after writing everything and loading it into an empty configuration. */
  function Reloaded(s: Setup, u: Entries, v: seq<Value>): (e: Entries)
    requires Known(s) && KnownEntries(s, u) && |v| == |s.syms|
    ensures KnownEntries(s, e)
  {
    NoEntries(s).(vals := seq(|s.syms|, i requires 0 <= i < |s.syms| => EntryBack(s, u, v, i)))
  }

  // ---------------------------------------------------------------- whether values come back

  /** Whether a number is read back as a number in range. */
  predicate ReadInRange(s: Setup, i: nat, v: seq<Value>)
    requires i < |s.syms| && |v| == |s.syms|
  {
    var t, base := TextBack(s, s.syms[i], v[i]), BaseOf(s.syms[i].stype);
    t.Some? && s.parse(t.value, base).Some? && InRange(s, s.syms[i], s.parse(t.value, base).value, v)
  }

  /** What the value of one symbol needs in order to come back. Its line can be read; and while it can
      be entered, a tristate value is no default above the visibility, a string holds no line break,
      and a number is read back as it is, or is a default and read back as no number in range. */
  predicate Survives(s: Setup, u: Entries, i: nat, v: seq<Value>)
    requires Known(s) && KnownEntries(s, u) && |v| == |s.syms| && i < |s.syms|
  {
    var d, vis := s.syms[i], Visibility(s, i, v);
    && Readable(s, u, v, i)
    && (vis != NO && d.special.None? ==>
          && (d.stype.ThreeState? && v[i].Truth? ==> v[i].t <= vis || v[i].t == Raise(Holds(d.revDep, v), s.modules))
          && (d.stype.Str? && v[i].Text? ==> !T.HasBreak(s.chars, v[i].s))
          && ((d.stype.Int? || d.stype.Hex?) && v[i].Text? ==>
                if ReadInRange(s, i, v) then TextBack(s, d, v[i]).value == v[i].s else v[i].s == NumberDefault(s, i, v).0))
  }

  lemma TruthBack(s: Setup, u: Entries, v: seq<Value>, i: nat)
    requires Known(s) && KnownEntries(s, u) && Solves(s, u, v) && Plain(s, v) && i < |s.syms| && Readable(s, u, v, i)
    requires IsTri(s.syms[i].stype) && s.syms[i].special.None?
    ensures ValueOf(s, Reloaded(s, u, v), i, v).0 == v[i] <==> Survives(s, u, i, v)
    ensures s.syms[i].stype.Boolean? ==> Survives(s, u, i, v)
  {
    TruthTextRoundTrip(NO);
    TruthTextRoundTrip(MOD);
    TruthTextRoundTrip(YES);
    TextsDiffer();
    LineBack(s, v, i);
    assert KnownSym(s, i);
    assert v[i] == ValueOf(s, u, i, v).0;
    hide ReadBlock, MakeConf, TextBack, Readable;
    var d, vis, e := s.syms[i], Visibility(s, i, v), Reloaded(s, u, v);
    assert !s.modules ==> vis != MOD && v[i].t != MOD;
    assert d.stype.Boolean? ==> vis != MOD && v[i].t != MOD;
    assert vis != NO ==> e.vals[i] == Some(TruthText(v[i].t));
  }

  lemma StringBack(s: Setup, u: Entries, v: seq<Value>, i: nat)
    requires Known(s) && KnownEntries(s, u) && Solves(s, u, v) && Plain(s, v) && i < |s.syms| && Readable(s, u, v, i)
    requires s.syms[i].stype.Str? && s.syms[i].special.None? && !BrokenString(s, v, i)
    ensures ValueOf(s, Reloaded(s, u, v), i, v).0 == v[i] && Survives(s, u, i, v)
  {
    assert KnownSym(s, i);
    assert v[i] == ValueOf(s, u, i, v).0;
    LineBack(s, v, i);
    var e := Reloaded(s, u, v);
    StringIs(s, u, v, i);
    StringIs(s, e, v, i);
    hide *;
    assert v[i] == Text(StringValue(s, u, i, v).0);
    StringReload(s, u, v, i);
    StringSurvives(s, u, v, i);
  }

  lemma StringIs(s: Setup, u: Entries, v: seq<Value>, i: nat)
    requires Known(s) && KnownEntries(s, u) && |v| == |s.syms| && i < |s.syms| && s.syms[i].stype.Str? && s.syms[i].special.None?
    ensures ValueOf(s, u, i, v) == (Text(StringValue(s, u, i, v).0), StringValue(s, u, i, v).1)
  {
  }

  lemma StringReload(s: Setup, u: Entries, v: seq<Value>, i: nat)
    requires Known(s) && KnownEntries(s, u) && |v| == |s.syms| && i < |s.syms| && s.syms[i].stype.Str? && s.syms[i].special.None?
    requires ValueOf(s, u, i, v) == (v[i], StringValue(s, u, i, v).1) && v[i] == Text(StringValue(s, u, i, v).0)
    requires Visibility(s, i, v) != NO ==> TextBack(s, s.syms[i], v[i]) == Some(v[i].s)
    ensures StringValue(s, Reloaded(s, u, v), i, v).0 == v[i].s
  {
    hide ValueOf, TextBack, Visibility, Known;
    if Visibility(s, i, v) != NO {
      assert Reloaded(s, u, v).vals[i] == Some(v[i].s);
    }
  }

  lemma StringSurvives(s: Setup, u: Entries, v: seq<Value>, i: nat)
    requires Known(s) && KnownEntries(s, u) && |v| == |s.syms| && i < |s.syms| && s.syms[i].stype.Str?
    requires Readable(s, u, v, i) && !BrokenString(s, v, i)
    ensures Survives(s, u, i, v)
  {
  }

  lemma NumberBack(s: Setup, u: Entries, v: seq<Value>, i: nat)
    requires Known(s) && KnownEntries(s, u) && Solves(s, u, v) && Plain(s, v) && i < |s.syms| && Readable(s, u, v, i)
    requires (s.syms[i].stype.Int? || s.syms[i].stype.Hex?) && s.syms[i].special.None?
    ensures ValueOf(s, Reloaded(s, u, v), i, v).0 == v[i] <==> Survives(s, u, i, v)
  {
    assert KnownSym(s, i);
    assert v[i] == ValueOf(s, u, i, v).0;
    NumberIs(s, u, v, i);
    NumberIs(s, Reloaded(s, u, v), v, i);
    hide *;
    NumberReload(s, u, v, i);
    NumberSurvives(s, u, v, i);
  }

  lemma NumberIs(s: Setup, u: Entries, v: seq<Value>, i: nat)
    requires Known(s) && KnownEntries(s, u) && |v| == |s.syms| && i < |s.syms| && s.syms[i].special.None?
    requires s.syms[i].stype.Int? || s.syms[i].stype.Hex?
    ensures ValueOf(s, u, i, v) == (Text(NumberValue(s, u, i, v).0), NumberValue(s, u, i, v).1)
  {
  }

  lemma NumberReload(s: Setup, u: Entries, v: seq<Value>, i: nat)
    requires Known(s) && KnownEntries(s, u) && |v| == |s.syms| && i < |s.syms| && s.syms[i].special.None?
    requires s.syms[i].stype.Int? || s.syms[i].stype.Hex?
    requires ValueOf(s, u, i, v) == (Text(NumberValue(s, u, i, v).0), NumberValue(s, u, i, v).1)
    ensures NumberValue(s, Reloaded(s, u, v), i, v).0 ==
            if Visibility(s, i, v) != NO && ReadInRange(s, i, v) then TextBack(s, s.syms[i], v[i]).value
            else NumberDefault(s, i, v).0
  {
    hide ValueOf, TextBack, Visibility, Known, InRange, FirstDefault, FirstRange, BoundValue, Clamped;
    assert Visibility(s, i, v) != NO ==> NumberValue(s, u, i, v).1;
  }

  lemma NumberSurvives(s: Setup, u: Entries, v: seq<Value>, i: nat)
    requires Known(s) && KnownEntries(s, u) && |v| == |s.syms| && i < |s.syms| && s.syms[i].special.None? && Readable(s, u, v, i)
    requires s.syms[i].stype.Int? || s.syms[i].stype.Hex?
    requires v[i] == Text(NumberValue(s, u, i, v).0)
    ensures Survives(s, u, i, v) <==>
            v[i].s == if Visibility(s, i, v) != NO && ReadInRange(s, i, v) then TextBack(s, s.syms[i], v[i]).value
                      else NumberDefault(s, i, v).0
  {
    hide TextBack, Visibility, Known, InRange, Readable, NumberDefault;
  }

  lemma SymbolBack(s: Setup, u: Entries, v: seq<Value>, i: nat)
    requires Known(s) && KnownEntries(s, u) && Solves(s, u, v) && Plain(s, v) && i < |s.syms| && Readable(s, u, v, i)
    requires !BrokenString(s, v, i)
    ensures ValueOf(s, Reloaded(s, u, v), i, v).0 == v[i] <==> Survives(s, u, i, v)
    ensures s.syms[i].stype.Boolean? || s.syms[i].stype.Str? ==> Survives(s, u, i, v)
  {
    assert KnownSym(s, i);
    assert v[i] == ValueOf(s, u, i, v).0;
    if s.syms[i].special.None? {
      match s.syms[i].stype
      case Boolean => TruthBack(s, u, v, i);
      case ThreeState => TruthBack(s, u, v, i);
      case Str => StringBack(s, u, v, i);
      case Int => NumberBack(s, u, v, i);
      case Hex => NumberBack(s, u, v, i);
      case Unknown =>
    }
  }

  /** The line of a bool or tristate symbol, or of a string without a line break, can always be
      read. */
  lemma AlwaysReadable(s: Setup, u: Entries, v: seq<Value>, i: nat)
    requires Known(s) && KnownEntries(s, u) && Solves(s, u, v) && Plain(s, v) && i < |s.syms| && TidySym(s, u, v, i)
    requires IsTri(s.syms[i].stype) || (s.syms[i].stype.Str? && !BrokenString(s, v, i))
    ensures Readable(s, u, v, i)
  {
    assert v[i] == ValueOf(s, u, i, v).0;
    if ValueOf(s, u, i, v).1 {
      SymbolBlock(s, u, v, i);
      LineBack(s, v, i);
    }
  }

  lemma ReloadedBack(s: Setup, u: Entries, rank: Ranks, v: seq<Value>)
    requires Known(s) && Ranked(s, rank) && KnownEntries(s, u) && Solves(s, u, v) && Plain(s, v)
    requires forall i :: 0 <= i < |s.syms| ==> Readable(s, u, v, i) && !BrokenString(s, v, i)
    ensures FromScratch(s, Reloaded(s, u, v), rank) == v <==> forall i :: 0 <= i < |s.syms| ==> Survives(s, u, i, v)
  {
    var e := Reloaded(s, u, v);
    var w := FromScratch(s, e, rank);
    FromScratchSolves(s, e, rank);
    hide Readable, Survives, BrokenString;
    forall i | 0 <= i < |s.syms| ensures ValueOf(s, e, i, v).0 == v[i] <==> Survives(s, u, i, v) {
      SymbolBack(s, u, v, i);
    }
    if forall i :: 0 <= i < |s.syms| ==> Survives(s, u, i, v) {
      assert Solves(s, e, v);
      SolutionUnique(s, e, rank, v, w);
    }
  }
}
