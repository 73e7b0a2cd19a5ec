/** conf_write_defconfig and conf_read_simple on a live evaluator. */
module DefconfigFiles {
  import opened Tristates
  import opened Expressions
  import opened Semantics
  import opened Ranking
  import opened Defconfig
  import opened Evaluator

  /** The value of a default, as a truth value or a text. */
  method ReadDefault(e: Evaluator, i: nat, x: Expr) returns (val: Tristate, text: string)
    requires e.ranked && i < |e.table| && e.Ready(e.cells, {}, e.Rk(i)) && e.AllReadable(e.cells, Symbols(x), e.Rk(i), e.goal)
    requires x.Sym? && x.s.Config? ==> e.Rk(x.s.id) < e.Rk(i)
    modifies e`cells
    ensures e.Stepped(old(e.cells), e.cells, {}, e.Rk(i), {})
    ensures IsTri(e.table[i].stype) ==> val == Eval(x, e.goal)
    ensures !IsTri(e.table[i].stype) ==> text == if x.Sym? then RawText(x.s, e.goal) else ""
  {
    hide Progress, NeedSet, InvalidSet;
    val, text := NO, "";
    if IsTri(e.table[i].stype) {
      val := e.EvalExpr(x, {}, e.Rk(i), e.goal);
    } else if x.Sym? {
      text := e.RawSymbolText(x.s, {}, e.Rk(i));
    } else {
      e.Unchanged(e.cells, {}, e.Rk(i), {});
    }
  }

  /** The default property, its value as a truth value or a text. */
  method DefaultOf(e: Evaluator, i: nat) returns (val: Tristate, text: string)
    requires e.Valid() && e.ranked && i < |e.table| && e.table[i].role.Plain?
    modifies e`cells
    ensures e.Stepped(old(e.cells), e.cells, {}, e.Rk(i), {})
    ensures IsTri(e.table[i].stype) ==> val == DefaultTri(e.table[i], e.goal)
    ensures IsText(e.table[i].stype) ==> text == DefaultText(e.table[i], e.goal)
  {
    ghost var s0 := e.cells;
    var d := e.table[i];
    assert KnownDecl(e.table, i);
    e.OwnReadable(e.cells, i, {});
    hide Visibility, RevDep, TextValue, TriValue, Writes, Progress, NeedSet, InvalidSet, Evaluator.Inv, Evaluator.KeptBut, Eval;
    var p := e.DefaultProp(i, {}, e.Rk(i));
    ghost var s1 := e.cells;
    val, text := NO, "";
    if p.None? {
      return;
    }
    e.StillReadable(s0, s1, DeclSymbols(d), {}, e.Rk(i), e.goal, {});
    e.DefaultMentions(d, p.value.0);
    val, text := ReadDefault(e, i, p.value.0);
    e.Then(s0, s1, e.cells, {}, e.Rk(i), {}, {}, {});
    if IsTri(d.stype) {
      val := Min(val, p.value.1);
    }
  }

  /** sym_get_string_default of a symbol that has been evaluated */
  method GetStringDefault(e: Evaluator, i: nat) returns (text: string)
    requires e.Valid() && e.ranked && i < |e.table| && e.table[i].role.Plain? && e.cells[i].valid
    modifies e`cells
    ensures e.Valid() && text == StringDefault(e.table[i], e.goal)
    ensures forall j :: 0 <= j < |e.table| && old(e.cells[j].valid) ==> e.cells[j] == old(e.cells[j])
  {
    ghost var s0 := e.cells;
    var d, rev := e.table[i], e.cells[i].revTri;
    assert e.Done(i, e.cells[i]);
    var val, raw := DefaultOf(e, i);
    ValidKept(e, s0, e.cells, i);
    if IsTri(d.stype) {
      val := Max(val, rev);
      if val == MOD && (e.modules == NO || d.stype.Boolean?) {
        val := YES;
      }
      text := if val == NO then "n" else if val == MOD then "m" else "y";
    } else {
      text := if IsText(d.stype) then raw else "";
    }
  }

  lemma ValidKept(e: Evaluator, s0: Cells, s1: Cells, i: nat)
    requires e.ranked && i < |e.table| && e.Ready(s0, {}, e.Rk(i)) && e.Stepped(s0, s1, {}, e.Rk(i), {})
    ensures forall j :: 0 <= j < |e.table| && s0[j].valid ==> s1[j] == s0[j]
  {
    forall j | 0 <= j < |e.table| && s0[j].valid ensures s1[j] == s0[j] {
      assert KnownDecl(e.table, j);
      assert e.Fixed(s0, j, e.Rk(i));
    }
  }

  /** The body of the loop of conf_write_defconfig, for a symbol that has not been written. */
  method SaveSymbol(e: Evaluator, i: nat) returns (lines: seq<Line>)
    requires e.Valid() && e.ranked && Simple(e.table) && i < |e.table|
    modifies e`cells
    ensures e.Valid() && lines == LinesOf(e.table, e.goal, i)
  {
    assert SimpleDecl(e.table[i]);
    var d := e.table[i];
    e.Calc(i);
    var cell := e.cells[i];
    assert e.Done(i, cell) && SolvedAt(e.table, e.users, i, e.goal);
    lines := [];
    if (IsTri(d.stype) || IsText(d.stype)) && cell.write && cell.visible > cell.revTri {
      var text := if IsTri(d.stype) then TriText(cell.tri, e.modules) else cell.text;
      var usual := GetStringDefault(e, i);
      if text != usual {
        lines := [LineFor(d, i, text)];
      }
    }
  }

  /** conf_write_defconfig; `order` lists the symbols of the menus as the walk meets them. */
  method WriteDefconfig(e: Evaluator, order: seq<nat>) returns (lines: seq<Line>)
    requires e.Valid() && e.ranked && Simple(e.table) && forall k :: 0 <= k < |order| ==> order[k] < |e.table|
    modifies e
    ensures e.Valid() && e.users == old(e.Entered()) && KnownUsers(e.table, e.users)
    ensures e.goal == Meaning(e.table, e.users, e.rank, e.modules)
    ensures lines == Lines(e.table, e.goal, order, {})
    ensures forall i :: 0 <= i < |e.table| ==> CountFor(lines, i) == if i in order && Needed(e.table, i, e.goal) then 1 else 0
  {
    e.ClearAllValid();
    lines := SaveSymbols(e, order);
    SolutionExists(e.table, e.users, e.rank, e.modules);
    forall i | 0 <= i < |e.table| ensures CountFor(lines, i) == if i in order && Needed(e.table, i, e.goal) then 1 else 0 {
      LinesAreNeeded(e.table, e.users, e.goal, order, {}, i);
    }
  }

  method SaveSymbols(e: Evaluator, order: seq<nat>) returns (lines: seq<Line>)
    requires e.Valid() && e.ranked && Simple(e.table) && forall k :: 0 <= k < |order| ==> order[k] < |e.table|
    modifies e`cells
    ensures e.Valid() && lines == Lines(e.table, e.goal, order, {})
  {
    hide *;
    var done: set<nat> := {};
    lines := [];
    assert order[0..] == order;
    for k := 0 to |order|
      invariant e.Valid() && Lines(e.table, e.goal, order, {}) == lines + Lines(e.table, e.goal, order[k..], done)
    {
      LinesStep(e.table, e.goal, order[k..], done);
      assert order[k..][1..] == order[k + 1..];
      if order[k] !in done {
        var line := SaveSymbol(e, order[k]);
        lines := lines + line;
      }
      done := done + {order[k]};
    }
    NoLines(e.table, e.goal, order[|order|..], done);
  }

  // ---------------------------------------------------------------- reading

  ghost predicate InputIs(cs: Cells, us: Users) {
    |cs| == |us| && forall i :: 0 <= i < |cs| ==> !cs[i].valid && !cs[i].need && cs[i].user == us[i]
  }

  /** The loop of conf_read_simple over the lines. */
  method ReadLines(e: Evaluator, lines: seq<Line>, ghost start: Users) returns (ghost us: Users)
    requires e.Shape(e.cells) && InputIs(e.cells, start) && (forall j :: 0 <= j < |start| ==> start[j].pick.None?)
    requires forall k :: 0 <= k < |lines| ==> lines[k].id < |e.table|
    modifies e`cells
    ensures e.Shape(e.cells) && InputIs(e.cells, us) && (forall j :: 0 <= j < |us| ==> us[j].pick.None?)
    ensures |start| == |e.table| && us == ReadAll(e.table, start, lines)
  {
    us := start;
    for k := 0 to |lines|
      invariant e.Shape(e.cells) && InputIs(e.cells, us) && (forall j :: 0 <= j < |us| ==> us[j].pick.None?)
      invariant ReadAll(e.table, start, lines) == ReadAll(e.table, us, lines[k..])
    {
      var i := lines[k].id;
      assert e.KnownCell(i, e.cells[i]);
      us := us[i := Understood(e.table[i], us[i], lines[k])];
      e.cells := e.cells[i := e.cells[i].(user := Understood(e.table[i], e.cells[i].user, lines[k]))];
      assert lines[k..][1..] == lines[k + 1..];
    }
  }

  /** conf_read_simple into the evaluator: all input is forgotten, then the lines are read. */
  method ReadSimple(e: Evaluator, lines: seq<Line>)
    requires e.Valid() && e.ranked && Simple(e.table) && forall k :: 0 <= k < |lines| ==> lines[k].id < |e.table|
    modifies e
    ensures e.Valid() && e.users == ReadAll(e.table, seq(|e.table|, i => EMPTY), lines) && KnownUsers(e.table, e.users)
    ensures e.goal == Meaning(e.table, e.users, e.rank, e.modules)
    ensures forall i :: 0 <= i < |e.table| ==> !e.cells[i].valid
  {
    ghost var n := |e.table|;
    for i := 0 to |e.cells|
      invariant |e.cells| == n && e.Shape(e.cells)
      invariant forall j :: 0 <= j < n ==> !e.cells[j].need && (j < i ==> !e.cells[j].valid && e.cells[j].user == EMPTY)
    {
      assert e.KnownCell(i, e.cells[i]);
      e.cells := e.cells[i := e.cells[i].(valid := false, user := EMPTY)];
    }
    ghost var us := ReadLines(e, lines, seq(n, i => EMPTY));
    e.users := us;
    assert KnownUsers(e.table, us);
    SolutionExists(e.table, us, e.rank, e.modules);
    e.goal := Meaning(e.table, us, e.rank, e.modules);
  }

  /** Saving a minimal configuration and loading it again: every symbol has its value back when it
      is calculated next, exactly if all of them are restorable. */
  method SaveAndRestore(e: Evaluator, order: seq<nat>) returns (ghost before: Assignment, ghost input: Users)
    requires e.Valid() && e.ranked && Simple(e.table) && (forall k :: 0 <= k < |order| ==> order[k] < |e.table|)
    requires forall i :: 0 <= i < |e.table| ==> i in order
    modifies e
    ensures e.Valid() && input == old(e.Entered()) && KnownUsers(e.table, input)
    ensures before == Meaning(e.table, input, e.rank, e.modules)
    ensures forall k :: 0 <= k < |order| ==> e.cells[order[k]].valid && e.Done(order[k], e.cells[order[k]])
    ensures (forall i :: 0 <= i < |e.table| ==> SameAt(SymbolAt(e.table, i), before, e.goal)) <==>
            (forall i :: 0 <= i < |e.table| ==> Restorable(e.table[i], input[i], before))
  {
    var lines := WriteDefconfig(e, order);
    before, input := e.goal, e.users;
    SolutionExists(e.table, input, e.rank, e.modules);
    LinesUnderstood(e.table, input, before, order, {}, seq(|e.table|, i => EMPTY));
    ReadSimple(e, lines);
    assert e.users == UsersBack(e.table, before);
    DefconfigRoundTrip(e.table, input, e.rank, e.modules);
    e.CalcAll(order);
  }
}
