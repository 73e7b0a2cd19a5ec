/** The memoised evaluator of symbol.c. One object holds what the C code keeps in all its symbol
    structures. The evaluator terminates on every table; on a table without recursive
    dependencies every valid symbol has the value of the recursive semantics. */
module Evaluator {
  import opened Tristates
  import opened RankNumbers
  import opened Expressions
  import opened Numbers
  import opened Semantics
  import opened Ranking
  import opened Settings

  /** The mutable part of a symbol: its flags, curr, visible, dir_dep.tri, rev_dep.tri and
      def[S_DEF_USER]. For a choice curr.val is the selected member, `pick`. */
  datatype Cell = Cell(valid: bool, need: bool, write: bool, tri: Tristate, text: string, pick: Option<nat>,
                       visible: Tristate, dirTri: Tristate, revTri: Tristate, user: User)

  type Cells = seq<Cell>

  /** Symbols with SYMBOL_NEED_SET_CHOICE_VALUES. */
  ghost function NeedSet(cs: Cells): set<int> {
    set i | 0 <= i < |cs| && cs[i].need
  }

  /** Symbols without SYMBOL_VALID. */
  ghost function InvalidSet(cs: Cells): set<int> {
    set i | 0 <= i < |cs| && !cs[i].valid
  }

  /** What bounds the recursion on any table: the only step that makes symbols invalid again
      uses up a NEED flag. */
  ghost predicate Progress(before: Cells, after: Cells) {
    || NeedSet(after) < NeedSet(before)
    || (NeedSet(after) == NeedSet(before) && InvalidSet(after) <= InvalidSet(before))
  }

  lemma SameFlags(cs: Cells, i: nat, c: Cell)
    requires i < |cs| && c.valid == cs[i].valid && c.need == cs[i].need
    ensures NeedSet(cs[i := c]) == NeedSet(cs) && InvalidSet(cs[i := c]) == InvalidSet(cs)
  {
  }

  lemma NowValid(cs: Cells, i: nat)
    requires i < |cs|
    ensures NeedSet(cs[i := cs[i].(valid := true)]) == NeedSet(cs)
    ensures InvalidSet(cs[i := cs[i].(valid := true)]) == InvalidSet(cs) - {i}
  {
  }

  class Evaluator {
    const table: Table
    /** modules_val and the value of modules_sym. */
    const modules: Tristate
    var cells: Cells

    /** What the user had entered when the last round of evaluation started. */
    ghost var users: Users
    /** The solution of the table for that input. */
    ghost var goal: Assignment
    ghost const rank: Ranks
    /** Whether the table is free of recursive dependencies, with `rank` to show it. */
    ghost const ranked: bool

    ghost function Rk(i: nat): nat {
      if i < |rank| then rank[i] else 0
    }

    /** Holds on any table. */
    ghost predicate Shape(cs: Cells) {
      WellFormed(table) && |cs| == |table| && forall i :: 0 <= i < |table| ==> KnownCell(i, cs[i])
    }

    ghost predicate KnownCell(i: nat, c: Cell)
      requires i < |table|
    {
      && (c.need ==> !table[i].role.Plain?)
      && (table[i].role.Member? ==> c.revTri == NO)
      && (c.user.pick.Some? ==> table[i].role.Choice? && c.user.pick.value in table[i].role.members)
    }

    /** The cell carries the values of the solution. */
    ghost predicate Done(i: nat, c: Cell)
      requires WellFormed(table) && KnownUsers(table, users) && i < |table|
      reads this`users, this`goal
    {
      var d := table[i];
      if IsTri(d.stype) then
        && c.tri == TriValue(table, users, i, goal) && c.text == "n"
        && c.visible == Visibility(d, goal) && c.revTri == RevDep(d, goal)
        && (d.role.Choice? ==> c.pick == Selected(table, users, i, goal))
        && (!d.role.Member? ==> c.write == Writes(d, goal))
      else
        && c.tri == NO && c.text == TextValue(d, users[i], goal)
        && (IsText(d.stype) ==>
              c.visible == Visibility(d, goal) && c.revTri == RevDep(d, goal) && c.write == Writes(d, goal))
    }

    ghost predicate SameInput(i: nat, c: Cell)
      requires |users| == |table| && i < |table|
      reads this`users
    {
      var u := users[i];
      && c.user.tri == u.tri && c.user.text == u.text && c.user.pick == u.pick
      && (!c.valid || !table[i].role.Choice? ==> c.user.isSet == u.isSet)
    }

    /** Holds on a table without recursive dependencies, while the symbols in `active` are being
        evaluated: they are valid already, but do not have their values yet. */
    ghost predicate Inv(cs: Cells, active: set<nat>)
      requires Shape(cs)
      reads this`users, this`goal
    {
      && Ranked(table, rank) && KnownUsers(table, users)
      && goal.modules == modules && Solution(table, users, goal)
      && (forall i :: 0 <= i < |table| ==> !cs[i].need && (!cs[i].valid ==> SameInput(i, cs[i])))
      && (forall i :: 0 <= i < |table| && cs[i].valid && i !in active ==>
            Done(i, cs[i]) && (table[i].role.Member? ==> Settled(cs, i, active)))
    }

    /** The choice of the member `i` has been evaluated. */
    ghost predicate Settled(cs: Cells, i: nat, active: set<nat>)
      requires WellFormed(table) && |cs| == |table| && i < |table| && table[i].role.Member?
    {
      assert KnownDecl(table, i);
      cs[table[i].role.choice].valid && table[i].role.choice !in active
    }

    ghost predicate Ready(cs: Cells, active: set<nat>, r: nat)
      reads this`users, this`goal
    {
      Shape(cs) && (ranked ==> Inv(cs, active) && forall a :: a in active ==> r <= Rk(a))
    }

    /** A cell that an evaluation of symbols ranked below `r` leaves alone: the symbol is valid or
        not below, and so is its choice if it is a member of one. */
    ghost predicate Fixed(cs: Cells, j: nat, r: nat)
      requires WellFormed(table) && |cs| == |table| && j < |table|
    {
      assert KnownDecl(table, j);
      && (cs[j].valid || Rk(j) >= r)
      && (table[j].role.Member? ==> cs[table[j].role.choice].valid || Rk(table[j].role.choice) >= r)
    }

    ghost predicate SameCore(a: Cell, b: Cell) {
      && a.valid == b.valid && a.need == b.need && a.tri == b.tri && a.text == b.text && a.pick == b.pick
      && a.revTri == b.revTri && a.user == b.user
    }

    /** Evaluation changes no user input, except that a choice may lose SYMBOL_DEF_USER. */
    ghost predicate UserKept(j: nat, a: Cell, b: Cell)
      requires j < |table|
    {
      b.user == a.user || (table[j].role.Choice? && b.user == a.user.(isSet := false))
    }

    /** What an evaluation below rank `r` leaves of the cells other than those in `xs`. */
    ghost predicate KeptBut(before: Cells, after: Cells, r: nat, xs: set<nat>)
      requires WellFormed(table) && |before| == |table| && |after| == |table|
    {
      && (forall j :: 0 <= j < |table| ==> UserKept(j, before[j], after[j]))
      && (forall j :: 0 <= j < |table| && j !in xs ==>
            && (before[j].valid ==> SameCore(before[j], after[j]))
            && (Fixed(before, j, r) ==> after[j] == before[j]))
    }

    ghost predicate Stepped(before: Cells, after: Cells, active: set<nat>, r: nat, xs: set<nat>)
      requires WellFormed(table) && |before| == |table|
      reads this`users, this`goal
    {
      && Ready(after, active, r) && Progress(before, after)
      && (ranked ==> KeptBut(before, after, r, xs))
    }

    /** Two steps in a row. */
    lemma Then(s0: Cells, s1: Cells, s2: Cells, active: set<nat>, r: nat, xs0: set<nat>, xs1: set<nat>, xs: set<nat>)
      requires WellFormed(table) && |s0| == |s1| == |table| && xs0 <= xs && xs1 <= xs
      requires Stepped(s0, s1, active, r, xs0) && Stepped(s1, s2, active, r, xs1)
      requires ranked ==> forall x :: x in xs && x < |table| && s0[x].valid ==> s1[x].valid
      ensures Stepped(s0, s2, active, r, xs)
    {
      if ranked {
        forall j | 0 <= j < |table| && j !in xs
          ensures s0[j].valid ==> SameCore(s0[j], s2[j])
          ensures Fixed(s0, j, r) ==> s2[j] == s0[j]
        {
          assert KnownDecl(table, j);
        }
        forall j | 0 <= j < |table| ensures UserKept(j, s0[j], s2[j]) {
          assert UserKept(j, s0[j], s1[j]) && UserKept(j, s1[j], s2[j]);
        }
      }
    }

    lemma Same(s0: Cells, s1: Cells, active: set<nat>, r: nat, j: nat)
      requires WellFormed(table) && |s0| == |table| && j < |table|
      requires Stepped(s0, s1, active, r, {})
      ensures ranked && s0[j].valid ==> SameCore(s0[j], s1[j])
      ensures ranked && Fixed(s0, j, r) ==> s0[j] == s1[j]
    {
    }

    // ---------------------------------------------------------------- reading values

    /** The value of `s` in `w` is what an evaluation below rank `r` will find. */
    ghost predicate Readable(cs: Cells, s: Symbol, r: nat, w: Assignment)
      requires |cs| == |table|
      reads this`goal
    {
      s.Config? ==>
        && KnownSymbol(table, s)
        && ((Rk(s.id) < r && SameAt(s, goal, w)) || (s.IsTristateLike() && cs[s.id].valid && cs[s.id].tri == w.tri(s)))
    }

    ghost predicate AllReadable(cs: Cells, ss: set<Symbol>, r: nat, w: Assignment)
      requires |cs| == |table|
      reads this`goal
    {
      && (forall s :: s in ss ==> KnownSymbol(table, s))
      && (ranked ==> w.modules == modules && forall s :: s in ss ==> Readable(cs, s, r, w))
    }

    ghost predicate AllValid(cs: Cells, ss: set<Symbol>) {
      forall s :: s in ss && s.Config? && s.id < |cs| ==> cs[s.id].valid
    }

    /** Later steps keep earlier symbols readable. */
    lemma StillReadable(before: Cells, after: Cells, ss: set<Symbol>, active: set<nat>, r: nat, w: Assignment, xs: set<nat>)
      requires WellFormed(table) && |before| == |after| == |table|
      requires Stepped(before, after, active, r, xs)
      requires AllReadable(before, ss, r, w)
      requires ranked ==> forall x :: x in xs && x < |table| && before[x].valid ==> after[x].valid && before[x].tri == after[x].tri
      ensures AllReadable(after, ss, r, w)
    {
    }

    /** The cell of a valid, readable symbol gives its value. */
    lemma ValueRead(before: Cells, after: Cells, s: Symbol, active: set<nat>, r: nat, w: Assignment)
      requires Ready(after, active, r) && ranked && |before| == |table| && KeptBut(before, after, r, {})
      requires s.Config? && KnownSymbol(table, s) && w.modules == modules && after[s.id].valid
      requires Readable(before, s, r, w)
      ensures after[s.id].tri == TriOf(s, w)
      ensures (if s.IsTristateLike() then TriText(after[s.id].tri, modules) else after[s.id].text) == StrOf(s, w)
      ensures Rk(s.id) < r && SameAt(s, goal, w) ==> after[s.id].text == RawText(s, w)
    {
      assert s == SymbolAt(table, s.id);
      if Rk(s.id) < r && SameAt(s, goal, w) {
        assert s.id !in active;
        assert Done(s.id, after[s.id]) && SolvedAt(table, users, s.id, goal);
      }
    }

    // ---------------------------------------------------------------- expressions

    /** expr_calc_value. Both operands of AND and OR are evaluated, whatever the first gives. */
    method EvalExpr(e: Expr, ghost active: set<nat>, ghost r: nat, ghost w: Assignment) returns (tri: Tristate)
      requires Ready(cells, active, r) && AllReadable(cells, Symbols(e), r, w)
      modifies this`cells
      ensures Stepped(old(cells), cells, active, r, {})
      ensures ranked ==> tri == Eval(e, w) && AllValid(cells, Symbols(e))
      decreases NeedSet(cells), InvalidSet(cells), 0, 2 + Size(e)
    {
      hide Inv, NeedSet, InvalidSet;
      ghost var s0 := cells;
      match e
      case Sym(s) =>
        tri := SymbolTri(s, active, r, w);
      case Not(x) =>
        var t := EvalExpr(x, active, r, w);
        tri := Negate(t);
      case And(a, b) =>
        var t1 := EvalExpr(a, active, r, w);
        ghost var s1 := cells;
        StillReadable(s0, s1, Symbols(e), active, r, w, {});
        var t2 := EvalExpr(b, active, r, w);
        Then(s0, s1, cells, active, r, {}, {}, {});
        tri := Min(t1, t2);
      case Or(a, b) =>
        var t1 := EvalExpr(a, active, r, w);
        ghost var s1 := cells;
        StillReadable(s0, s1, Symbols(e), active, r, w, {});
        var t2 := EvalExpr(b, active, r, w);
        Then(s0, s1, cells, active, r, {}, {}, {});
        tri := Max(t1, t2);
      case Equal(a, b) =>
        var same := SameText(a, b, active, r, w);
        tri := FromBool(same);
      case Unequal(a, b) =>
        var same := SameText(a, b, active, r, w);
        tri := FromBool(!same);
    }

    method SameText(a: Symbol, b: Symbol, ghost active: set<nat>, ghost r: nat, ghost w: Assignment) returns (same: bool)
      requires Ready(cells, active, r) && AllReadable(cells, {a, b}, r, w)
      modifies this`cells
      ensures Stepped(old(cells), cells, active, r, {})
      ensures ranked ==> same == (StrOf(a, w) == StrOf(b, w)) && AllValid(cells, {a, b})
      decreases NeedSet(cells), InvalidSet(cells), 0, 2
    {
      hide Inv, NeedSet, InvalidSet;
      ghost var s0 := cells;
      var t1 := SymbolText(a, active, r, w);
      ghost var s1 := cells;
      StillReadable(s0, s1, {a, b}, active, r, w, {});
      var t2 := SymbolText(b, active, r, w);
      Then(s0, s1, cells, active, r, {}, {}, {});
      same := t1 == t2;
    }

    method SymbolTri(s: Symbol, ghost active: set<nat>, ghost r: nat, ghost w: Assignment) returns (tri: Tristate)
      requires Ready(cells, active, r) && AllReadable(cells, {s}, r, w)
      modifies this`cells
      ensures Stepped(old(cells), cells, active, r, {})
      ensures ranked ==> tri == TriOf(s, w) && AllValid(cells, {s})
      decreases NeedSet(cells), InvalidSet(cells), 0, 1
    {
      ghost var s0 := cells;
      assert s in {s};
      if s.Constant? {
        tri := if s == Y then YES else if s == M then MOD else NO;
      } else {
        CalcValue(s.id, active, r);
        if ranked { ValueRead(s0, cells, s, active, r, w); }
        tri := cells[s.id].tri;
      }
    }

    /** sym_get_string_value */
    method SymbolText(s: Symbol, ghost active: set<nat>, ghost r: nat, ghost w: Assignment) returns (text: string)
      requires Ready(cells, active, r) && AllReadable(cells, {s}, r, w)
      modifies this`cells
      ensures Stepped(old(cells), cells, active, r, {})
      ensures ranked ==> text == StrOf(s, w) && AllValid(cells, {s})
      decreases NeedSet(cells), InvalidSet(cells), 0, 1
    {
      ghost var s0 := cells;
      assert s in {s};
      if s.Constant? {
        text := s.text;
      } else {
        CalcValue(s.id, active, r);
        if ranked { ValueRead(s0, cells, s, active, r, w); }
        text := if IsTri(table[s.id].stype) then TriText(cells[s.id].tri, modules) else cells[s.id].text;
      }
    }

    /** A missing condition holds. */
    method EvalCond(e: Option<Expr>, ghost active: set<nat>, ghost r: nat, ghost w: Assignment) returns (tri: Tristate)
      requires Ready(cells, active, r) && AllReadable(cells, OptSymbols(e), r, w)
      modifies this`cells
      ensures Stepped(old(cells), cells, active, r, {})
      ensures ranked ==> tri == EvalOpt(e, w) && AllValid(cells, OptSymbols(e))
      decreases NeedSet(cells), InvalidSet(cells), 1, 0
    {
      match e
      case None => tri := YES;
      case Some(x) => tri := EvalExpr(x, active, r, w);
    }

    // ---------------------------------------------------------------- visibility

    /** Overwriting the cell of a symbol under evaluation. */
    lemma Overwritten(before: Cells, i: nat, c: Cell, active: set<nat>, r: nat)
      requires Ready(before, active, r) && i < |table| && KnownCell(i, c)
      requires c.valid == before[i].valid && c.need == before[i].need
      requires ranked ==> (!before[i].valid || i in active) && UserKept(i, before[i], c) && (c.user == before[i].user || SameInput(i, c))
      ensures Stepped(before, before[i := c], active, r, {i})
    {
      SameFlags(before, i, c);
      var after := before[i := c];
      if ranked {
        forall j | 0 <= j < |table| && after[j].valid && j !in active
          ensures Done(j, after[j]) && (table[j].role.Member? ==> Settled(after, j, active))
        {
          assert before[j].valid;
          assert KnownDecl(table, j);
        }
      }
    }

    /** The loop over the prompts in sym_calc_visibility. It evaluates the choice of a member. */
    method CalcPrompts(i: nat, ghost active: set<nat>, ghost r: nat, ghost w: Assignment) returns (tri: Tristate)
      requires i < |table| && Ready(cells, active, r) && AllReadable(cells, PromptSymbols(table[i]), r, w)
      modifies this`cells
      ensures Stepped(old(cells), cells, active, r, {})
      ensures ranked ==> tri == PromptValue(table[i].prompts, w, 0)
      ensures ranked ==> ChoiceValid(cells, i)
      decreases NeedSet(cells), InvalidSet(cells), 2, 0
    {
      ghost var s0 := cells;
      var prompts := table[i].prompts;
      tri := NO;
      for k := 0 to |prompts|
        invariant Stepped(s0, cells, active, r, {})
        invariant AllReadable(cells, PromptSymbols(table[i]), r, w)
        invariant ranked ==> Max(tri, PromptValue(prompts, w, k)) == PromptValue(prompts, w, 0)
        invariant ranked ==> ChoiceSeen(cells, i, k)
      {
        ghost var s1 := cells;
        assert forall s :: s in OptSymbols(prompts[k]) ==> s in PromptSymbols(table[i]);
        var t := EvalCond(prompts[k], active, r, w);
        StillReadable(s1, cells, PromptSymbols(table[i]), active, r, w, {});
        Then(s0, s1, cells, active, r, {}, {}, {});
        if ranked { ChoiceStillSeen(s1, cells, i, k, r); }
        tri := Max(tri, t);
      }
      if ranked && table[i].role.Member? {
        assert RankedDecl(table, rank, i) && KnownDecl(table, i);
      }
    }

    ghost predicate ChoiceValid(cs: Cells, i: nat)
      requires WellFormed(table) && |cs| == |table| && i < |table|
    {
      assert KnownDecl(table, i);
      table[i].role.Member? ==> cs[table[i].role.choice].valid
    }

    /** If one of the first `k` prompts of a member mentions its choice, the choice is valid. */
    ghost predicate ChoiceSeen(cs: Cells, i: nat, k: nat)
      requires WellFormed(table) && |cs| == |table| && i < |table| && k <= |table[i].prompts|
    {
      assert KnownDecl(table, i);
      table[i].role.Member? ==>
        (exists j :: 0 <= j < k && SymbolAt(table, table[i].role.choice) in OptSymbols(table[i].prompts[j])) ==>
          cs[table[i].role.choice].valid
    }

    lemma ChoiceStillSeen(before: Cells, after: Cells, i: nat, k: nat, r: nat)
      requires WellFormed(table) && |before| == |after| == |table| && i < |table| && k < |table[i].prompts|
      requires KeptBut(before, after, r, {}) && ChoiceSeen(before, i, k)
      requires AllValid(after, OptSymbols(table[i].prompts[k]))
      ensures ChoiceSeen(after, i, k + 1)
    {
      assert KnownDecl(table, i);
      if table[i].role.Member? {
        var c := table[i].role.choice;
        if SymbolAt(table, c) in OptSymbols(table[i].prompts[k]) {
          assert after[c].valid;
        }
      }
    }

    ghost function VisibilitySymbols(d: Decl): set<Symbol> {
      PromptSymbols(d) + if d.role.Member? then {} else OptSymbols(d.dirDep) + OptSymbols(d.revDep)
    }

    /** sym_calc_visibility */
    method CalcVisibility(i: nat, ghost active: set<nat>, ghost r: nat, ghost w: Assignment)
      requires i < |table| && Ready(cells, active, r)
      requires AllReadable(cells, VisibilitySymbols(table[i]), r, w)
      requires ranked ==> if cells[i].valid then i in active else table[i].role.Member? && Fixed(cells, i, r)
      modifies this`cells
      ensures Stepped(old(cells), cells, active, r, {i})
      ensures ranked ==> SameCore(old(cells[i]).(revTri := cells[i].revTri), cells[i])
      ensures ranked && !table[i].role.Member? ==> cells[i].write == old(cells[i].write)
      ensures ranked ==> cells[i].visible == Visibility(table[i], w) && cells[i].revTri == RevDep(table[i], w)
      ensures ranked && !table[i].role.Member? ==> cells[i].dirTri == DirDep(table[i], w)
      ensures ranked ==> ChoiceValid(cells, i)
      decreases NeedSet(cells), InvalidSet(cells), 3, 2
    {
      hide Inv, NeedSet, InvalidSet, KeptBut, Visibility, Eval;
      ghost var s0 := cells;
      var d := table[i];
      CalcPromptVisibility(i, active, r, w);
      if d.role.Member? {
        assert KnownDecl(table, i);
        return;
      }
      ghost var s1 := cells;
      StillReadable(s0, s1, VisibilitySymbols(d), active, r, w, {i});
      CalcDirDep(i, active, r, w);
      ghost var s2 := cells;
      StillReadable(s1, s2, VisibilitySymbols(d), active, r, w, {i});
      Then(s0, s1, s2, active, r, {i}, {i}, {i});
      CalcRevDep(i, active, r, w);
      Then(s0, s2, cells, active, r, {i}, {i}, {i});
    }

    /** The loop over the prompts, and the storing of the visibility. */
    method CalcPromptVisibility(i: nat, ghost active: set<nat>, ghost r: nat, ghost w: Assignment)
      requires i < |table| && Ready(cells, active, r) && AllReadable(cells, PromptSymbols(table[i]), r, w)
      requires ranked ==> if cells[i].valid then i in active else table[i].role.Member? && Fixed(cells, i, r)
      modifies this`cells
      ensures Stepped(old(cells), cells, active, r, {i})
      ensures ranked ==> SameCore(old(cells[i]), cells[i])
      ensures ranked && !table[i].role.Member? ==> cells[i] == old(cells[i]).(visible := cells[i].visible)
      ensures ranked ==> cells[i].visible == Visibility(table[i], w) && ChoiceValid(cells, i)
      decreases NeedSet(cells), InvalidSet(cells), 3, 1
    {
      hide Inv, NeedSet, InvalidSet;
      ghost var s0 := cells;
      var d := table[i];
      var tri := CalcPrompts(i, active, r, w);
      if tri == MOD && (!d.stype.ThreeState? || modules == NO) {
        tri := YES;
      }
      ghost var s1 := cells;
      Same(s0, s1, active, r, i);
      Overwritten(s1, i, s1[i].(visible := tri), active, r);
      cells := cells[i := cells[i].(visible := tri)];
      Then(s0, s1, cells, active, r, {}, {i}, {i});
      assert KnownDecl(table, i);
    }

    /** dir_dep.tri */
    method CalcDirDep(i: nat, ghost active: set<nat>, ghost r: nat, ghost w: Assignment)
      requires i < |table| && !table[i].role.Member? && Ready(cells, active, r)
      requires AllReadable(cells, OptSymbols(table[i].dirDep), r, w)
      requires ranked ==> cells[i].valid && i in active
      modifies this`cells
      ensures Stepped(old(cells), cells, active, r, {i})
      ensures ranked ==> cells[i] == old(cells[i]).(dirTri := DirDep(table[i], w))
      decreases NeedSet(cells), InvalidSet(cells), 3, 0
    {
      hide Inv, NeedSet, InvalidSet, Eval;
      ghost var s0 := cells;
      var tri := EvalCond(table[i].dirDep, active, r, w);
      ghost var s1 := cells;
      Overwritten(s1, i, s1[i].(dirTri := Promote(tri)), active, r);
      cells := cells[i := cells[i].(dirTri := Promote(tri))];
      Same(s0, s1, active, r, i);
      Then(s0, s1, cells, active, r, {}, {i}, {i});
    }

    /** rev_dep.tri */
    method CalcRevDep(i: nat, ghost active: set<nat>, ghost r: nat, ghost w: Assignment)
      requires i < |table| && !table[i].role.Member? && Ready(cells, active, r)
      requires AllReadable(cells, OptSymbols(table[i].revDep), r, w)
      requires ranked ==> cells[i].valid && i in active && cells[i].visible == Visibility(table[i], w)
      modifies this`cells
      ensures Stepped(old(cells), cells, active, r, {i})
      ensures ranked ==> cells[i] == old(cells[i]).(revTri := RevDep(table[i], w))
      decreases NeedSet(cells), InvalidSet(cells), 3, 0
    {
      hide Inv, NeedSet, InvalidSet, Eval;
      ghost var s0 := cells;
      var d, rev := table[i], NO;
      Unchanged(s0, active, r, {});
      if d.revDep.Some? {
        rev := EvalExpr(d.revDep.value, active, r, w);
      }
      ghost var s1 := cells;
      Same(s0, s1, active, r, i);
      if rev == MOD && TypeOf(d, cells[i].visible, modules).Boolean? {
        rev := YES;
      }
      Overwritten(s1, i, s1[i].(revTri := rev), active, r);
      cells := cells[i := cells[i].(revTri := rev)];
      Then(s0, s1, cells, active, r, {}, {i}, {i});
    }

    // ---------------------------------------------------------------- defaults

    /** sym_get_default_prop */
    method DefaultProp(i: nat, ghost active: set<nat>, ghost r: nat) returns (p: Option<(Expr, Tristate)>)
      requires i < |table| && Ready(cells, active, r) && AllReadable(cells, ConditionSymbols(table[i]), r, goal)
      modifies this`cells
      ensures Stepped(old(cells), cells, active, r, {})
      ensures ranked ==> p == FirstDefault(table[i].defaults, goal, 0)
      ensures p.Some? ==> exists j :: 0 <= j < |table[i].defaults| && p.value.0 == table[i].defaults[j].value
      decreases NeedSet(cells), InvalidSet(cells), 4, 0
    {
      hide Inv, NeedSet, InvalidSet;
      ghost var s0 := cells;
      var defaults := table[i].defaults;
      for k := 0 to |defaults|
        invariant Stepped(s0, cells, active, r, {})
        invariant AllReadable(cells, ConditionSymbols(table[i]), r, goal)
        invariant ranked ==> FirstDefault(defaults, goal, k) == FirstDefault(defaults, goal, 0)
      {
        ghost var s1 := cells;
        assert forall s :: s in OptSymbols(defaults[k].cond) ==> s in ConditionSymbols(table[i]);
        var t := EvalCond(defaults[k].cond, active, r, goal);
        StillReadable(s1, cells, ConditionSymbols(table[i]), active, r, goal, {});
        Then(s0, s1, cells, active, r, {}, {}, {});
        if t != NO {
          return Some((defaults[k].value, t));
        }
      }
      p := None;
    }

    /** sym_get_range_prop */
    method RangeProp(i: nat, ghost active: set<nat>, ghost r: nat) returns (p: Option<Range>)
      requires i < |table| && Ready(cells, active, r) && AllReadable(cells, RangeSymbols(table[i]), r, goal)
      modifies this`cells
      ensures Stepped(old(cells), cells, active, r, {})
      ensures ranked ==> p == FirstRange(table[i].ranges, goal, 0)
      ensures p.Some? ==> {p.value.low, p.value.high} <= RangeSymbols(table[i])
      decreases NeedSet(cells), InvalidSet(cells), 4, 0
    {
      hide Inv, NeedSet, InvalidSet;
      ghost var s0 := cells;
      var ranges := table[i].ranges;
      for k := 0 to |ranges|
        invariant Stepped(s0, cells, active, r, {})
        invariant AllReadable(cells, RangeSymbols(table[i]), r, goal)
        invariant ranked ==> FirstRange(ranges, goal, k) == FirstRange(ranges, goal, 0)
      {
        ghost var s1 := cells;
        RangeMentions(table[i], k);
        var t := EvalCond(ranges[k].cond, active, r, goal);
        StillReadable(s1, cells, RangeSymbols(table[i]), active, r, goal, {});
        Then(s0, s1, cells, active, r, {}, {}, {});
        if t != NO {
          return Some(ranges[k]);
        }
      }
      p := None;
    }

    lemma RangeMentions(d: Decl, k: nat)
      requires k < |d.ranges|
      ensures OptSymbols(d.ranges[k].cond) <= RangeSymbols(d)
      ensures {d.ranges[k].low, d.ranges[k].high} <= RangeSymbols(d)
    {
      forall s | s in OptSymbols(d.ranges[k].cond) + {d.ranges[k].low, d.ranges[k].high} ensures s in RangeSymbols(d) {
      }
    }

    // ---------------------------------------------------------------- bool and tristate values

    /** The symbol `i` is under evaluation, its visibility and selects are known, and its
        choice, if it is a member, has been evaluated. */
    ghost predicate Working(cs: Cells, i: nat, active: set<nat>)
      requires WellFormed(table) && |cs| == |table| && i < |table|
      reads this`users, this`goal
    {
      ranked ==>
        && |users| == |table| && goal.modules == modules && i in active && cs[i].valid && ChoiceValid(cs, i)
        && cs[i].visible == Visibility(table[i], goal) && cs[i].revTri == RevDep(table[i], goal)
        && cs[i].user.isSet == users[i].isSet && SameInput(i, cs[i])
    }

    lemma StillWorking(s0: Cells, s1: Cells, i: nat, active: set<nat>, r: nat)
      requires Shape(s0) && i < |table| && Working(s0, i, active) && Stepped(s0, s1, active, r, {})
      ensures Working(s1, i, active)
      ensures ranked ==> s1[i] == s0[i]
    {
      assert KnownDecl(table, i);
    }

    /** Setting SYMBOL_WRITE of the symbol under evaluation. */
    method MarkWritten(i: nat, ghost active: set<nat>, ghost r: nat)
      requires i < |table| && Ready(cells, active, r) && Working(cells, i, active)
      modifies this`cells
      ensures cells == old(cells)[i := old(cells[i]).(write := true)]
      ensures Stepped(old(cells), cells, active, r, {i}) && Working(cells, i, active)
    {
      assert KnownDecl(table, i);
      Overwritten(cells, i, cells[i].(write := true), active, r);
      cells := cells[i := cells[i].(write := true)];
    }

    /** The value that the defaults give to a bool or tristate symbol that is no choice. */
    method CalcDefault(i: nat, ghost active: set<nat>, ghost r: nat) returns (tri: Tristate)
      requires i < |table| && !table[i].role.Choice? && Ready(cells, active, r) && Working(cells, i, active)
      requires AllReadable(cells, ConditionSymbols(table[i]) + DefaultSymbols(table[i]), r, goal)
      modifies this`cells
      ensures Stepped(old(cells), cells, active, r, {i}) && Working(cells, i, active)
      ensures ranked ==>
        && tri == DefaultTri(table[i], goal)
        && cells[i] == old(cells[i]).(write := old(cells[i].write) || FirstDefault(table[i].defaults, goal, 0).Some?)
      decreases NeedSet(cells), InvalidSet(cells), 5, 0
    {
      hide Inv, NeedSet, InvalidSet;
      ghost var s0 := cells;
      ghost var ss := ConditionSymbols(table[i]) + DefaultSymbols(table[i]);
      var p := DefaultProp(i, active, r);
      ghost var s1 := cells;
      StillReadable(s0, s1, ss, active, r, goal, {});
      StillWorking(s0, s1, i, active, r);
      if p.None? {
        Then(s0, s1, s1, active, r, {}, {}, {i});
        return NO;
      }
      MarkWritten(i, active, r);
      ghost var s2 := cells;
      StillReadable(s1, s2, ss, active, r, goal, {i});
      DefaultMentions(table[i], p.value.0);
      var t := EvalExpr(p.value.0, active, r, goal);
      StillWorking(s2, cells, i, active, r);
      Then(s0, s1, s2, active, r, {}, {i}, {i});
      Then(s0, s2, cells, active, r, {i}, {}, {i});
      tri := Min(t, p.value.1);
    }

    lemma DefaultMentions(d: Decl, e: Expr)
      requires exists j :: 0 <= j < |d.defaults| && e == d.defaults[j].value
      ensures Symbols(e) <= DefaultSymbols(d)
    {
      var j :| 0 <= j < |d.defaults| && e == d.defaults[j].value;
      forall s | s in Symbols(e) ensures s in DefaultSymbols(d) {
        assert s in Symbols(d.defaults[j].value);
      }
    }

    /** The user's value as far as it is visible, or else the defaults'. */
    method CalcBase(i: nat, ghost active: set<nat>, ghost r: nat) returns (tri: Tristate)
      requires i < |table| && IsTri(table[i].stype) && Ready(cells, active, r) && Working(cells, i, active)
      requires !table[i].role.Choice? ==> AllReadable(cells, ConditionSymbols(table[i]) + DefaultSymbols(table[i]), r, goal)
      modifies this`cells
      ensures Stepped(old(cells), cells, active, r, {i}) && Working(cells, i, active)
      ensures ranked ==>
        && tri == (if Visibility(table[i], goal) != NO && users[i].isSet then Min(users[i].tri, Visibility(table[i], goal))
                   else DefaultTri(table[i], goal))
        && cells[i] == old(cells[i]).(write := cells[i].write)
        && (!old(cells[i].write) && !table[i].auto ==> cells[i].write == Writes(table[i], goal))
      decreases NeedSet(cells), InvalidSet(cells), 6, 0
    {
      hide Inv, NeedSet, InvalidSet;
      ghost var s0 := cells;
      var d := table[i];
      var vis := cells[i].visible;
      tri := NO;
      if vis != NO || cells[i].revTri != NO {
        MarkWritten(i, active, r);
      }
      if vis != NO && cells[i].user.isSet {
        tri := Min(cells[i].user.tri, vis);
      } else if !d.role.Choice? {
        ghost var s1 := cells;
        StillReadable(s0, s1, ConditionSymbols(d) + DefaultSymbols(d), active, r, goal, {i});
        tri := CalcDefault(i, active, r);
        Then(s0, s1, cells, active, r, {i}, {i}, {i});
      }
    }

    /** The value of a bool or tristate symbol by prompt, defaults and selects. */
    method CalcOwnTri(i: nat, ghost active: set<nat>, ghost r: nat) returns (tri: Tristate)
      requires i < |table| && IsTri(table[i].stype) && Ready(cells, active, r) && Working(cells, i, active)
      requires !table[i].role.Choice? ==> AllReadable(cells, ConditionSymbols(table[i]) + DefaultSymbols(table[i]), r, goal)
      modifies this`cells
      ensures Stepped(old(cells), cells, active, r, {i}) && Working(cells, i, active)
      ensures ranked ==>
        && tri == OwnTri(table[i], users[i], goal)
        && cells[i] == old(cells[i]).(write := cells[i].write)
        && (!old(cells[i].write) && !table[i].auto ==> cells[i].write == Writes(table[i], goal))
      decreases NeedSet(cells), InvalidSet(cells), 7, 0
    {
      hide Inv, NeedSet, InvalidSet;
      var base := CalcBase(i, active, r);
      tri := Max(base, cells[i].revTri);
      if tri == MOD && TypeOf(table[i], cells[i].visible, modules).Boolean? {
        tri := YES;
      }
    }

    /** The bool and tristate case of sym_calc_value, before the selection of a choice. A visible
        member is on exactly if its choice has selected it. */
    method CalcTri(i: nat, ghost active: set<nat>, ghost r: nat) returns (tri: Tristate)
      requires i < |table| && IsTri(table[i].stype) && Ready(cells, active, r) && Working(cells, i, active)
      requires !table[i].role.Choice? ==> AllReadable(cells, ConditionSymbols(table[i]) + DefaultSymbols(table[i]), r, goal)
      requires ranked && table[i].role.Member? ==> Settled(cells, i, active)
      modifies this`cells
      ensures Stepped(old(cells), cells, active, r, {i}) && Working(cells, i, active)
      ensures ranked ==>
        && tri == (if table[i].role.Choice? then OwnTri(table[i], users[i], goal) else TriValue(table, users, i, goal))
        && cells[i] == old(cells[i]).(write := cells[i].write)
        && (!old(cells[i].write) && !table[i].auto && !table[i].role.Member? ==> cells[i].write == Writes(table[i], goal))
      decreases NeedSet(cells), InvalidSet(cells), 8, 0
    {
      assert KnownDecl(table, i);
      if table[i].role.Member? && cells[i].visible == YES {
        var c := table[i].role.choice;
        assert KnownDecl(table, c);
        assert ranked ==> Done(c, cells[c]);
        tri := FromBool(cells[c].pick == Some(i));
      } else {
        tri := CalcOwnTri(i, active, r);
      }
    }

    // ---------------------------------------------------------------- choices

    /** The choice `c` is on and its selection is being computed. */
    ghost predicate Choosing(cs: Cells, c: nat, active: set<nat>)
      requires WellFormed(table) && |cs| == |table| && c < |table|
      reads this`users, this`goal
    {
      && table[c].role.Choice?
      && (ranked ==>
            && |users| == |table| && goal.modules == modules && c in active && cs[c].valid && cs[c].tri == YES
            && SameInput(c, cs[c]))
    }

    /** While the choice is on, the prompts of a member can be read with it on. */
    lemma MemberReadable(cs: Cells, c: nat, m: nat, active: set<nat>)
      requires Shape(cs) && c < |table| && Choosing(cs, c, active) && m in table[c].role.members
      requires Ready(cs, active, Rk(c))
      ensures m < |table| && table[m].role == Member(c) && AllReadable(cs, VisibilitySymbols(table[m]), Rk(c), With(table, c, goal))
      ensures ranked ==> !cs[m].valid || m in active
      ensures ranked ==> Fixed(cs, m, Rk(c))
    {
      assert KnownDecl(table, c);
      assert KnownDecl(table, m);
      if ranked {
        assert RankedDecl(table, rank, m);
        var w := With(table, c, goal);
        forall s | s in PromptSymbols(table[m]) ensures Readable(cs, s, Rk(c), w) {
          if s != SymbolAt(table, c) && s.Config? {
            assert s in PromptSymbols(table[m]) - {SymbolAt(table, c)};
          }
        }
      }
    }

    ghost function MemberSet(c: nat): set<nat>
      requires c < |table| && table[c].role.Choice?
    {
      set m | m in table[c].role.members
    }

    /** Of a member under evaluation, computing the selection changes no more than the visibility. */
    ghost predicate MembersKept(s0: Cells, s1: Cells, c: nat)
      requires |s0| == |s1| == |table| && c < |table| && table[c].role.Choice?
    {
      forall m :: m in MemberSet(c) && m < |table| && s0[m].valid ==> SameCore(s0[m], s1[m])
    }

    /** The visibilities of the first `k` members are known, with the choice on. */
    ghost predicate MembersSeen(cs: Cells, c: nat, k: nat)
      requires WellFormed(table) && |cs| == |table| && c < |table| && table[c].role.Choice? && k <= |table[c].role.members|
      reads this`goal
    {
      assert KnownDecl(table, c);
      forall j :: 0 <= j < k ==>
        cs[table[c].role.members[j]].visible == Visibility(table[table[c].role.members[j]], With(table, c, goal))
    }

    /** One more member: the others keep their visibilities, and the choice its cell. */
    lemma MemberSeen(s0: Cells, s1: Cells, s2: Cells, c: nat, k: nat, active: set<nat>)
      requires WellFormed(table) && |s0| == |table| && Shape(s1) && c < |table| && table[c].role.Choice?
      requires k < |table[c].role.members|
      requires Stepped(s0, s1, active, Rk(c), MemberSet(c))
      requires Choosing(s1, c, active)
      requires ranked ==> MembersSeen(s1, c, k)
      requires ranked ==> MembersKept(s0, s1, c)
      requires Stepped(s1, s2, active, Rk(c), {table[c].role.members[k]})
      requires table[c].role.members[k] < |table|
      requires ranked ==> SameCore(s1[table[c].role.members[k]], s2[table[c].role.members[k]])
      requires ranked ==> s2[table[c].role.members[k]].visible ==
                          Visibility(table[table[c].role.members[k]], With(table, c, goal))
      ensures Stepped(s0, s2, active, Rk(c), MemberSet(c))
      ensures ranked ==> s2[c] == s1[c] && MembersSeen(s2, c, k + 1)
      ensures ranked ==> MembersKept(s0, s2, c)
    {
      assert KnownDecl(table, c);
      var m := table[c].role.members[k];
      assert KnownDecl(table, m);
      Then(s0, s1, s2, active, Rk(c), MemberSet(c), {m}, MemberSet(c));
      if ranked {
        OthersSeen(s1, s2, c, k, active);
        hide Stepped, Choosing, MembersSeen, KnownDecl;
      }
    }

    lemma OthersSeen(s1: Cells, s2: Cells, c: nat, k: nat, active: set<nat>)
      requires WellFormed(table) && Shape(s1) && |s2| == |table| && c < |table| && table[c].role.Choice? && ranked
      requires k < |table[c].role.members| && table[c].role.members[k] < |table|
      requires Ready(s1, active, Rk(c)) && Choosing(s1, c, active) && MembersSeen(s1, c, k)
      requires Stepped(s1, s2, active, Rk(c), {table[c].role.members[k]})
      requires s2[table[c].role.members[k]].visible == Visibility(table[table[c].role.members[k]], With(table, c, goal))
      ensures s2[c] == s1[c] && MembersSeen(s2, c, k + 1)
    {
      assert KnownDecl(table, c);
      var m := table[c].role.members[k];
      assert KnownDecl(table, m);
      assert Fixed(s1, c, Rk(c));
      forall j | 0 <= j < k
        ensures s2[table[c].role.members[j]].visible == Visibility(table[table[c].role.members[j]], With(table, c, goal))
      {
        var q := table[c].role.members[j];
        if q != m {
          MemberReadable(s1, c, q, active);
          assert s2[q] == s1[q];
        }
      }
    }

    /** Of the first `k` members, none that is visible with the choice on is new. */
    ghost predicate NoneNew(cs: Cells, c: nat, k: nat)
      requires WellFormed(table) && |cs| == |table| && c < |table| && table[c].role.Choice? && k <= |table[c].role.members|
      reads this`goal
    {
      assert KnownDecl(table, c);
      forall j :: 0 <= j < k && Visibility(table[table[c].role.members[j]], With(table, c, goal)) != NO ==>
        cs[table[c].role.members[j]].user.isSet
    }

    /** Evaluation changes no input of members. */
    lemma MemberInput(s0: Cells, s1: Cells, c: nat, m: nat, active: set<nat>, r: nat, xs: set<nat>)
      requires WellFormed(table) && |s0| == |table| && c < |table| && table[c].role.Choice? && KnownDecl(table, c)
      requires Stepped(s0, s1, active, r, xs) && m in table[c].role.members && ranked
      ensures m < |table| && m < |s1| && s1[m].user == s0[m].user
    {
      assert UserKept(m, s0[m], s1[m]);
    }

    /** The first loop of sym_calc_choice: the visibility of every member. */
    method CalcMembers(c: nat, ghost active: set<nat>) returns (allSet: bool)
      requires c < |table| && Ready(cells, active, Rk(c)) && Choosing(cells, c, active)
      modifies this`cells
      ensures Stepped(old(cells), cells, active, Rk(c), MemberSet(c))
      ensures ranked ==> cells[c] == old(cells[c])
      ensures ranked ==> MembersSeen(cells, c, |table[c].role.members|)
      ensures ranked ==> MembersKept(old(cells), cells, c)
      ensures ranked ==> (allSet <==> old(cells[c].user.isSet) && NoneNew(old(cells), c, |table[c].role.members|))
      decreases NeedSet(cells), InvalidSet(cells), 4, 0
    {
      hide Inv, NeedSet, InvalidSet, KeptBut;
      assert KnownDecl(table, c);
      var ms := table[c].role.members;
      ghost var s0 := cells;
      allSet := cells[c].user.isSet;
      assert Stepped(s0, s0, active, Rk(c), MemberSet(c)) by { Unchanged(s0, active, Rk(c), MemberSet(c)); }
      for k := 0 to |ms|
        invariant Stepped(s0, cells, active, Rk(c), MemberSet(c))
        invariant ranked ==> cells[c] == s0[c]
        invariant ranked ==> MembersSeen(cells, c, k)
        invariant ranked ==> MembersKept(s0, cells, c)
        invariant ranked ==> (allSet <==> s0[c].user.isSet && NoneNew(s0, c, k))
      {
        ghost var s1 := cells;
        MemberReadable(s1, c, ms[k], active);
        CalcVisibility(ms[k], active, Rk(c), With(table, c, goal));
        MemberSeen(s0, s1, cells, c, k, active);
        if ranked {
          MemberInput(s0, cells, c, ms[k], active, Rk(c), MemberSet(c));
        }
        if cells[ms[k]].visible != NO {
          allSet := allSet && cells[ms[k]].user.isSet;
        }
      }
    }

    lemma Unchanged(cs: Cells, active: set<nat>, r: nat, xs: set<nat>)
      requires Ready(cs, active, r)
      ensures Stepped(cs, cs, active, r, xs)
    {
    }

    /** sym_choice_default */
    method ChoiceDefault(c: nat, ghost active: set<nat>) returns (pick: Option<nat>)
      requires c < |table| && Ready(cells, active, Rk(c)) && Choosing(cells, c, active)
      requires ranked ==> MembersSeen(cells, c, |table[c].role.members|)
      modifies this`cells
      ensures Stepped(old(cells), cells, active, Rk(c), {})
      ensures pick.Some? ==> pick.value in table[c].role.members
      ensures ranked ==> pick == DefaultPick(c)
      decreases NeedSet(cells), InvalidSet(cells), 4, 1
    {
      hide Inv, NeedSet, InvalidSet, KeptBut, MembersSeen;
      assert KnownDecl(table, c);
      var defaults := table[c].defaults;
      ghost var w := With(table, c, goal);
      ghost var s0 := cells;
      Unchanged(s0, active, Rk(c), {});
      for k := 0 to |defaults|
        invariant Stepped(s0, cells, active, Rk(c), {}) && Choosing(cells, c, active)
        invariant ranked ==> MembersSeen(cells, c, |table[c].role.members|)
        invariant ranked ==> VisibleDefault(table, defaults, w, k) == VisibleDefault(table, defaults, w, 0)
      {
        ghost var s1 := cells;
        var hit := DefaultHolds(c, k, active);
        Then(s0, s1, cells, active, Rk(c), {}, {}, {});
        if hit {
          return Some(defaults[k].value.s.id);
        }
      }
      pick := FirstVisibleMember(c, active);
    }

    /** Whether the `k`-th default of the choice holds and names a visible member. */
    method DefaultHolds(c: nat, k: nat, ghost active: set<nat>) returns (hit: bool)
      requires c < |table| && Ready(cells, active, Rk(c)) && Choosing(cells, c, active)
      requires KnownDecl(table, c) && k < |table[c].defaults|
      requires ranked ==> MembersSeen(cells, c, |table[c].role.members|)
      modifies this`cells
      ensures Stepped(old(cells), cells, active, Rk(c), {}) && Choosing(cells, c, active)
      ensures ranked ==> MembersSeen(cells, c, |table[c].role.members|)
      ensures ranked ==> hit == (EvalOpt(table[c].defaults[k].cond, With(table, c, goal)) != NO &&
                                 Visibility(table[table[c].defaults[k].value.s.id], With(table, c, goal)) != NO)
      decreases NeedSet(cells), InvalidSet(cells), 4, 0
    {
      hide Inv, NeedSet, InvalidSet, KeptBut, MembersSeen;
      ghost var s0 := cells;
      var d := table[c].defaults[k];
      ConditionsReadable(cells, c, active);
      assert forall s :: s in OptSymbols(d.cond) ==> s in ConditionSymbols(table[c]);
      var t := EvalCond(d.cond, active, Rk(c), With(table, c, goal));
      StillSeen(s0, cells, c, active);
      PickedSeen(cells, c, d.value.s.id, active);
      hit := t != NO && cells[d.value.s.id].visible != NO;
    }

    /** Choice conditions lie below the choice, so it does not matter to them whether it is on. */
    lemma ConditionsReadable(cs: Cells, c: nat, active: set<nat>)
      requires Ready(cs, active, Rk(c)) && c < |table| && Choosing(cs, c, active)
      ensures AllReadable(cs, ConditionSymbols(table[c]), Rk(c), With(table, c, goal))
    {
      assert KnownDecl(table, c);
      if ranked {
        assert RankedDecl(table, rank, c);
      }
    }

    /** What the selection falls back to when the user's pick is not visible. */
    ghost function DefaultPick(c: nat): Option<nat>
      requires WellFormed(table) && c < |table| && table[c].role.Choice?
      reads this`goal
    {
      assert KnownDecl(table, c);
      var w := With(table, c, goal);
      var d := VisibleDefault(table, table[c].defaults, w, 0);
      if d.Some? then d else FirstVisible(table, table[c].role.members, w)
    }

    lemma StillSeen(s0: Cells, s1: Cells, c: nat, active: set<nat>)
      requires Ready(s0, active, Rk(c)) && c < |table| && Choosing(s0, c, active)
      requires ranked ==> MembersSeen(s0, c, |table[c].role.members|)
      requires Stepped(s0, s1, active, Rk(c), {})
      ensures Choosing(s1, c, active)
      ensures ranked ==> MembersSeen(s1, c, |table[c].role.members|)
    {
      assert KnownDecl(table, c);
      if ranked {
        assert Fixed(s0, c, Rk(c));
        forall m | m in table[c].role.members ensures m < |table| && s1[m] == s0[m] {
          MemberReadable(s0, c, m, active);
        }
      }
    }

    /** The second half of sym_choice_default. */
    method FirstVisibleMember(c: nat, ghost active: set<nat>) returns (pick: Option<nat>)
      requires c < |table| && Ready(cells, active, Rk(c)) && Choosing(cells, c, active)
      requires ranked ==> MembersSeen(cells, c, |table[c].role.members|)
      ensures pick.Some? ==> pick.value in table[c].role.members
      ensures ranked ==> KnownDecl(table, c) && pick == FirstVisible(table, table[c].role.members, With(table, c, goal))
    {
      hide Inv, MembersSeen, Visibility;
      assert KnownDecl(table, c);
      var ms := table[c].role.members;
      ghost var w := With(table, c, goal);
      assert ms[0..] == ms;
      for k := 0 to |ms|
        invariant ranked ==> FirstVisible(table, ms[k..], w) == FirstVisible(table, ms, w)
      {
        PickedSeen(cells, c, ms[k], active);
        assert ms[k..][0] == ms[k] && ms[k..][1..] == ms[k + 1..];
        if cells[ms[k]].visible != NO {
          return Some(ms[k]);
        }
      }
      pick := None;
    }

    /** The selection, once the members' visibilities are known. */
    method SelectMember(c: nat, ghost active: set<nat>) returns (pick: Option<nat>)
      requires c < |table| && Ready(cells, active, Rk(c)) && Choosing(cells, c, active)
      requires ranked ==> MembersSeen(cells, c, |table[c].role.members|)
      modifies this`cells
      ensures Stepped(old(cells), cells, active, Rk(c), {})
      ensures ranked ==> cells[c] == old(cells[c])
      ensures ranked ==> KnownUsers(table, users) && pick == Pick(table, users, c, With(table, c, goal))
      decreases NeedSet(cells), InvalidSet(cells), 5, 0
    {
      hide NeedSet, InvalidSet, Done;
      assert KnownDecl(table, c);
      ghost var s0 := cells;
      var picked := cells[c].user.pick;
      if picked.Some? {
        PickedSeen(s0, c, picked.value, active);
        if cells[picked.value].visible != NO {
          return picked;
        }
      }
      pick := ChoiceDefault(c, active);
      Same(s0, cells, active, Rk(c), c);
    }

    /** sym_calc_choice. The choice loses SYMBOL_DEF_USER if a visible member is new, and is
        switched off if no member is visible. */
    method CalcChoice(c: nat, ghost active: set<nat>) returns (pick: Option<nat>)
      requires c < |table| && Ready(cells, active, Rk(c)) && Choosing(cells, c, active)
      modifies this`cells
      ensures Stepped(old(cells), cells, active, Rk(c), MemberSet(c) + {c})
      ensures ranked ==> KnownUsers(table, users) && pick == Pick(table, users, c, With(table, c, goal))
      ensures ranked ==> cells[c] == old(cells[c]).(tri := if pick.Some? then YES else NO,
                                                  user := old(cells[c]).user.(isSet := cells[c].user.isSet))
      ensures ranked ==> MembersKept(old(cells), cells, c)
      ensures ranked ==> (cells[c].user.isSet <==> old(cells[c].user.isSet) && NoneNew(old(cells), c, |table[c].role.members|))
      decreases NeedSet(cells), InvalidSet(cells), 6, 0
    {
      hide Inv, NeedSet, InvalidSet, Pick, MembersSeen, MembersKept, KeptBut, NoneNew;
      ghost var s0 := cells;
      ghost var xs := MemberSet(c) + {c};
      ClearNew(c, active);
      ghost var s1 := cells;
      pick := SelectMember(c, active);
      ghost var s2 := cells;
      ChoiceStep(s0, s1, s2, active, c, xs, {});
      if pick.None? {
        Overwritten(s2, c, s2[c].(tri := NO), active, Rk(c));
        cells := cells[c := cells[c].(tri := NO)];
        ChoiceStep(s0, s2, cells, active, c, xs, {c});
      }
    }

    /** The visibilities of the members, and SYMBOL_DEF_USER of the choice. */
    method ClearNew(c: nat, ghost active: set<nat>)
      requires c < |table| && Ready(cells, active, Rk(c)) && Choosing(cells, c, active)
      modifies this`cells
      ensures Stepped(old(cells), cells, active, Rk(c), MemberSet(c) + {c}) && Choosing(cells, c, active)
      ensures ranked ==> cells[c] == old(cells[c]).(user := old(cells[c]).user.(isSet := cells[c].user.isSet))
      ensures ranked ==> MembersSeen(cells, c, |table[c].role.members|) && MembersKept(old(cells), cells, c)
      ensures ranked ==> (cells[c].user.isSet <==> old(cells[c].user.isSet) && NoneNew(old(cells), c, |table[c].role.members|))
      decreases NeedSet(cells), InvalidSet(cells), 5, 0
    {
      hide Inv, NeedSet, InvalidSet, MembersSeen, MembersKept, KeptBut, NoneNew;
      ghost var s0 := cells;
      var allSet := CalcMembers(c, active);
      ghost var s1 := cells;
      var u := cells[c].user;
      Overwritten(s1, c, s1[c].(user := u.(isSet := u.isSet && allSet)), active, Rk(c));
      cells := cells[c := cells[c].(user := u.(isSet := u.isSet && allSet))];
      StillMembersSeen(s0, s1, cells, c);
      ChoiceStep(s0, s1, cells, active, c, MemberSet(c), {c});
    }

    /** Steps of the selection add up. */
    lemma ChoiceStep(s0: Cells, s1: Cells, s2: Cells, active: set<nat>, c: nat, xs0: set<nat>, xs1: set<nat>)
      requires WellFormed(table) && |s0| == |table| && |s1| == |table| && c < |table| && table[c].role.Choice?
      requires xs0 <= MemberSet(c) + {c} && xs1 <= {c}
      requires Stepped(s0, s1, active, Rk(c), xs0) && Stepped(s1, s2, active, Rk(c), xs1)
      requires ranked ==> s0[c].valid ==> s1[c].valid
      requires ranked ==> MembersKept(s0, s1, c)
      ensures Stepped(s0, s2, active, Rk(c), MemberSet(c) + {c})
      ensures ranked ==> MembersKept(s0, s2, c)
    {
      assert KnownDecl(table, c);
      Then(s0, s1, s2, active, Rk(c), xs0, xs1, MemberSet(c) + {c});
    }

    lemma StillMembersSeen(s0: Cells, s1: Cells, s2: Cells, c: nat)
      requires WellFormed(table) && |s0| == |s1| == |s2| == |table| && c < |table| && table[c].role.Choice?
      requires forall j :: 0 <= j < |table| && j != c ==> s1[j] == s2[j]
      requires ranked ==> MembersSeen(s1, c, |table[c].role.members|)
      ensures ranked ==> MembersSeen(s2, c, |table[c].role.members|)
    {
      assert KnownDecl(table, c);
    }

    lemma PickedSeen(cs: Cells, c: nat, m: nat, active: set<nat>)
      requires Shape(cs) && c < |table| && Choosing(cs, c, active) && m in table[c].role.members
      requires ranked ==> MembersSeen(cs, c, |table[c].role.members|)
      ensures m < |table|
      ensures ranked ==> cs[m].visible == Visibility(table[m], With(table, c, goal))
    {
      assert KnownDecl(table, c);
      var j :| 0 <= j < |table[c].role.members| && table[c].role.members[j] == m;
    }

    // ---------------------------------------------------------------- string, int and hex values

    method RawSymbolText(s: Symbol, ghost active: set<nat>, ghost r: nat) returns (text: string)
      requires Ready(cells, active, r) && AllReadable(cells, {s}, r, goal)
      requires ranked ==> s.Config? ==> Rk(s.id) < r
      modifies this`cells
      ensures Stepped(old(cells), cells, active, r, {})
      ensures ranked ==> text == RawText(s, goal)
      decreases NeedSet(cells), InvalidSet(cells), 0, 1
    {
      ghost var s0 := cells;
      assert s in {s};
      if s.Constant? {
        text := s.text;
      } else {
        CalcValue(s.id, active, r);
        if ranked { ValueRead(s0, cells, s, active, r, goal); }
        text := cells[s.id].text;
      }
    }

    /** The text that the defaults give to a string, int or hex symbol. */
    method CalcDefaultText(i: nat, ghost active: set<nat>, ghost r: nat) returns (text: string)
      requires i < |table| && IsText(table[i].stype) && Ready(cells, active, r) && Working(cells, i, active)
      requires AllReadable(cells, DeclSymbols(table[i]), r, goal)
      requires ranked ==> |rank| == |table| && Below(DefaultSymbols(table[i]), rank, r)
      modifies this`cells
      ensures Stepped(old(cells), cells, active, r, {i}) && Working(cells, i, active)
      ensures ranked ==>
        && text == DefaultText(table[i], goal)
        && cells[i] == old(cells[i]).(write := old(cells[i].write) ||
             (FirstDefault(table[i].defaults, goal, 0).Some? && FirstDefault(table[i].defaults, goal, 0).value.0.Sym?))
      decreases NeedSet(cells), InvalidSet(cells), 5, 0
    {
      hide Inv, NeedSet, InvalidSet;
      ghost var s0 := cells;
      assert KnownDecl(table, i);
      var p := DefaultProp(i, active, r);
      ghost var s1 := cells;
      StillWorking(s0, s1, i, active, r);
      Widen(s0, s1, active, r, {}, {i});
      if p.None? || !p.value.0.Sym? {
        return "";
      }
      MarkWritten(i, active, r);
      ghost var s2 := cells;
      Then(s0, s1, s2, active, r, {}, {i}, {i});
      DefaultMentions(table[i], p.value.0);
      StillReadable(s0, s2, DeclSymbols(table[i]), active, r, goal, {i});
      text := RawSymbolText(p.value.0.s, active, r);
      StillWorking(s2, cells, i, active, r);
      Then(s0, s2, cells, active, r, {i}, {}, {i});
    }

    /** The string, int and hex case of sym_calc_value. */
    method CalcText(i: nat, ghost active: set<nat>, ghost r: nat) returns (text: string)
      requires i < |table| && IsText(table[i].stype) && Ready(cells, active, r) && Working(cells, i, active)
      requires AllReadable(cells, DeclSymbols(table[i]), r, goal)
      requires ranked ==> |rank| == |table| && Below(DefaultSymbols(table[i]), rank, r)
      modifies this`cells
      ensures Stepped(old(cells), cells, active, r, {i}) && Working(cells, i, active)
      ensures ranked ==>
        && text == (if Visibility(table[i], goal) != NO && users[i].isSet then users[i].text else DefaultText(table[i], goal))
        && cells[i] == old(cells[i]).(write := cells[i].write)
        && (!old(cells[i].write) && !table[i].auto ==> cells[i].write == Writes(table[i], goal))
      decreases NeedSet(cells), InvalidSet(cells), 6, 0
    {
      hide Inv, NeedSet, InvalidSet, KeptBut;
      ghost var s0 := cells;
      Unchanged(s0, active, r, {i});
      assert KnownDecl(table, i);
      if cells[i].visible != NO {
        MarkWritten(i, active, r);
        if cells[i].user.isSet {
          return cells[i].user.text;
        }
      }
      ghost var s1 := cells;
      StillReadable(s0, s1, DeclSymbols(table[i]), active, r, goal, {i});
      text := CalcDefaultText(i, active, r);
      Then(s0, s1, cells, active, r, {i}, {i}, {i});
    }

    /** sym_get_range_val */
    method RangeBound(s: Symbol, base: nat, ghost active: set<nat>, ghost r: nat) returns (n: LongLong)
      requires Ready(cells, active, r) && AllReadable(cells, {s}, r, goal)
      requires ranked ==> s.Config? ==> Rk(s.id) < r
      modifies this`cells
      ensures Stepped(old(cells), cells, active, r, {})
      ensures ranked ==> n == RangeValue(s, base, goal)
      decreases NeedSet(cells), InvalidSet(cells), 0, 2
    {
      var text := RawSymbolText(s, active, r);
      n := StrToLL(text, if s.Config? && s.stype.Int? then 10 else if s.Config? && s.stype.Hex? then 16 else base);
    }

    /** sym_validate_range */
    method ValidateRange(i: nat, text: string, ghost active: set<nat>, ghost r: nat) returns (validated: string)
      requires i < |table| && Ready(cells, active, r) && AllReadable(cells, RangeSymbols(table[i]), r, goal)
      requires ranked ==> |rank| == |table| && Below(RangeSymbols(table[i]), rank, r)
      modifies this`cells
      ensures Stepped(old(cells), cells, active, r, {})
      ensures ranked ==> validated == Validated(table[i], text, goal)
      decreases NeedSet(cells), InvalidSet(cells), 5, 0
    {
      hide Inv, NeedSet, InvalidSet;
      ghost var s0 := cells;
      var d := table[i];
      validated := text;
      if !d.stype.Int? && !d.stype.Hex? {
        return;
      }
      var prop := RangeProp(i, active, r);
      if prop.None? {
        return;
      }
      ghost var s1 := cells;
      StillReadable(s0, s1, RangeSymbols(d), active, r, goal, {});
      var base := NumberBase(d.stype);
      var n := StrToLL(text, base);
      assert prop.value.low in {prop.value.low, prop.value.high};
      var low := RangeBound(prop.value.low, base, active, r);
      ghost var s2 := cells;
      StillReadable(s1, s2, RangeSymbols(d), active, r, goal, {});
      Then(s0, s1, s2, active, r, {}, {}, {});
      if n < low {
        return NumberText(d.stype, low);
      }
      assert prop.value.high in {prop.value.low, prop.value.high};
      var high := RangeBound(prop.value.high, base, active, r);
      Then(s0, s2, cells, active, r, {}, {}, {});
      if n > high {
        validated := NumberText(d.stype, high);
      }
    }

    // ---------------------------------------------------------------- sym_calc_value

    /** The symbols an evaluation of `i` reads lie below it. */
    lemma OwnReadable(cs: Cells, i: nat, active: set<nat>)
      requires i < |table| && Ready(cs, active, Rk(i))
      ensures AllReadable(cs, VisibilitySymbols(table[i]), Rk(i), goal)
      ensures !table[i].role.Choice? ==> AllReadable(cs, ConditionSymbols(table[i]) + DefaultSymbols(table[i]), Rk(i), goal)
      ensures table[i].role.Plain? ==> AllReadable(cs, DeclSymbols(table[i]), Rk(i), goal)
      ensures ranked && table[i].role.Plain? ==> |rank| == |table| && Below(DeclSymbols(table[i]), rank, Rk(i))
    {
      assert KnownDecl(table, i);
      if ranked {
        assert RankedDecl(table, rank, i);
        if table[i].role.Member? {
          var c := table[i].role.choice;
          forall s | s in PromptSymbols(table[i]) && s.Config? ensures Rk(s.id) < Rk(i) {
            if s != SymbolAt(table, c) {
              assert s in PromptSymbols(table[i]) - {SymbolAt(table, c)};
            }
          }
        }
      }
    }

    /** The cells an evaluation of `i` itself works on. */
    ghost function Touched(i: nat): set<nat>
      requires i < |table|
    {
      {i} + if table[i].role.Choice? then MemberSet(i) else {}
    }

    ghost predicate TouchedKept(s0: Cells, s1: Cells, i: nat)
      requires |s0| == |s1| == |table| && i < |table|
    {
      s0[i].valid == s1[i].valid && (table[i].role.Choice? ==> MembersKept(s0, s1, i))
    }

    lemma MembersKeptThen(s0: Cells, s1: Cells, s2: Cells, i: nat, r: nat)
      requires WellFormed(table) && |s0| == |s1| == |s2| == |table| && i < |table| && table[i].role.Choice?
      requires KeptBut(s0, s1, r, {i}) && MembersKept(s1, s2, i)
      ensures MembersKept(s0, s2, i)
    {
      assert KnownDecl(table, i);
    }

    /** A choice that is on selects a member. */
    method StorePick(i: nat, ghost active: set<nat>)
      requires i < |table| && Ready(cells, active, Rk(i)) && Choosing(cells, i, active)
      modifies this`cells
      ensures Stepped(old(cells), cells, active, Rk(i), Touched(i))
      ensures ranked ==> MembersKept(old(cells), cells, i) && KnownUsers(table, users)
      ensures ranked ==> var pick := Pick(table, users, i, With(table, i, goal));
        cells[i] == old(cells[i]).(tri := if pick.Some? then YES else NO, pick := pick,
                                  user := old(cells[i]).user.(isSet := cells[i].user.isSet))
      decreases NeedSet(cells), InvalidSet(cells), 9, 0
    {
      hide Inv, NeedSet, InvalidSet, Pick;
      assert KnownDecl(table, i);
      ghost var s0 := cells;
      var pick := CalcChoice(i, active);
      ghost var s1 := cells;
      Overwritten(s1, i, s1[i].(pick := pick), active, Rk(i));
      cells := cells[i := cells[i].(pick := pick)];
      Then(s0, s1, cells, active, Rk(i), MemberSet(i) + {i}, {i}, Touched(i));
    }

    /** The value of a bool or tristate symbol is computed and stored; a choice that is on selects
        a member. */
    method StoreTri(i: nat, ghost active: set<nat>)
      requires i < |table| && IsTri(table[i].stype) && Ready(cells, active, Rk(i)) && Working(cells, i, active)
      requires ranked && table[i].role.Member? ==> Settled(cells, i, active)
      requires ranked ==> cells[i].text == "n" && cells[i].pick == None && (!table[i].role.Member? ==> !cells[i].write)
      modifies this`cells
      ensures Stepped(old(cells), cells, active, Rk(i), Touched(i))
      ensures ranked ==> TouchedKept(old(cells), cells, i)
      ensures ranked && (!table[i].auto || table[i].role.Member?) ==> Done(i, cells[i])
      ensures ranked ==> Done(i, cells[i].(write := cells[i].write && !table[i].auto))
      decreases NeedSet(cells), InvalidSet(cells), 10, 0
    {
      hide Inv, NeedSet, InvalidSet, KeptBut, MembersKept, Pick, Visibility, RevDep;
      assert KnownDecl(table, i);
      ghost var s0 := cells;
      OwnReadable(cells, i, active);
      var tri := CalcTri(i, active, Rk(i));
      ghost var s1 := cells;
      Overwritten(s1, i, s1[i].(tri := tri, text := "n", pick := None), active, Rk(i));
      cells := cells[i := cells[i].(tri := tri, text := "n", pick := None)];
      ghost var s2 := cells;
      Then(s0, s1, s2, active, Rk(i), {i}, {i}, {i});
      if ranked && table[i].role.Choice? { MembersKeptStep(s0, s2, i, Rk(i)); }
      if table[i].role.Choice? && tri == YES {
        StorePick(i, active);
        ChoiceStored(s0, s2, cells, i, active);
      } else {
        Widen(s0, s2, active, Rk(i), {i}, Touched(i));
      }
    }

    lemma MembersKeptStep(s0: Cells, s1: Cells, i: nat, r: nat)
      requires WellFormed(table) && |s0| == |s1| == |table| && i < |table| && table[i].role.Choice?
      requires KeptBut(s0, s1, r, {i})
      ensures MembersKept(s0, s1, i)
    {
      assert KnownDecl(table, i);
    }

    lemma Widen(s0: Cells, s1: Cells, active: set<nat>, r: nat, xs: set<nat>, ys: set<nat>)
      requires WellFormed(table) && |s0| == |table| && xs <= ys && Stepped(s0, s1, active, r, xs)
      ensures Stepped(s0, s1, active, r, ys)
    {
    }

    lemma ChoiceStored(s0: Cells, s1: Cells, s2: Cells, i: nat, active: set<nat>)
      requires WellFormed(table) && |s0| == |table| && i < |table| && table[i].role.Choice?
      requires Stepped(s0, s1, active, Rk(i), {i}) && Stepped(s1, s2, active, Rk(i), Touched(i))
      requires ranked ==> s0[i].valid == s1[i].valid == s2[i].valid && MembersKept(s1, s2, i)
      ensures Stepped(s0, s2, active, Rk(i), Touched(i))
      ensures ranked ==> MembersKept(s0, s2, i)
    {
      assert KnownDecl(table, i);
      if ranked { MembersKeptThen(s0, s1, s2, i, Rk(i)); }
      Then(s0, s1, s2, active, Rk(i), {i}, Touched(i), Touched(i));
    }

    /** The text of a string, int or hex symbol is computed, stored and forced into its range. */
    method StoreText(i: nat, ghost active: set<nat>)
      requires i < |table| && IsText(table[i].stype) && Ready(cells, active, Rk(i)) && Working(cells, i, active)
      requires ranked ==> cells[i].tri == NO && !cells[i].write
      modifies this`cells
      ensures Stepped(old(cells), cells, active, Rk(i), {i})
      ensures ranked ==> old(cells[i].valid) == cells[i].valid
      ensures ranked && !table[i].auto ==> Done(i, cells[i])
      ensures ranked ==> Done(i, cells[i].(write := cells[i].write && !table[i].auto))
      decreases NeedSet(cells), InvalidSet(cells), 10, 0
    {
      hide Inv, NeedSet, InvalidSet, KeptBut, Validated, DefaultText;
      assert KnownDecl(table, i);
      ghost var s0 := cells;
      OwnReadable(cells, i, active);
      var text := CalcText(i, active, Rk(i));
      ghost var s1 := cells;
      Overwritten(s1, i, s1[i].(text := text), active, Rk(i));
      cells := cells[i := cells[i].(text := text)];
      Then(s0, s1, cells, active, Rk(i), {i}, {i}, {i});
      ghost var s2 := cells;
      StoreValidated(i, active);
      Then(s0, s2, cells, active, Rk(i), {i}, {i}, {i});
    }

    /** sym_validate_range of a symbol, on its current text. */
    method StoreValidated(i: nat, ghost active: set<nat>)
      requires i < |table| && IsText(table[i].stype) && Ready(cells, active, Rk(i)) && Working(cells, i, active)
      modifies this`cells
      ensures Stepped(old(cells), cells, active, Rk(i), {i})
      ensures ranked ==> cells[i] == old(cells[i]).(text := Validated(table[i], old(cells[i]).text, goal))
      decreases NeedSet(cells), InvalidSet(cells), 9, 0
    {
      hide Inv, NeedSet, InvalidSet, KeptBut, Validated;
      assert KnownDecl(table, i);
      ghost var s0 := cells;
      OwnReadable(cells, i, active);
      var validated := ValidateRange(i, cells[i].text, active, Rk(i));
      ghost var s1 := cells;
      StillWorking(s0, s1, i, active, Rk(i));
      Overwritten(s1, i, s1[i].(text := validated), active, Rk(i));
      cells := cells[i := cells[i].(text := validated)];
      Then(s0, s1, cells, active, Rk(i), {}, {i}, {i});
    }

    /** After its visibility is known, the choice of a member is evaluated. */
    lemma NowWorking(s0: Cells, s1: Cells, i: nat, active: set<nat>)
      requires i < |table| && Ready(s1, active, Rk(i)) && |s0| == |table|
      requires ranked ==> i in active && s1[i].valid && ChoiceValid(s1, i)
      requires ranked ==> s1[i].visible == Visibility(table[i], goal) && s1[i].revTri == RevDep(table[i], goal)
      requires ranked ==> s1[i].user == s0[i].user && s0[i].user.isSet == users[i].isSet && SameInput(i, s0[i])
      ensures Working(s1, i, active)
      ensures ranked && table[i].role.Member? ==> Settled(s1, i, active)
    {
      assert KnownDecl(table, i);
      if ranked {
        assert RankedDecl(table, rank, i);
      }
    }

    lemma SettledStays(s0: Cells, s1: Cells, i: nat, active: set<nat>, xs: set<nat>)
      requires Shape(s0) && i < |table| && Stepped(s0, s1, active, Rk(i), xs)
      requires ranked && table[i].role.Member? ==> Settled(s0, i, active) && xs == {i}
      ensures ranked && table[i].role.Member? ==> Settled(s1, i, active)
    {
      assert KnownDecl(table, i);
    }

    /** The first half of sym_calc_value: the visibility, and a value in case of a recursive call. */
    method Prepare(i: nat, ghost active: set<nat>)
      requires i < |table| && Ready(cells, active, Rk(i))
      requires ranked ==> i in active && cells[i].valid && SameInput(i, cells[i]) && cells[i].user.isSet == users[i].isSet
      modifies this`cells
      ensures Stepped(old(cells), cells, active, Rk(i), {i}) && Working(cells, i, active)
      ensures ranked ==> cells[i].valid
      ensures ranked && table[i].role.Member? ==> Settled(cells, i, active)
      ensures cells[i].tri == NO && cells[i].text == (if IsTri(table[i].stype) then "n" else "") && cells[i].pick == None
      ensures ranked && !table[i].role.Member? ==> !cells[i].write
      decreases NeedSet(cells), InvalidSet(cells), 10, 0
    {
      hide Inv, NeedSet, InvalidSet, KeptBut, Visibility, RevDep;
      assert KnownDecl(table, i);
      ghost var s0 := cells;
      Unchanged(s0, active, Rk(i), {i});
      if !table[i].role.Member? {
        Overwritten(s0, i, s0[i].(write := false), active, Rk(i));
        cells := cells[i := cells[i].(write := false)];
      }
      ghost var s1 := cells;
      OwnReadable(cells, i, active);
      CalcVisibility(i, active, Rk(i), goal);
      ghost var s2 := cells;
      Then(s0, s1, s2, active, Rk(i), {i}, {i}, {i});
      // set default if recursively called
      Overwritten(s2, i, s2[i].(tri := NO, text := if IsTri(table[i].stype) then "n" else "", pick := None), active, Rk(i));
      cells := cells[i := cells[i].(tri := NO, text := if IsTri(table[i].stype) then "n" else "", pick := None)];
      Then(s0, s2, cells, active, Rk(i), {i}, {i}, {i});
      NowWorking(s0, cells, i, active);
    }

    /** Everything sym_calc_value does between setting SYMBOL_VALID and the final loop over the
        members of a choice, for a symbol with a type. */
    method CalcTyped(i: nat, ghost active: set<nat>)
      requires i < |table| && Ready(cells, active, Rk(i))
      requires IsTri(table[i].stype) || IsText(table[i].stype)
      requires ranked ==> i in active && cells[i].valid && SameInput(i, cells[i]) && cells[i].user.isSet == users[i].isSet
      modifies this`cells
      ensures Stepped(old(cells), cells, active, Rk(i), Touched(i))
      ensures ranked ==> TouchedKept(old(cells), cells, i)
      ensures ranked && table[i].role.Member? ==> Settled(cells, i, active)
      ensures ranked && (!table[i].auto || table[i].role.Member?) ==> Done(i, cells[i])
      ensures ranked ==> Done(i, cells[i].(write := cells[i].write && !table[i].auto))
      decreases NeedSet(cells), InvalidSet(cells), 11, 0
    {
      hide Inv, NeedSet, InvalidSet, KeptBut, MembersKept, Done, SameInput, Working;
      assert KnownDecl(table, i);
      assert !table[i].role.Choice? ==> Touched(i) == {i};
      ghost var s0 := cells;
      Prepare(i, active);
      ghost var s1 := cells;
      if IsTri(table[i].stype) {
        StoreTri(i, active);
        if table[i].role.Choice? {
          ChoiceStored(s0, s1, cells, i, active);
        } else {
          Then(s0, s1, cells, active, Rk(i), {i}, {i}, {i});
        }
      } else {
        StoreText(i, active);
        Then(s0, s1, cells, active, Rk(i), {i}, {i}, {i});
      }
      SettledStays(s1, cells, i, active, Touched(i));
    }

    /** The final loop of sym_calc_value: a written choice writes its visible members. */
    method MarkMembers(c: nat, ghost active: set<nat>)
      requires c < |table| && table[c].role.Choice? && Ready(cells, active, Rk(c))
      requires ranked ==> c in active && cells[c].valid
      modifies this`cells
      ensures Stepped(old(cells), cells, active, Rk(c), MemberSet(c))
      ensures cells[c] == old(cells[c])
      ensures MembersKept(old(cells), cells, c)
      ensures forall m :: 0 <= m < |table| && m in MemberSet(c) ==>
        cells[m] == old(cells[m]).(write := old(cells[m].write) || (cells[c].write && cells[m].visible != NO))
    {
      assert KnownDecl(table, c);
      var ms := table[c].role.members;
      ghost var s0 := cells;
      for k := 0 to |ms|
        invariant Stepped(s0, cells, active, Rk(c), MemberSet(c))
        invariant cells[c] == s0[c]
        invariant forall m :: 0 <= m < |table| && m in MemberSet(c) ==>
          cells[m] == s0[m].(write := s0[m].write || (m in ms[..k] && s0[c].write && s0[m].visible != NO))
      {
        hide Inv, NeedSet, InvalidSet;
        var m := ms[k];
        ghost var s1 := cells;
        assert KnownDecl(table, m);
        if cells[c].write && cells[m].visible != NO {
          NotEvaluated(s1, c, m, active);
          Overwritten(s1, m, s1[m].(write := true), active, Rk(c));
          cells := cells[m := cells[m].(write := true)];
          Then(s0, s1, cells, active, Rk(c), MemberSet(c), {m}, MemberSet(c));
        }
        assert ms[..k + 1] == ms[..k] + [m];
      }
    }

    /** While a choice is under evaluation, its members are invalid or under evaluation too. */
    lemma NotEvaluated(cs: Cells, c: nat, m: nat, active: set<nat>)
      requires c < |table| && Ready(cs, active, Rk(c)) && table[c].role.Choice? && m in table[c].role.members
      requires ranked ==> c in active
      ensures m < |table| && (ranked ==> !cs[m].valid || m in active)
    {
      assert KnownDecl(table, c);
      assert KnownDecl(table, m);
    }

    /** set_all_choice_values: the choice must be evaluated once more. */
    method SetAllChoiceValues(c: nat)
      requires Shape(cells) && c < |table| && table[c].role.Choice? && cells[c].need
      modifies this`cells
      ensures Shape(cells) && NeedSet(cells) < NeedSet(old(cells))
      ensures cells[c] == old(cells[c]).(valid := false, need := false, user := old(cells[c]).user.(isSet := true))
      ensures forall m :: 0 <= m < |table| && m != c ==>
        cells[m] == if m in MemberSet(c) && !old(cells[m].user.isSet)
                    then old(cells[m]).(user := old(cells[m]).user.(tri := NO)) else old(cells[m])
    {
      assert KnownDecl(table, c);
      var ms := table[c].role.members;
      ghost var s0 := cells;
      for k := 0 to |ms|
        invariant Shape(cells) && NeedSet(cells) == NeedSet(s0) && cells[c] == s0[c]
        invariant forall m :: 0 <= m < |table| && m != c ==>
          cells[m] == if m in ms[..k] && !s0[m].user.isSet then s0[m].(user := s0[m].user.(tri := NO)) else s0[m]
      {
        var m := ms[k];
        assert KnownDecl(table, m);
        if !cells[m].user.isSet {
          SameFlags(cells, m, cells[m].(user := cells[m].user.(tri := NO)));
          cells := cells[m := cells[m].(user := cells[m].user.(tri := NO))];
        }
        assert ms[..k + 1] == ms[..k] + [m];
      }
      assert ms[..|ms|] == ms;
      cells := cells[c := cells[c].(valid := false, need := false, user := cells[c].user.(isSet := true))];
      assert c in NeedSet(s0) && NeedSet(cells) == NeedSet(s0) - {c};
    }

    /** From setting SYMBOL_VALID on, the symbol counts as under evaluation. */
    lemma Activated(s0: Cells, i: nat, active: set<nat>, r: nat)
      requires i < |table| && Ready(s0, active, r) && (ranked ==> !s0[i].valid && Rk(i) < r)
      ensures var s1 := s0[i := s0[i].(valid := true)];
              && Ready(s1, active + {i}, Rk(i))
              && NeedSet(s1) == NeedSet(s0) && InvalidSet(s1) == InvalidSet(s0) - {i}
              && (!s0[i].valid ==> i in InvalidSet(s0))
              && (ranked ==> SameInput(i, s1[i]) && s1[i].user.isSet == users[i].isSet)
    {
      NowValid(s0, i);
      var s1 := s0[i := s0[i].(valid := true)];
      if ranked {
        forall j | 0 <= j < |table| && s1[j].valid && j !in active + {i}
          ensures Done(j, s1[j]) && (table[j].role.Member? ==> Settled(s1, j, active + {i}))
        {
          assert KnownDecl(table, j);
        }
      }
    }

    /** An evaluated symbol is no longer under evaluation. */
    lemma Deactivated(s0: Cells, s2: Cells, i: nat, active: set<nat>, r: nat)
      requires i < |table| && Ready(s0, active, r) && !s0[i].valid && Rk(i) < r && ranked
      requires Stepped(s0[i := s0[i].(valid := true)], s2, active + {i}, Rk(i), Touched(i))
      requires TouchedKept(s0[i := s0[i].(valid := true)], s2, i) && Done(i, s2[i])
      requires table[i].role.Member? ==> Settled(s2, i, active + {i})
      ensures Ready(s2, active, r) && KeptBut(s0, s2, r, {}) && s2[i].valid
    {
      var s1 := s0[i := s0[i].(valid := true)];
      forall j | 0 <= j < |table|
        ensures s0[j].valid ==> SameCore(s0[j], s2[j])
        ensures Fixed(s0, j, r) ==> s2[j] == s0[j]
        ensures UserKept(j, s0[j], s2[j])
      {
        assert KnownDecl(table, j);
        assert KnownDecl(table, i);
        assert UserKept(j, s1[j], s2[j]);
      }
      forall j | 0 <= j < |table| && s2[j].valid && j !in active
        ensures Done(j, s2[j]) && (table[j].role.Member? ==> Settled(s2, j, active))
      {
      }
    }

    /** The part of sym_calc_value after SYMBOL_VALID is set. */
    method CalcFresh(i: nat, ghost active: set<nat>)
      requires i < |table| && Ready(cells, active, Rk(i))
      requires ranked ==> i in active && cells[i].valid && SameInput(i, cells[i]) && cells[i].user.isSet == users[i].isSet
      modifies this`cells
      ensures Stepped(old(cells), cells, active, Rk(i), Touched(i))
      ensures ranked ==> TouchedKept(old(cells), cells, i)
      ensures ranked && table[i].role.Member? ==> Settled(cells, i, active)
      ensures ranked ==> Done(i, cells[i])
      decreases NeedSet(cells), InvalidSet(cells), 12, 0
    {
      hide Inv, NeedSet, InvalidSet, TriValue, Visibility, RevDep, Writes, Selected;
      assert KnownDecl(table, i);
      ghost var s0 := cells;
      if !IsTri(table[i].stype) && !IsText(table[i].stype) {
        Overwritten(s0, i, s0[i].(text := table[i].name, tri := NO), active, Rk(i));
        cells := cells[i := cells[i].(text := table[i].name, tri := NO)];
        return;
      }
      CalcTyped(i, active);
      ghost var s1 := cells;
      if table[i].role.Choice? {
        MarkMembers(i, active);
        Then(s0, s1, cells, active, Rk(i), Touched(i), MemberSet(i), Touched(i));
      }
      ghost var s2 := cells;
      if table[i].auto {
        Overwritten(s2, i, s2[i].(write := false), active, Rk(i));
        cells := cells[i := cells[i].(write := false)];
        Then(s0, s2, cells, active, Rk(i), Touched(i), {i}, Touched(i));
      }
    }

    /** sym_calc_value. It terminates on every table, with recursive dependencies, choices and
        pending NEED flags; without recursive dependencies it leaves the symbol with its value. */
    method CalcValue(i: nat, ghost active: set<nat>, ghost r: nat)
      requires Ready(cells, active, r) && i < |table|
      requires ranked ==> cells[i].valid || Rk(i) < r
      modifies this`cells
      ensures Stepped(old(cells), cells, active, r, {})
      ensures ranked ==> cells[i].valid
      decreases NeedSet(cells), InvalidSet(cells), 0, 0
    {
      assert KnownDecl(table, i);
      if cells[i].valid {
        return;
      }
      ghost var s0 := cells;
      if table[i].role.Member? && cells[i].need {
        NeedUsed(cells, i);
        cells := cells[i := cells[i].(need := false)];
        ghost var s := cells;
        CalcValue(table[i].role.choice, active, r);
        NeedStays(s, cells, i);
      }
      ghost var s1 := cells;
      Activated(s1, i, active, r);
      cells := cells[i := cells[i].(valid := true)];
      CalcFresh(i, active + {i});
      if ranked {
        Deactivated(s0, cells, i, active, r);
      }
      NeedStays(s1, cells, i);
      if cells[i].need {
        SetAllChoiceValues(i);
      }
    }

    /** No evaluation sets a NEED flag. */
    lemma NeedStays(before: Cells, after: Cells, i: nat)
      requires |before| == |after| && i < |after| && Progress(before, after)
      ensures after[i].need ==> before[i].need
    {
      if after[i].need {
        assert i in NeedSet(after);
      }
    }

    lemma NeedUsed(cs: Cells, i: nat)
      requires i < |table| && Shape(cs) && cs[i].need
      ensures NeedSet(cs[i := cs[i].(need := false)]) < NeedSet(cs)
      ensures Shape(cs[i := cs[i].(need := false)])
    {
      assert i in NeedSet(cs);
      assert NeedSet(cs[i := cs[i].(need := false)]) == NeedSet(cs) - {i};
    }

    // ---------------------------------------------------------------- rounds of evaluation

    /** Holds between calls. */
    ghost predicate Valid()
      reads this
    {
      Ready(cells, {}, 0) && (ranked ==> goal == Meaning(table, users, rank, modules))
    }

    /** What the user has entered so far. */
    ghost function Entered(): (us: Users)
      reads this
    {
      UsersOf(cells)
    }

    ghost function UsersOf(cs: Cells): (us: Users)
      ensures |us| == |cs| && forall i :: 0 <= i < |cs| ==> us[i] == cs[i].user
    {
      seq(|cs|, i requires 0 <= i < |cs| => cs[i].user)
    }

    /** Fresh symbols. A `ranking` shows that the table has no recursive dependencies. */
    constructor (t: Table, mods: Tristate, us: Users, ghost ranking: Option<Ranks>)
      requires WellFormed(t) && KnownUsers(t, us)
      requires ranking.Some? ==> Ranked(t, ranking.value)
      ensures Valid() && table == t && modules == mods && users == us && Entered() == us
      ensures ranked == ranking.Some? && (ranked ==> rank == ranking.value)
      ensures forall i :: 0 <= i < |t| ==> !cells[i].valid
    {
      table, modules := t, mods;
      users := us;
      ranked := ranking.Some?;
      rank := if ranking.Some? then ranking.value else [];
      goal := if ranking.Some? then Meaning(t, us, ranking.value, mods) else Assignment(mods, s => NO, s => "");
      cells := seq(|t|, i requires 0 <= i < |t| => Cell(false, false, false, NO, "", None, NO, NO, NO, us[i]));
      new;
      if ranked {
        SolutionExists(table, users, rank, modules);
      }
    }

    /** Evaluation on demand, with whatever was evaluated before it. */
    method Calc(i: nat)
      requires Valid() && i < |table|
      modifies this`cells
      ensures Valid()
      ensures ranked ==> cells[i].valid && Done(i, cells[i])
      ensures ranked ==> forall j :: 0 <= j < |table| && old(cells[j].valid) ==> cells[j] == old(cells[j])
      ensures ranked ==> forall j :: 0 <= j < |table| ==> UserKept(j, old(cells[j]), cells[j])
    {
      ghost var s0 := cells;
      CalcValue(i, {}, Rk(i) + 1);
      if ranked {
        forall j | 0 <= j < |table| && s0[j].valid ensures cells[j] == s0[j] {
          assert KnownDecl(table, j);
          assert Fixed(s0, j, Rk(i) + 1);
        }
      }
    }

    /** Symbols are requested in any order; each gets its value in the solution. */
    method CalcAll(order: seq<nat>)
      requires Valid() && forall k :: 0 <= k < |order| ==> order[k] < |table|
      modifies this`cells
      ensures Valid()
      ensures ranked ==> forall k :: 0 <= k < |order| ==> cells[order[k]].valid && Done(order[k], cells[order[k]])
      ensures ranked ==> forall j :: 0 <= j < |table| ==> UserKept(j, old(cells[j]), cells[j])
    {
      for k := 0 to |order|
        invariant Valid()
        invariant ranked ==> forall j :: 0 <= j < |table| ==> UserKept(j, old(cells[j]), cells[j])
        invariant ranked ==> forall j :: 0 <= j < k ==> cells[order[j]].valid && Done(order[j], cells[order[j]])
      {
        Calc(order[k]);
      }
    }

    /** sym_clear_all_valid: a new round for the input entered so far. */
    method ClearAllValid()
      requires Valid()
      modifies this
      ensures Valid() && Entered() == old(Entered()) == users
      ensures forall i :: 0 <= i < |table| ==> cells[i] == old(cells[i]).(valid := false)
    {
      ghost var s0 := cells;
      for k := 0 to |cells|
        invariant |cells| == |s0|
        invariant forall i :: 0 <= i < |s0| ==> cells[i] == if i < k then s0[i].(valid := false) else s0[i]
        invariant ranked ==> Inv(s0, {})
      {
        cells := cells[k := cells[k].(valid := false)];
      }
      users := Entered();
      EnteredIsKnown(s0);
      assert users == UsersOf(s0);
      if ranked {
        SolutionExists(table, users, rank, modules);
        goal := Meaning(table, users, rank, modules);
      }
    }

    /** sym_tristate_within_range */
    function TristateWithinRange(i: nat, val: Tristate): bool
      requires i < |table| && |cells| == |table|
      reads this
    {
      WithinRange(table[i], cells[i].visible, cells[i].revTri, modules, val)
    }

    /** Input does not touch what has been evaluated. */
    lemma OnlyInput(s0: Cells, s1: Cells)
      requires Ready(s0, {}, 0) && Shape(s1)
      requires ranked ==> forall j :: 0 <= j < |table| ==> s0[j].valid || s1[j].user == s0[j].user
      requires forall j :: 0 <= j < |table| ==> s1[j] == s0[j].(user := s1[j].user)
      ensures Ready(s1, {}, 0)
    {
      if ranked {
        forall j | 0 <= j < |table|
          ensures s1[j].valid ==> Done(j, s1[j]) && (table[j].role.Member? ==> Settled(s1, j, {}))
          ensures !s1[j].valid ==> SameInput(j, s1[j])
        {
          assert KnownDecl(table, j);
          assert s0[j].valid ==> Done(j, s0[j]);
        }
      }
    }

    /** The symbols whose input sym_set_tristate_value records have been evaluated: the symbol
        itself and, when a member is chosen, its choice and the visible members. */
    ghost predicate InputEvaluated(cs: Cells, i: nat, val: Tristate)
      requires WellFormed(table) && |cs| == |table| && i < |table|
    {
      assert KnownDecl(table, i);
      && cs[i].valid
      && (table[i].role.Member? && val == YES ==>
            var c := table[i].role.choice;
            assert KnownDecl(table, c);
            cs[c].valid && forall m :: m in table[c].role.members && cs[m].visible != NO ==> cs[m].valid)
    }

    /** Choosing a member: it becomes the pick of its choice, and the choice and its visible members
        stop being new. */
    method EnterPick(i: nat)
      requires Shape(cells) && i < |table| && table[i].role.Member?
      modifies this`cells
      ensures Shape(cells) && KnownDecl(table, i)
      ensures var c := table[i].role.choice;
        && KnownDecl(table, c)
        && cells[c] == old(cells[c]).(user := old(cells[c]).user.(isSet := true, pick := Some(i)))
        && forall j :: 0 <= j < |table| && j != c ==>
             cells[j] == if j in table[c].role.members && old(cells[j]).visible != NO
                         then old(cells[j]).(user := old(cells[j]).user.(isSet := true)) else old(cells[j])
    {
      ghost var s0 := cells;
      assert KnownDecl(table, i);
      var c := table[i].role.choice;
      assert KnownDecl(table, c);
      var ms := table[c].role.members;
      cells := cells[c := cells[c].(user := cells[c].user.(isSet := true, pick := Some(i)))];
      for k := 0 to |ms|
        invariant Shape(cells) && cells[c] == s0[c].(user := s0[c].user.(isSet := true, pick := Some(i)))
        invariant forall j :: 0 <= j < |table| && j != c ==>
          cells[j] == if j in ms[..k] && s0[j].visible != NO then s0[j].(user := s0[j].user.(isSet := true)) else s0[j]
      {
        var m := ms[k];
        assert KnownDecl(table, m);
        if cells[m].visible != NO {
          cells := cells[m := cells[m].(user := cells[m].user.(isSet := true))];
        }
        assert ms[..k + 1] == ms[..k] + [m];
      }
      assert ms[..|ms|] == ms;
    }

    /** The part of sym_set_tristate_value that records the input. */
    method EnterTri(i: nat, val: Tristate)
      requires Valid() && i < |table| && IsTri(table[i].stype)
      requires ranked ==> InputEvaluated(cells, i, val)
      modifies this`cells
      ensures Valid() && KnownUsers(table, UsersOf(old(cells)))
      ensures UsersOf(cells) == SetTri(table, UsersOf(old(cells)), Visible(old(cells)), i, val)
      ensures forall j :: 0 <= j < |table| ==> cells[j] == old(cells[j]).(user := cells[j].user)
    {
      hide SetTri, Inv, UsersOf, Visible;
      assert KnownDecl(table, i);
      ghost var s0 := cells;
      EnteredIsKnown(s0);
      if table[i].role.Member? && val == YES {
        EnterPick(i);
      }
      EnterOwn(i, val, s0);
    }

    /** The value itself; before it, only the pick of a choice has been entered since `s0`. */
    method EnterOwn(i: nat, val: Tristate, ghost s0: Cells)
      requires i < |table| && Ready(s0, {}, 0) && Shape(cells) && KnownDecl(table, i) && KnownUsers(table, UsersOf(s0))
      requires ranked ==> InputEvaluated(s0, i, val)
      requires Picked(s0, cells, i, val)
      requires forall j :: 0 <= j < |table| ==> cells[j] == s0[j].(user := cells[j].user)
      modifies this`cells
      ensures Ready(cells, {}, 0) && UsersOf(cells) == SetTri(table, UsersOf(s0), Visible(s0), i, val)
      ensures forall j :: 0 <= j < |table| ==> cells[j] == s0[j].(user := cells[j].user)
    {
      ghost var s1 := cells;
      assert KnownCell(i, s1[i]);
      OnlyEvaluated(s0, s1, i, val);
      cells := cells[i := cells[i].(user := cells[i].user.(isSet := true, tri := val))];
      hide SetTri, Inv, UsersOf, Visible, Picked, InputEvaluated;
      assert KnownCell(i, cells[i]);
      assert Shape(cells);
      OnlyInput(s0, cells);
      SameUsers(s0, s1, cells, i, val);
    }

    lemma OnlyEvaluated(s0: Cells, s1: Cells, i: nat, val: Tristate)
      requires Shape(s0) && Shape(s1) && i < |table| && KnownDecl(table, i) && Picked(s0, s1, i, val)
      requires ranked ==> InputEvaluated(s0, i, val)
      ensures ranked ==> s0[i].valid && forall j :: 0 <= j < |table| && j != i ==> s0[j].valid || s1[j].user == s0[j].user
    {
    }

    /** What EnterPick does when a member is chosen. */
    ghost predicate Picked(s0: Cells, s1: Cells, i: nat, val: Tristate)
      requires WellFormed(table) && |s0| == |s1| == |table| && i < |table| && KnownDecl(table, i)
    {
      if table[i].role.Member? && val == YES then
        var c := table[i].role.choice;
        && table[c].role.Choice? && s1[c].user == s0[c].user.(isSet := true, pick := Some(i))
        && forall j :: 0 <= j < |table| && j != c ==>
             s1[j].user == if j in table[c].role.members && s0[j].visible != NO
                           then s0[j].user.(isSet := true) else s0[j].user
      else s1 == s0
    }

    lemma SameUsers(s0: Cells, s1: Cells, s2: Cells, i: nat, val: Tristate)
      requires Shape(s0) && |s1| == |s2| == |table| && i < |table| && KnownUsers(table, UsersOf(s0))
      requires KnownDecl(table, i) && Picked(s0, s1, i, val)
      requires s2 == s1[i := s1[i].(user := s1[i].user.(isSet := true, tri := val))]
      ensures UsersOf(s2) == SetTri(table, UsersOf(s0), Visible(s0), i, val)
    {
      var us := SetTri(table, UsersOf(s0), Visible(s0), i, val);
      forall j | 0 <= j < |table| ensures UsersOf(s2)[j] == us[j] {
      }
    }

    ghost function Visible(cs: Cells): (vis: seq<Tristate>)
      ensures |vis| == |cs| && forall j :: 0 <= j < |cs| ==> vis[j] == cs[j].visible
    {
      seq(|cs|, j requires 0 <= j < |cs| => cs[j].visible)
    }

    /** sym_set_tristate_value of an evaluated symbol, whether the others are evaluated or not. A
        change of value starts a new round. */
    method SetTristateValue(i: nat, val: Tristate) returns (accepted: bool)
      requires Valid() && i < |table| && IsTri(table[i].stype)
      requires ranked ==> InputEvaluated(cells, i, val)
      modifies this
      ensures Valid() && KnownUsers(table, UsersOf(old(cells)))
      ensures accepted == (old(cells[i].tri) == val || old(TristateWithinRange(i, val)))
      ensures !accepted ==> cells == old(cells) && users == old(users) && goal == old(goal)
      ensures accepted ==> Entered() == SetTri(table, UsersOf(old(cells)), Visible(old(cells)), i, val)
      ensures accepted && old(cells[i].tri) != val ==>
        users == Entered() && forall j :: 0 <= j < |table| ==> !cells[j].valid
      ensures accepted && old(cells[i].tri) == val ==>
        users == old(users) && goal == old(goal) &&
        forall j :: 0 <= j < |table| ==> cells[j] == old(cells[j]).(user := cells[j].user)
    {
      assert KnownDecl(table, i);
      var oldval := cells[i].tri;
      EnteredIsKnown(cells);
      if oldval != val && !TristateWithinRange(i, val) {
        return false;
      }
      accepted := true;
      EnterTri(i, val);
      if oldval != val {
        ClearAllValid();
      }
    }

    lemma EnteredIsKnown(cs: Cells)
      requires Shape(cs)
      ensures KnownUsers(table, UsersOf(cs))
    {
    }

    /** The solution for everything entered so far, also for input that started no new round. */
    ghost function Pending(): (v: Assignment)
      requires Shape(cells) && |rank| == |table|
      reads this
      ensures KnownUsers(table, Entered()) && v == Meaning(table, Entered(), rank, modules)
    {
      EnteredIsKnown(cells);
      Meaning(table, Entered(), rank, modules)
    }

    lemma PendingSolves()
      requires Shape(cells) && Ranked(table, rank)
      ensures KnownUsers(table, Entered()) && Solution(table, Entered(), Pending()) && Pending().modules == modules
    {
      EnteredIsKnown(cells);
      SolutionExists(table, Entered(), rank, modules);
    }

    /** The value that sym_calc_value computes after sym_set_tristate_value has accepted one, for a
        symbol outside choices. It is the value set exactly if that lies in the range which the
        input entered before gives, or is the lowest value possible; where no input below the
        symbol is pending, it always is. */
    method SetThenCalc(i: nat, val: Tristate) returns (accepted: bool)
      requires Valid() && i < |table| && IsTri(table[i].stype) && table[i].role.Plain? && ranked && cells[i].valid
      modifies this
      ensures Valid() && cells[i].valid
      ensures accepted == (old(cells[i].tri) == val || old(TristateWithinRange(i, val)))
      ensures !accepted || old(cells[i].tri) == val ==> cells[i].tri == old(cells[i].tri)
      ensures accepted && old(cells[i].tri) != val ==>
        var v, d := old(Pending()), table[i];
        cells[i].tri == val <==>
        WithinRange(d, Visibility(d, v), RevDep(d, v), modules, val) || Lowest(d, old(Entered())[i], v) == val
      ensures accepted && (forall j :: 0 <= j < |table| && rank[j] < rank[i] ==> old(cells[j].user) == old(users[j])) ==>
        cells[i].tri == val
    {
      ghost var v, us, us0, vis, goal0 := Pending(), Entered(), users, Visible(cells), goal;
      var oldval := cells[i].tri;
      assert Done(i, cells[i]);
      PendingSolves();
      accepted := SetTristateValue(i, val);
      if accepted && oldval != val {
        Calc(i);
        assert Done(i, cells[i]) && SolvedAt(table, users, i, goal);
        SetExactly(table, us, vis, rank, i, val, v, goal);
        if forall j :: 0 <= j < |table| && rank[j] < rank[i] ==> us[j] == us0[j] {
          InputsAgreeBelow(table, us0, us, rank, goal0, v, rank[i]);
          OwnAgree(table, rank, i, goal0, v);
        }
      }
    }

    /** Choosing a member that is not on, and evaluating its choice: the member is selected exactly
        if the choice is on for the input entered before and the member is visible then. */
    method ChooseThenCalc(i: nat) returns (accepted: bool)
      requires Valid() && i < |table| && table[i].role.Member? && ranked && InputEvaluated(cells, i, YES)
      modifies this
      ensures Valid() && KnownDecl(table, i)
      ensures accepted == (old(cells[i].tri) == YES || old(TristateWithinRange(i, YES)))
      ensures accepted && old(cells[i].tri) != YES ==>
        var v, c := old(Pending()), table[i].role.choice;
        && cells[c].valid && KnownDecl(table, c)
        && (cells[c].pick == Some(i) <==>
              && OwnTri(table[c], old(Entered())[c].(isSet := true, pick := Some(i)), v) == YES
              && Visibility(table[i], With(table, c, v)) != NO)
    {
      assert KnownDecl(table, i);
      ghost var v, us, vis := Pending(), Entered(), Visible(cells);
      var oldval := cells[i].tri;
      PendingSolves();
      accepted := SetTristateValue(i, YES);
      if accepted && oldval != YES {
        var c := table[i].role.choice;
        assert KnownDecl(table, c);
        Calc(c);
        assert Done(c, cells[c]);
        ChoosingTakesEffect(table, us, vis, rank, i, v, goal);
      }
    }

    /** Whatever was set before: once a bool choice and its members are evaluated, exactly one of
        them is on if the choice is, and none otherwise. */
    method CalcChoiceMembers(c: nat)
      requires Valid() && c < |table| && ranked && BoolChoice(table, c)
      modifies this`cells
      ensures Valid() && KnownDecl(table, c) && cells[c].valid
      ensures cells[c].tri == YES ==>
        exists m :: m in table[c].role.members && cells[m].visible == YES &&
          forall k :: k in table[c].role.members ==> cells[k].tri == if k == m then YES else NO
      ensures cells[c].tri != YES ==> forall k :: k in table[c].role.members ==> cells[k].tri == NO
    {
      assert KnownDecl(table, c);
      var ms := table[c].role.members;
      CalcAll(ms + [c]);
      assert (ms + [c])[|ms|] == c && forall k :: 0 <= k < |ms| ==> (ms + [c])[k] == ms[k];
      OneCellOn(c);
    }

    lemma OneCellOn(c: nat)
      requires Valid() && c < |table| && ranked && BoolChoice(table, c) && KnownDecl(table, c)
      requires cells[c].valid && Done(c, cells[c])
      requires forall m :: m in table[c].role.members ==> cells[m].valid && Done(m, cells[m])
      ensures cells[c].tri == YES ==>
        exists m :: m in table[c].role.members && cells[m].visible == YES &&
          forall k :: k in table[c].role.members ==> cells[k].tri == if k == m then YES else NO
      ensures cells[c].tri != YES ==> forall k :: k in table[c].role.members ==> cells[k].tri == NO
    {
      hide TriValue, Visibility, Selected, Meaning, RevDep;
      SolutionExists(table, users, rank, modules);
      ExactlyOneMember(table, users, c, goal);
      AsSolved(c);
      forall m | m in table[c].role.members
        ensures cells[m].tri == goal.tri(SymbolAt(table, m)) && cells[m].visible == Visibility(table[m], goal)
      {
        assert KnownDecl(table, m);
        AsSolved(m);
      }
    }

    lemma AsSolved(i: nat)
      requires Valid() && ranked && i < |table| && IsTri(table[i].stype) && Done(i, cells[i])
      ensures cells[i].tri == goal.tri(SymbolAt(table, i))
      ensures cells[i].visible == Visibility(table[i], goal) && cells[i].revTri == RevDep(table[i], goal)
    {
      assert SolvedAt(table, users, i, goal);
    }
  }
}
