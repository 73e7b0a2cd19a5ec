/** What an accepted value does not promise: input that equals the current value is recorded without
    a new round, and can take a later value out of range. */
module PendingInput {
  import opened Tristates
  import opened Expressions
  import opened Semantics
  import opened Ranking
  import opened Evaluator

  const NO_USER := User(false, NO, "", None)

  function A(): Symbol { Config(1, ThreeState) }

  /** `config B`, tristate, `m` by default; `config A`, tristate, with a prompt if B and `y` by
      default; `config S`, bool, with a prompt if A=y. */
  function Example(): Table {
    [Decl("B", ThreeState, Plain, false, [], [Default(Sym(M), None)], [], None, None),
     Decl("A", ThreeState, Plain, false, [Some(Sym(Config(0, ThreeState)))], [Default(Sym(Y), None)], [], None, None),
     Decl("S", Boolean, Plain, false, [Some(Equal(A(), Y))], [], [], None, None)]
  }

  function Input(a: bool, s: bool): Users {
    [NO_USER, NO_USER.(isSet := a, tri := if a then YES else NO), NO_USER.(isSet := s, tri := if s then YES else NO)]
  }

  lemma Mentions(d: Decl)
    requires |d.prompts| <= 1 && |d.defaults| <= 1 && d.ranges == []
    ensures PromptSymbols(d) == if d.prompts == [] then {} else OptSymbols(d.prompts[0])
    ensures DefaultSymbols(d) == if d.defaults == [] then {} else Symbols(d.defaults[0].value)
    ensures ConditionSymbols(d) == if d.defaults == [] then {} else OptSymbols(d.defaults[0].cond)
    ensures RangeSymbols(d) == {}
  {
  }

  lemma ExampleIsRanked()
    ensures WellFormed(Example()) && Ranked(Example(), [0, 1, 2])
    ensures forall a, s :: KnownUsers(Example(), Input(a, s))
  {
    var t := Example();
    forall i: nat | i < 3 ensures KnownDecl(t, i) {
      Mentions(t[i]);
    }
    forall i: nat | i < 3 ensures RankedDecl(t, [0, 1, 2], i) {
      Mentions(t[i]);
    }
  }

  /** The values of A and S, and their visibilities, under each input. */
  lemma ExampleValues(a: bool, s: bool, v: Assignment)
    requires WellFormed(Example()) && KnownUsers(Example(), Input(a, s)) && v.modules == YES
    requires Solution(Example(), Input(a, s), v)
    ensures var t := Example();
            && Visibility(t[1], v) == MOD && RevDep(t[1], v) == NO && v.tri(SymbolAt(t, 1)) == (if a then MOD else YES)
            && Visibility(t[2], v) == (if a then NO else YES) && RevDep(t[2], v) == NO
            && v.tri(SymbolAt(t, 2)) == (if s && !a then YES else NO)
  {
    var t, us := Example(), Input(a, s);
    TextsDiffer();
    assert SolvedAt(t, us, 0, v) && SolvedAt(t, us, 1, v) && SolvedAt(t, us, 2, v);
    assert PromptValue(t[0].prompts, v, 0) == NO;
    assert FirstDefault(t[0].defaults, v, 0) == Some((Sym(M), YES));
    assert v.tri(SymbolAt(t, 0)) == MOD;
    assert PromptValue(t[1].prompts, v, 0) == MOD;
    assert FirstDefault(t[1].defaults, v, 0) == Some((Sym(Y), YES));
    assert PromptValue(t[2].prompts, v, 0) == FromBool(StrOf(A(), v) == StrOf(Y, v));
  }

  lemma InputKept(e: Evaluator, s0: Cells)
    requires |s0| == |e.cells| == |e.table| && forall j :: 0 <= j < |s0| ==> e.table[j].role.Plain? && e.UserKept(j, s0[j], e.cells[j])
    ensures e.Entered() == e.UsersOf(s0)
  {
  }

  method CalcBoth(e: Evaluator, ghost a: bool, ghost s: bool)
    requires e.Valid() && e.ranked && e.table == Example() && e.modules == YES && e.users == Input(a, s)
    modifies e`cells
    ensures e.Valid() && |e.cells| == 3 && e.cells[1].valid && e.cells[2].valid && e.Entered() == old(e.Entered())
    ensures e.cells[1].tri == (if a then MOD else YES) && e.cells[1].visible == MOD && e.cells[1].revTri == NO
    ensures e.cells[2].tri == (if s && !a then YES else NO) && e.cells[2].visible == (if a then NO else YES) && e.cells[2].revTri == NO
  {
    assert |e.cells| == 3 && forall j :: 0 <= j < 3 ==> e.table[j].role.Plain?;
    hide *;
    e.Calc(1);
    e.Calc(2);
    InputKept(e, old(e.cells));
    e.AsSolved(1);
    e.AsSolved(2);
    ExampleValues(a, s, e.goal);
  }

  /** A is `y` with visibility `m`. Setting it to `y` is accepted; setting S to `y` is accepted too.
      The recalculation then finds A at `m` and S, whose prompt has gone, at `n`. */
  method SetTwice() returns (first: bool, second: bool, a: Tristate, s: Tristate)
    ensures first && second && a == MOD && s == NO
  {
    ExampleIsRanked();
    InputSteps();
    hide *;
    var e := new Evaluator(Example(), YES, Input(false, false), Some([0, 1, 2]));
    CalcBoth(e, false, false);
    first := SetPlain(e, 1, YES, Input(true, false));
    InRange(e);
    second := SetPlain(e, 2, YES, Input(true, true));
    CalcBoth(e, true, true);
    a, s := e.cells[1].tri, e.cells[2].tri;
  }

  lemma InputSteps()
    ensures |Example()| == 3 && forall j :: 0 <= j < 3 ==> Example()[j].role.Plain? && IsTri(Example()[j].stype)
    ensures NO != YES && |Input(false, false)| == |Input(true, false)| == |Input(true, true)| == 3
    ensures Input(true, false) == Input(false, false)[1 := Input(false, false)[1].(isSet := true, tri := YES)]
    ensures Input(true, true) == Input(true, false)[2 := Input(true, false)[2].(isSet := true, tri := YES)]
  {
  }

  lemma InRange(e: Evaluator)
    requires e.table == Example() && e.modules == YES && |e.cells| == 3 && e.cells[2].visible == YES && e.cells[2].revTri == NO
    ensures e.TristateWithinRange(2, YES)
  {
  }

  /** A value that is current, or a new one in range, for input `us` afterwards. */
  method SetPlain(e: Evaluator, i: nat, val: Tristate, ghost us: Users) returns (accepted: bool)
    requires e.Valid() && i < |e.table| && e.table[i].role.Plain? && IsTri(e.table[i].stype) && e.cells[i].valid
    requires e.cells[i].tri == val || e.TristateWithinRange(i, val)
    requires |us| == |e.cells| && us == e.Entered()[i := e.Entered()[i].(isSet := true, tri := val)]
    modifies e
    ensures e.Valid() && accepted && e.Entered() == us && |e.cells| == |us|
    ensures old(e.cells[i].tri) != val ==> e.users == us
    ensures old(e.cells[i].tri) == val ==>
      forall j :: 0 <= j < |e.cells| ==> e.cells[j] == old(e.cells[j]).(user := e.cells[j].user)
  {
    accepted := e.SetTristateValue(i, val);
  }
}
