/** Tables without recursive dependencies: every symbol has a rank above those of the symbols it
    is computed from. Such a table has exactly one solution for every user input. */
module Ranking {
  import opened Tristates
  import opened RankNumbers
  import opened Expressions
  import opened Semantics

  predicate Below(ss: set<Symbol>, rank: Ranks, r: nat) {
    forall s :: s in ss && s.Config? ==> s.id < |rank| && rank[s.id] < r
  }

  /** The prompts of a member mention the choice (menu_finalize conjoins it to them) and what is
      ranked below the choice. */
  predicate MemberPromptsBelow(t: Table, rank: Ranks, m: nat, c: nat)
    requires m < |t| && c < |t| && |rank| == |t|
  {
    Below(PromptSymbols(t[m]) - {SymbolAt(t, c)}, rank, rank[c])
  }

  ghost predicate RankedDecl(t: Table, rank: Ranks, i: nat)
    requires WellFormed(t) && |rank| == |t| && i < |t|
  {
    var d := t[i];
    assert KnownDecl(t, i);
    match d.role
    case Plain => Below(DeclSymbols(d), rank, rank[i])
    case Choice(ms) =>
      Below(PromptSymbols(d) + ConditionSymbols(d) + OptSymbols(d.dirDep) + OptSymbols(d.revDep), rank, rank[i])
    case Member(c) =>
      && rank[c] < rank[i]
      && SymbolAt(t, c) in PromptSymbols(d) && MemberPromptsBelow(t, rank, i, c)
      && Below(DefaultSymbols(d) + ConditionSymbols(d), rank, rank[i])
  }

  ghost predicate Ranked(t: Table, rank: Ranks)
    requires WellFormed(t)
  {
    |rank| == |t| && forall i :: 0 <= i < |t| ==> RankedDecl(t, rank, i)
  }

  // ---------------------------------------------------------------- values depend on what is below

  ghost predicate AgreeBelow(t: Table, rank: Ranks, v: Assignment, w: Assignment, r: nat)
    requires |rank| == |t|
  {
    && v.modules == w.modules
    && forall i :: 0 <= i < |t| && rank[i] < r ==> SameAt(SymbolAt(t, i), v, w)
  }

  lemma AgreeOnBelow(t: Table, rank: Ranks, ss: set<Symbol>, v: Assignment, w: Assignment, r: nat)
    requires |rank| == |t| && AgreeBelow(t, rank, v, w, r)
    requires Below(ss, rank, r) && forall s :: s in ss ==> KnownSymbol(t, s)
    ensures AgreeOn(ss, v, w)
  {
    forall s | s in ss && s.Config? ensures SameAt(s, v, w) {
      assert s == SymbolAt(t, s.id);
    }
  }

  lemma {:induction false} PromptsAgree(d: Decl, v: Assignment, w: Assignment, k: nat)
    requires k <= |d.prompts| && AgreeOn(PromptSymbols(d), v, w)
    ensures PromptValue(d.prompts, v, k) == PromptValue(d.prompts, w, k)
    decreases |d.prompts| - k
  {
    if k < |d.prompts| {
      assert forall s :: s in OptSymbols(d.prompts[k]) ==> s in PromptSymbols(d);
      EvalOptAgrees(d.prompts[k], v, w);
      PromptsAgree(d, v, w, k + 1);
    }
  }

  lemma {:induction false} DefaultsAgree(d: Decl, v: Assignment, w: Assignment, k: nat)
    requires k <= |d.defaults| && AgreeOn(ConditionSymbols(d), v, w)
    ensures FirstDefault(d.defaults, v, k) == FirstDefault(d.defaults, w, k)
    ensures FirstDefault(d.defaults, v, k).Some? ==>
      exists j :: 0 <= j < |d.defaults| && FirstDefault(d.defaults, v, k).value.0 == d.defaults[j].value
    decreases |d.defaults| - k
  {
    if k < |d.defaults| {
      assert forall s :: s in OptSymbols(d.defaults[k].cond) ==> s in ConditionSymbols(d);
      EvalOptAgrees(d.defaults[k].cond, v, w);
      DefaultsAgree(d, v, w, k + 1);
    }
  }

  lemma {:induction false} RangesAgree(d: Decl, v: Assignment, w: Assignment, k: nat)
    requires k <= |d.ranges| && AgreeOn(RangeSymbols(d), v, w)
    ensures FirstRange(d.ranges, v, k) == FirstRange(d.ranges, w, k)
    ensures FirstRange(d.ranges, v, k).Some? ==>
      {FirstRange(d.ranges, v, k).value.low, FirstRange(d.ranges, v, k).value.high} <= RangeSymbols(d)
    decreases |d.ranges| - k
  {
    if k < |d.ranges| {
      var r := d.ranges[k];
      assert forall s :: s in OptSymbols(r.cond) + {r.low, r.high} ==> s in RangeSymbols(d);
      assert r.low in OptSymbols(r.cond) + {r.low, r.high} && r.high in OptSymbols(r.cond) + {r.low, r.high};
      EvalOptAgrees(r.cond, v, w);
      RangesAgree(d, v, w, k + 1);
    }
  }

  lemma VisibilityAgrees(d: Decl, v: Assignment, w: Assignment)
    requires AgreeOn(PromptSymbols(d), v, w)
    ensures Visibility(d, v) == Visibility(d, w)
  {
    PromptsAgree(d, v, w, 0);
  }

  /** The value by prompt, defaults and selects. */
  lemma OwnTriAgrees(d: Decl, u: User, v: Assignment, w: Assignment)
    requires AgreeOn(PromptSymbols(d), v, w)
    requires !d.role.Member? ==> AgreeOn(OptSymbols(d.revDep), v, w)
    requires !d.role.Choice? ==> AgreeOn(ConditionSymbols(d) + DefaultSymbols(d), v, w)
    ensures OwnTri(d, u, v) == OwnTri(d, u, w)
  {
    VisibilityAgrees(d, v, w);
    if !d.role.Member? && d.revDep.Some? {
      EvalAgrees(d.revDep.value, v, w);
    }
    assert RevDep(d, v) == RevDep(d, w);
    if !d.role.Choice? {
      DefaultTriAgrees(d, v, w);
    }
  }

  lemma DefaultTriAgrees(d: Decl, v: Assignment, w: Assignment)
    requires AgreeOn(ConditionSymbols(d) + DefaultSymbols(d), v, w)
    ensures DefaultTri(d, v) == DefaultTri(d, w)
  {
    DefaultsAgree(d, v, w, 0);
    var f := FirstDefault(d.defaults, v, 0);
    if f.Some? {
      var j :| 0 <= j < |d.defaults| && f.value.0 == d.defaults[j].value;
      assert forall s :: s in Symbols(d.defaults[j].value) ==> s in DefaultSymbols(d);
      EvalAgrees(f.value.0, v, w);
    }
  }

  lemma TextAgrees(d: Decl, u: User, v: Assignment, w: Assignment)
    requires AgreeOn(DeclSymbols(d), v, w)
    ensures TextValue(d, u, v) == TextValue(d, u, w)
  {
    VisibilityAgrees(d, v, w);
    DefaultTextAgrees(d, v, w);
    ValidatedAgrees(d, if Visibility(d, v) != NO && u.isSet then u.text else DefaultText(d, v), v, w);
  }

  lemma DefaultTextAgrees(d: Decl, v: Assignment, w: Assignment)
    requires AgreeOn(DefaultSymbols(d) + ConditionSymbols(d), v, w)
    ensures DefaultText(d, v) == DefaultText(d, w)
  {
    DefaultsAgree(d, v, w, 0);
    var f := FirstDefault(d.defaults, v, 0);
    if f.Some? && f.value.0.Sym? {
      var j :| 0 <= j < |d.defaults| && f.value.0 == d.defaults[j].value;
      assert f.value.0.s in Symbols(d.defaults[j].value);
      assert f.value.0.s in DefaultSymbols(d);
    }
  }

  lemma ValidatedAgrees(d: Decl, text: string, v: Assignment, w: Assignment)
    requires AgreeOn(RangeSymbols(d), v, w)
    ensures Validated(d, text, v) == Validated(d, text, w)
  {
    RangesAgree(d, v, w, 0);
    var r := FirstRange(d.ranges, v, 0);
    if r.Some? {
      assert r.value.low in RangeSymbols(d) && r.value.high in RangeSymbols(d);
    }
  }

  /** What a choice looks at to find its selection. */
  ghost predicate MembersAgree(t: Table, c: nat, v: Assignment, w: Assignment)
    requires WellFormed(t) && c < |t| && t[c].role.Choice?
  {
    assert KnownDecl(t, c);
    forall m :: m in t[c].role.members ==> AgreeOn(PromptSymbols(t[m]), v, w)
  }

  lemma {:induction false} FirstVisibleAgrees(t: Table, ms: seq<nat>, v: Assignment, w: Assignment)
    requires forall k :: 0 <= k < |ms| ==> ms[k] < |t| && AgreeOn(PromptSymbols(t[ms[k]]), v, w)
    ensures FirstVisible(t, ms, v) == FirstVisible(t, ms, w)
  {
    if ms != [] {
      VisibilityAgrees(t[ms[0]], v, w);
      FirstVisibleAgrees(t, ms[1..], v, w);
    }
  }

  lemma {:induction false} VisibleDefaultAgrees(t: Table, c: nat, v: Assignment, w: Assignment, k: nat)
    requires WellFormed(t) && c < |t| && t[c].role.Choice? && KnownDecl(t, c)
    requires MembersAgree(t, c, v, w) && AgreeOn(ConditionSymbols(t[c]), v, w) && k <= |t[c].defaults|
    ensures VisibleDefault(t, t[c].defaults, v, k) == VisibleDefault(t, t[c].defaults, w, k)
    decreases |t[c].defaults| - k
  {
    var ds := t[c].defaults;
    if k < |ds| {
      assert forall s :: s in OptSymbols(ds[k].cond) ==> s in ConditionSymbols(t[c]);
      EvalOptAgrees(ds[k].cond, v, w);
      VisibilityAgrees(t[ds[k].value.s.id], v, w);
      VisibleDefaultAgrees(t, c, v, w, k + 1);
    }
  }

  lemma PickAgrees(t: Table, us: Users, c: nat, v: Assignment, w: Assignment)
    requires WellFormed(t) && KnownUsers(t, us) && c < |t| && t[c].role.Choice?
    requires MembersAgree(t, c, v, w) && AgreeOn(ConditionSymbols(t[c]), v, w)
    ensures Pick(t, us, c, v) == Pick(t, us, c, w)
  {
    assert KnownDecl(t, c);
    if us[c].pick.Some? {
      VisibilityAgrees(t[us[c].pick.value], v, w);
    }
    VisibleDefaultAgrees(t, c, v, w, 0);
    FirstVisibleAgrees(t, t[c].role.members, v, w);
  }

  /** A symbol's value is a function of the values below its rank. */
  lemma ValueAgrees(t: Table, us: Users, rank: Ranks, i: nat, v: Assignment, w: Assignment)
    requires WellFormed(t) && KnownUsers(t, us) && Ranked(t, rank) && i < |t|
    requires AgreeBelow(t, rank, v, w, rank[i])
    ensures TriValue(t, us, i, v) == TriValue(t, us, i, w)
    ensures t[i].role.Plain? ==> TextValue(t[i], us[i], v) == TextValue(t[i], us[i], w)
  {
    var d := t[i];
    assert RankedDecl(t, rank, i) && KnownDecl(t, i);
    match d.role
    case Plain =>
      AgreeOnBelow(t, rank, DeclSymbols(d), v, w, rank[i]);
      OwnTriAgrees(d, us[i], v, w);
      TextAgrees(d, us[i], v, w);
    case Choice(_) =>
      ChoiceAgrees(t, us, rank, i, v, w);
    case Member(c) =>
      MemberAgrees(t, us, rank, i, c, v, w);
  }

  lemma ChoiceAgrees(t: Table, us: Users, rank: Ranks, c: nat, v: Assignment, w: Assignment)
    requires WellFormed(t) && KnownUsers(t, us) && Ranked(t, rank) && c < |t| && t[c].role.Choice?
    requires AgreeBelow(t, rank, v, w, rank[c])
    ensures OwnTri(t[c], us[c], v) == OwnTri(t[c], us[c], w)
    ensures Selected(t, us, c, v) == Selected(t, us, c, w)
  {
    var d := t[c];
    assert RankedDecl(t, rank, c) && KnownDecl(t, c);
    AgreeOnBelow(t, rank, PromptSymbols(d) + ConditionSymbols(d) + OptSymbols(d.dirDep) + OptSymbols(d.revDep), v, w, rank[c]);
    OwnTriAgrees(d, us[c], v, w);
    var v1, w1 := With(t, c, v), With(t, c, w);
    forall m | m in d.role.members ensures AgreeOn(PromptSymbols(t[m]), v1, w1) {
      assert RankedDecl(t, rank, m) && KnownDecl(t, m);
      AgreeOnBelow(t, rank, PromptSymbols(t[m]) - {SymbolAt(t, c)}, v, w, rank[c]);
      WithAgrees(t, c, PromptSymbols(t[m]), v, w);
    }
    WithAgrees(t, c, ConditionSymbols(d), v, w);
    PickAgrees(t, us, c, v1, w1);
  }

  lemma WithAgrees(t: Table, c: nat, ss: set<Symbol>, v: Assignment, w: Assignment)
    requires c < |t| && IsTri(t[c].stype)
    requires AgreeOn(ss - {SymbolAt(t, c)}, v, w)
    ensures AgreeOn(ss, With(t, c, v), With(t, c, w))
  {
    forall s | s in ss && s.Config? ensures SameAt(s, With(t, c, v), With(t, c, w)) {
      if s != SymbolAt(t, c) {
        assert s in ss - {SymbolAt(t, c)};
        assert SameAt(s, v, w);
      }
    }
  }

  lemma MemberAgrees(t: Table, us: Users, rank: Ranks, i: nat, c: nat, v: Assignment, w: Assignment)
    requires WellFormed(t) && KnownUsers(t, us) && Ranked(t, rank) && i < |t| && t[i].role == Member(c)
    requires AgreeBelow(t, rank, v, w, rank[i])
    ensures TriValue(t, us, i, v) == TriValue(t, us, i, w)
  {
    var d := t[i];
    assert RankedDecl(t, rank, i) && KnownDecl(t, i);
    AgreeOnBelow(t, rank, DefaultSymbols(d) + ConditionSymbols(d), v, w, rank[i]);
    assert Below(PromptSymbols(d), rank, rank[i]);
    AgreeOnBelow(t, rank, PromptSymbols(d), v, w, rank[i]);
    VisibilityAgrees(d, v, w);
    OwnTriAgrees(d, us[i], v, w);
    ChoiceAgrees(t, us, rank, c, v, w);
  }

  // ---------------------------------------------------------------- exactly one solution

  ghost predicate SolvesBelow(t: Table, us: Users, rank: Ranks, v: Assignment, r: nat)
    requires WellFormed(t) && KnownUsers(t, us) && |rank| == |t|
  {
    forall i :: 0 <= i < |t| && rank[i] < r ==> SolvedAt(t, us, i, v)
  }

  /** Two solutions agree on the symbols of the table. */
  lemma {:induction false} SolutionUnique(t: Table, us: Users, rank: Ranks, v: Assignment, w: Assignment, i: nat)
    requires WellFormed(t) && KnownUsers(t, us) && Ranked(t, rank) && i < |t|
    requires v.modules == w.modules && Solution(t, us, v) && Solution(t, us, w)
    ensures SameAt(SymbolAt(t, i), v, w)
    decreases rank[i]
  {
    forall j | 0 <= j < |t| && rank[j] < rank[i] ensures SameAt(SymbolAt(t, j), v, w) {
      SolutionUnique(t, us, rank, v, w, j);
    }
    ValueAgrees(t, us, rank, i, v, w);
    TextOnlyPlain(t, i);
    assert SolvedAt(t, us, i, v) && SolvedAt(t, us, i, w);
  }

  lemma TextOnlyPlain(t: Table, i: nat)
    requires WellFormed(t) && i < |t|
    ensures !IsTri(t[i].stype) ==> t[i].role.Plain?
  {
    assert KnownDecl(t, i);
  }

  /** The memo-free recursive evaluation: the values of all symbols ranked below `k`, and
      nothing for the others. */
  ghost function Approximation(t: Table, us: Users, rank: Ranks, modules: Tristate, k: nat): (v: Assignment)
    requires WellFormed(t) && KnownUsers(t, us) && |rank| == |t|
    ensures v.modules == modules
    decreases k
  {
    if k == 0 then Assignment(modules, s => NO, s => "")
    else
      var p := Approximation(t, us, rank, modules, k - 1);
      Assignment(modules,
                 s => if Reached(t, rank, s, k) && IsTri(s.stype) then TriValue(t, us, s.id, p) else NO,
                 s => if Reached(t, rank, s, k) && !IsTri(s.stype) then TextValue(t[s.id], us[s.id], p) else "")
  }

  predicate Reached(t: Table, rank: Ranks, s: Symbol, k: nat)
    requires |rank| == |t|
  {
    s.Config? && s.id < |t| && s.stype == t[s.id].stype && rank[s.id] < k
  }

  lemma ApproximationAt(t: Table, us: Users, rank: Ranks, modules: Tristate, k: nat, i: nat)
    requires WellFormed(t) && KnownUsers(t, us) && |rank| == |t| && i < |t| && rank[i] < k
    ensures var v, p := Approximation(t, us, rank, modules, k), Approximation(t, us, rank, modules, k - 1);
            if IsTri(t[i].stype) then v.tri(SymbolAt(t, i)) == TriValue(t, us, i, p)
            else v.str(SymbolAt(t, i)) == TextValue(t[i], us[i], p)
  {
    assert Reached(t, rank, SymbolAt(t, i), k);
  }

  /** Two assignments that agree below a symbol give it the same value. */
  lemma SameValueAt(t: Table, us: Users, rank: Ranks, i: nat, p: Assignment, v: Assignment, k: nat)
    requires WellFormed(t) && KnownUsers(t, us) && Ranked(t, rank) && i < |t| && rank[i] <= k
    requires AgreeBelow(t, rank, p, v, k)
    ensures TriValue(t, us, i, p) == TriValue(t, us, i, v)
    ensures !IsTri(t[i].stype) ==> TextValue(t[i], us[i], p) == TextValue(t[i], us[i], v)
  {
    ValueAgrees(t, us, rank, i, p, v);
    TextOnlyPlain(t, i);
  }

  /** Going one rank further changes nothing below. */
  lemma {:induction false} ApproximationStable(t: Table, us: Users, rank: Ranks, modules: Tristate, k: nat)
    requires WellFormed(t) && KnownUsers(t, us) && |rank| == |t| && Ranked(t, rank)
    ensures AgreeBelow(t, rank, Approximation(t, us, rank, modules, k), Approximation(t, us, rank, modules, k + 1), k)
    decreases k
  {
    hide *;
    if k > 0 {
      ApproximationStable(t, us, rank, modules, k - 1);
      NextStable(t, us, rank, modules, k);
    } else {
      NothingBelow(t, rank, Approximation(t, us, rank, modules, k), Approximation(t, us, rank, modules, k + 1));
    }
  }

  lemma NothingBelow(t: Table, rank: Ranks, v: Assignment, w: Assignment)
    requires |rank| == |t| && v.modules == w.modules
    ensures AgreeBelow(t, rank, v, w, 0)
  {
  }

  lemma NextStable(t: Table, us: Users, rank: Ranks, modules: Tristate, k: nat)
    requires WellFormed(t) && KnownUsers(t, us) && |rank| == |t| && Ranked(t, rank) && k > 0
    requires AgreeBelow(t, rank, Approximation(t, us, rank, modules, k - 1), Approximation(t, us, rank, modules, k), k - 1)
    ensures AgreeBelow(t, rank, Approximation(t, us, rank, modules, k), Approximation(t, us, rank, modules, k + 1), k)
  {
    hide Approximation, WellFormed, KnownUsers, Ranked, SameAt;
    forall i | 0 <= i < |t| && rank[i] < k
      ensures SameAt(SymbolAt(t, i), Approximation(t, us, rank, modules, k), Approximation(t, us, rank, modules, k + 1))
    {
      StableAt(t, us, rank, modules, k, i);
    }
  }

  lemma StableAt(t: Table, us: Users, rank: Ranks, modules: Tristate, k: nat, i: nat)
    requires WellFormed(t) && KnownUsers(t, us) && Ranked(t, rank) && k > 0 && i < |t| && rank[i] < k
    requires AgreeBelow(t, rank, Approximation(t, us, rank, modules, k - 1), Approximation(t, us, rank, modules, k), k - 1)
    ensures SameAt(SymbolAt(t, i), Approximation(t, us, rank, modules, k), Approximation(t, us, rank, modules, k + 1))
  {
    hide Approximation, TriValue, TextValue, AgreeBelow;
    SameValueAt(t, us, rank, i, Approximation(t, us, rank, modules, k - 1), Approximation(t, us, rank, modules, k), k - 1);
    ApproximationAt(t, us, rank, modules, k, i);
    ApproximationAt(t, us, rank, modules, k + 1, i);
  }

  lemma ApproximationSolves(t: Table, us: Users, rank: Ranks, modules: Tristate, k: nat)
    requires WellFormed(t) && KnownUsers(t, us) && Ranked(t, rank)
    ensures SolvesBelow(t, us, rank, Approximation(t, us, rank, modules, k), k)
  {
    if k > 0 {
      var v, p := Approximation(t, us, rank, modules, k), Approximation(t, us, rank, modules, k - 1);
      ApproximationStable(t, us, rank, modules, k - 1);
      forall i | 0 <= i < |t| && rank[i] < k ensures SolvedAt(t, us, i, v) {
        SameValueAt(t, us, rank, i, p, v, k - 1);
        ApproximationAt(t, us, rank, modules, k, i);
      }
    }
  }

  /** Neither a bool symbol, nor any symbol without modules, has the value `m`. */
  lemma NeverMod(t: Table, us: Users, i: nat, v: Assignment)
    requires WellFormed(t) && KnownUsers(t, us) && i < |t| && IsTri(t[i].stype)
    ensures t[i].stype.Boolean? || v.modules == NO ==> TriValue(t, us, i, v) != MOD
  {
    assert KnownDecl(t, i);
  }

  lemma ApproximationLegal(t: Table, us: Users, rank: Ranks, modules: Tristate, k: nat)
    requires WellFormed(t) && KnownUsers(t, us) && |rank| == |t|
    ensures Legal(Approximation(t, us, rank, modules, k))
  {
    var v := Approximation(t, us, rank, modules, k);
    if k > 0 {
      var p := Approximation(t, us, rank, modules, k - 1);
      forall s: Symbol | s.IsTristateLike() && (s.stype.Boolean? || modules == NO) ensures v.tri(s) != MOD {
        if Reached(t, rank, s, k) {
          NeverMod(t, us, s.id, p);
        }
      }
    }
  }

  ghost function Meaning(t: Table, us: Users, rank: Ranks, modules: Tristate): Assignment
    requires WellFormed(t) && KnownUsers(t, us) && |rank| == |t|
  {
    Approximation(t, us, rank, modules, MaxRank(rank) + 1)
  }

  /** A table without recursive dependencies has a solution, and it is legal. */
  lemma SolutionExists(t: Table, us: Users, rank: Ranks, modules: Tristate)
    requires WellFormed(t) && KnownUsers(t, us) && Ranked(t, rank)
    ensures Solution(t, us, Meaning(t, us, rank, modules))
    ensures Legal(Meaning(t, us, rank, modules)) && Meaning(t, us, rank, modules).modules == modules
  {
    ApproximationSolves(t, us, rank, modules, MaxRank(rank) + 1);
    ApproximationLegal(t, us, rank, modules, MaxRank(rank) + 1);
  }

  /** Every solution gives each symbol the value of the recursive evaluation. */
  lemma SolutionIsMeaning(t: Table, us: Users, rank: Ranks, v: Assignment)
    requires WellFormed(t) && KnownUsers(t, us) && Ranked(t, rank)
    ensures Solution(t, us, v) <==> forall i :: 0 <= i < |t| ==> SameAt(SymbolAt(t, i), v, Meaning(t, us, rank, v.modules))
  {
    var w := Meaning(t, us, rank, v.modules);
    SolutionExists(t, us, rank, v.modules);
    if Solution(t, us, v) {
      forall i | 0 <= i < |t| ensures SameAt(SymbolAt(t, i), v, w) {
        SolutionUnique(t, us, rank, v, w, i);
      }
    }
    if forall i :: 0 <= i < |t| ==> SameAt(SymbolAt(t, i), v, w) {
      forall i | 0 <= i < |t| ensures SolvedAt(t, us, i, v) {
        ValueAgrees(t, us, rank, i, v, w);
        TextOnlyPlain(t, i);
        assert SolvedAt(t, us, i, w);
      }
    }
  }
}
