/** What user input does to the solution of a table: a value set within its range takes effect, and a
    bool choice has exactly one member on. */
module Settings {
  import opened Tristates
  import opened RankNumbers
  import opened Expressions
  import opened Semantics
  import opened Ranking
  import N = Nesting

  // ---------------------------------------------------------------- sym_set_tristate_value

  /** sym_tristate_within_range, for the visibility `vis` and select `rev` of a symbol. */
  predicate WithinRange(d: Decl, vis: Tristate, rev: Tristate, modules: Tristate, val: Tristate) {
    var ty := TypeOf(d, vis, modules);
    if vis == NO || !IsTri(ty) then false
    else if ty.Boolean? && val == MOD then false
    else if vis <= rev then false
    else if d.role.Member? && vis == YES then val == YES
    else rev <= val <= vis
  }

  /** The user input after sym_set_tristate_value has accepted `val` for `i`; `visible` holds the
      current visibilities. Choosing a member makes it the pick of its choice, and makes the
      choice and its visible members no longer new. */
  function SetTri(t: Table, us: Users, visible: seq<Tristate>, i: nat, val: Tristate): (r: Users)
    requires WellFormed(t) && KnownUsers(t, us) && i < |t| && |visible| == |t|
    ensures KnownUsers(t, r)
  {
    assert KnownDecl(t, i);
    if t[i].role.Member? && val == YES then
      var c := t[i].role.choice;
      assert KnownDecl(t, c);
      seq(|t|, j requires 0 <= j < |t| =>
        if j == i then us[i].(isSet := true, tri := val)
        else if j == c then us[c].(isSet := true, pick := Some(i))
        else if j in t[c].role.members && visible[j] != NO then us[j].(isSet := true)
        else us[j])
    else us[i := us[i].(isSet := true, tri := val)]
  }

  /** Where two inputs agree, their solutions do. */
  lemma {:induction false} InputsAgreeBelow(t: Table, us: Users, us1: Users, rank: Ranks, v: Assignment, w: Assignment, r: nat)
    requires WellFormed(t) && KnownUsers(t, us) && KnownUsers(t, us1) && Ranked(t, rank)
    requires Solution(t, us, v) && Solution(t, us1, w) && v.modules == w.modules
    requires forall j :: 0 <= j < |t| && rank[j] < r ==> us[j] == us1[j]
    ensures AgreeBelow(t, rank, v, w, r)
    decreases r
  {
    if r > 0 {
      InputsAgreeBelow(t, us, us1, rank, v, w, r - 1);
      forall i | 0 <= i < |t| && rank[i] < r ensures SameAt(SymbolAt(t, i), v, w) {
        SameInputSameValue(t, us, us1, rank, i, v, w);
      }
    }
  }

  lemma SameInputSameValue(t: Table, us: Users, us1: Users, rank: Ranks, i: nat, v: Assignment, w: Assignment)
    requires WellFormed(t) && KnownUsers(t, us) && KnownUsers(t, us1) && Ranked(t, rank) && i < |t|
    requires SolvedAt(t, us, i, v) && SolvedAt(t, us1, i, w)
    requires us[i] == us1[i] && forall j :: 0 <= j < |t| && rank[j] < rank[i] ==> us[j] == us1[j]
    requires AgreeBelow(t, rank, v, w, rank[i])
    ensures SameAt(SymbolAt(t, i), v, w)
  {
    assert KnownDecl(t, i) && RankedDecl(t, rank, i);
    ValueAgrees(t, us, rank, i, v, w);
    TextOnlyPlain(t, i);
    assert TriValue(t, us, i, w) == TriValue(t, us1, i, w);
  }

  /** A value that sym_set_tristate_value accepts for a symbol outside choices is the value the
      symbol has afterwards. */
  lemma SetTakesEffect(t: Table, us: Users, visible: seq<Tristate>, rank: Ranks, i: nat, val: Tristate, v: Assignment, w: Assignment)
    requires WellFormed(t) && KnownUsers(t, us) && Ranked(t, rank) && i < |t| && |visible| == |t|
    requires Solution(t, us, v) && v.modules == w.modules
    requires Solution(t, SetTri(t, us, visible, i, val), w)
    requires IsTri(t[i].stype) && WithinRange(t[i], Visibility(t[i], v), RevDep(t[i], v), v.modules, val)
    requires t[i].role.Plain?
    ensures w.tri(SymbolAt(t, i)) == val
  {
    var us1 := SetTri(t, us, visible, i, val);
    InputsAgreeBelow(t, us, us1, rank, v, w, rank[i]);
    OwnAgree(t, rank, i, v, w);
    assert SolvedAt(t, us1, i, w);
  }

  /** Visibility and selects of a symbol that is no member depend on what is below it. */
  lemma OwnAgree(t: Table, rank: Ranks, i: nat, v: Assignment, w: Assignment)
    requires WellFormed(t) && Ranked(t, rank) && i < |t| && !t[i].role.Member?
    requires AgreeBelow(t, rank, v, w, rank[i])
    ensures Visibility(t[i], v) == Visibility(t[i], w) && RevDep(t[i], v) == RevDep(t[i], w)
  {
    assert KnownDecl(t, i) && RankedDecl(t, rank, i);
    var d := t[i];
    AgreeOnBelow(t, rank, PromptSymbols(d) + OptSymbols(d.revDep), v, w, rank[i]);
    VisibilityAgrees(d, v, w);
    if d.revDep.Some? {
      EvalAgrees(d.revDep.value, v, w);
    }
  }

  /** The lowest value that user input can give to a symbol: what it is selected to, or while its
      prompt is invisible whatever its defaults say. */
  function Lowest(d: Decl, u: User, v: Assignment): Tristate {
    OwnTri(d, u.(isSet := true, tri := NO), v)
  }

  /** Which values a symbol outside choices takes over from the user, under any assignment. */
  lemma ObeyedIff(d: Decl, u: User, v: Assignment, val: Tristate)
    requires IsTri(d.stype) && !d.role.Member?
    ensures OwnTri(d, u.(isSet := true, tri := val), v) == val <==>
            WithinRange(d, Visibility(d, v), RevDep(d, v), v.modules, val) || Lowest(d, u, v) == val
  {
    hide PromptValue, FirstDefault, Eval;
    var vis, rev := Visibility(d, v), RevDep(d, v);
    assert TypeOf(d, vis, v.modules).Boolean? ==> vis != MOD && rev != MOD;
  }

  /** And which it accepts: those that it would take over, if its value can be changed at all. */
  lemma AcceptedIff(d: Decl, u: User, v: Assignment, val: Tristate)
    requires IsTri(d.stype) && (!d.role.Member? || Visibility(d, v) == MOD)
    ensures WithinRange(d, Visibility(d, v), RevDep(d, v), v.modules, val) <==>
            Visibility(d, v) > RevDep(d, v) && OwnTri(d, u.(isSet := true, tri := val), v) == val
  {
    hide PromptValue, FirstDefault, Eval;
    var vis, rev := Visibility(d, v), RevDep(d, v);
    assert TypeOf(d, vis, v.modules).Boolean? ==> vis != MOD && rev != MOD;
  }

  /** The exact result of setting a value. `v` is the solution for all input entered before, also
      for input that was recorded without a new round. */
  lemma SetExactly(t: Table, us: Users, visible: seq<Tristate>, rank: Ranks, i: nat, val: Tristate, v: Assignment, w: Assignment)
    requires WellFormed(t) && KnownUsers(t, us) && Ranked(t, rank) && i < |t| && |visible| == |t|
    requires Solution(t, us, v) && v.modules == w.modules
    requires Solution(t, SetTri(t, us, visible, i, val), w)
    requires IsTri(t[i].stype) && t[i].role.Plain?
    ensures w.tri(SymbolAt(t, i)) == val <==>
            WithinRange(t[i], Visibility(t[i], v), RevDep(t[i], v), v.modules, val) || Lowest(t[i], us[i], v) == val
  {
    var us1 := SetTri(t, us, visible, i, val);
    InputsAgreeBelow(t, us, us1, rank, v, w, rank[i]);
    assert SolvedAt(t, us1, i, w) && SolvedAt(t, us, i, v);
    ValueAgrees(t, us1, rank, i, v, w);
    ObeyedIff(t[i], us[i], v, val);
  }

  /** For a choice the value set is the value afterwards unless it is `y` and no member is
      visible; then the choice is off. */
  lemma SetChoiceTakesEffect(t: Table, us: Users, visible: seq<Tristate>, rank: Ranks, i: nat, val: Tristate, v: Assignment, w: Assignment)
    requires WellFormed(t) && KnownUsers(t, us) && Ranked(t, rank) && i < |t| && |visible| == |t|
    requires Solution(t, us, v) && v.modules == w.modules
    requires Solution(t, SetTri(t, us, visible, i, val), w)
    requires t[i].role.Choice? && WithinRange(t[i], Visibility(t[i], v), RevDep(t[i], v), v.modules, val)
    ensures KnownDecl(t, i)
    ensures w.tri(SymbolAt(t, i)) == val <==>
            val != YES || exists m :: m in t[i].role.members && Visibility(t[m], With(t, i, v)) != NO
  {
    var us1 := SetTri(t, us, visible, i, val);
    assert KnownDecl(t, i);
    InputsAgreeBelow(t, us, us1, rank, v, w, rank[i]);
    OwnAgree(t, rank, i, v, w);
    ChoiceAgrees(t, us1, rank, i, v, w);
    assert SolvedAt(t, us1, i, w);
    PickIsVisible(t, us1, i, With(t, i, v));
  }

  /** Choosing a member, in every case: it becomes the selection exactly if its choice is on, as
      far as the choice's own input and selects go, and its prompt is visible then. */
  lemma ChoosingTakesEffect(t: Table, us: Users, visible: seq<Tristate>, rank: Ranks, i: nat, v: Assignment, w: Assignment)
    requires WellFormed(t) && KnownUsers(t, us) && Ranked(t, rank) && i < |t| && |visible| == |t|
    requires Solution(t, us, v) && v.modules == w.modules
    requires t[i].role.Member? && KnownDecl(t, i)
    requires Solution(t, SetTri(t, us, visible, i, YES), w)
    ensures var c, us1 := t[i].role.choice, SetTri(t, us, visible, i, YES);
            var shown := Visibility(t[i], With(t, c, v));
            && (Selected(t, us1, c, w) == Some(i) <==> OwnTri(t[c], us1[c], v) == YES && shown != NO)
            && (OwnTri(t[c], us1[c], v) == YES && shown == YES ==> w.tri(SymbolAt(t, i)) == YES)
  {
    var us1 := SetTri(t, us, visible, i, YES);
    var c := t[i].role.choice;
    assert KnownDecl(t, c) && us1[c].pick == Some(i);
    InputBelowChoice(t, us, visible, rank, i);
    InputsAgreeBelow(t, us, us1, rank, v, w, rank[c]);
    ChoiceAgrees(t, us1, rank, c, v, w);
    var v1 := With(t, c, v);
    VisibleDefaultIsVisible(t, c, v1, 0);
    FirstVisibleIsVisible(t, t[c].role.members, v1);
    assert SolvedAt(t, us1, c, w) && SolvedAt(t, us1, i, w);
    if OwnTri(t[c], us1[c], v) == YES && Visibility(t[i], v1) == YES {
      ShownAlike(t, rank, i, v, w);
      SameWithOn(t, c, i, w);
    }
  }

  /** Afterwards the choice and all its members that are visible with it on count as set by the user, so
      that sym_calc_choice finds nothing new; what they were set to has not changed, nor other input. */
  lemma ChoosingLeavesNothingNew(t: Table, us: Users, visible: seq<Tristate>, rank: Ranks, i: nat, v: Assignment, w: Assignment)
    requires WellFormed(t) && KnownUsers(t, us) && Ranked(t, rank) && i < |t| && |visible| == |t|
    requires Solution(t, us, v) && v.modules == w.modules && Solution(t, SetTri(t, us, visible, i, YES), w)
    requires t[i].role.Member? && KnownDecl(t, i) && v.tri(SymbolAt(t, t[i].role.choice)) == YES
    requires forall m :: m in t[t[i].role.choice].role.members && m < |t| ==> visible[m] == Visibility(t[m], v)
    ensures var c, us1 := t[i].role.choice, SetTri(t, us, visible, i, YES);
            && us1[c].isSet && us1[i].isSet
            && (forall m :: m in t[c].role.members && m < |t| && Visibility(t[m], With(t, c, w)) != NO ==> us1[m].isSet)
            && forall j :: 0 <= j < |t| && j != i ==>
                 us1[j].tri == us[j].tri && us1[j].text == us[j].text && (j != c ==> us1[j].pick == us[j].pick) &&
                 (us[j].isSet ==> us1[j].isSet) && (j != c && j !in t[c].role.members ==> us1[j] == us[j])
  {
    var c, us1 := t[i].role.choice, SetTri(t, us, visible, i, YES);
    assert KnownDecl(t, c);
    InputBelowChoice(t, us, visible, rank, i);
    InputsAgreeBelow(t, us, us1, rank, v, w, rank[c]);
    forall m | m in t[c].role.members && m < |t| && Visibility(t[m], With(t, c, w)) != NO ensures us1[m].isSet {
      assert KnownDecl(t, m);
      ShownAlike(t, rank, m, v, w);
      SameWithOn(t, c, m, v);
    }
  }

  /** Setting a member that is visible at `y` while its choice is on: the only value that is accepted is
      `y`, and only `y` ever becomes the value; with another value the member stays what it was. */
  lemma SetMemberExactly(t: Table, us: Users, visible: seq<Tristate>, rank: Ranks, i: nat, val: Tristate, v: Assignment, w: Assignment)
    requires WellFormed(t) && KnownUsers(t, us) && Ranked(t, rank) && i < |t| && |visible| == |t|
    requires Solution(t, us, v) && v.modules == w.modules && Solution(t, SetTri(t, us, visible, i, val), w)
    requires t[i].role.Member? && Visibility(t[i], v) == YES
    requires KnownDecl(t, i) && v.tri(SymbolAt(t, t[i].role.choice)) == YES
    ensures w.tri(SymbolAt(t, i)) == if WithinRange(t[i], Visibility(t[i], v), RevDep(t[i], v), v.modules, val) then YES else v.tri(SymbolAt(t, i))
    ensures WithinRange(t[i], Visibility(t[i], v), RevDep(t[i], v), v.modules, val) <==> val == YES
  {
    var c := t[i].role.choice;
    if val == YES {
      ChoosingVisible(t, us, visible, rank, i, v, w);
    } else {
      var us1 := SetTri(t, us, visible, i, val);
      assert KnownDecl(t, c) && RankedDecl(t, rank, i);
      InputsAgreeBelow(t, us, us1, rank, v, w, rank[i]);
      MemberValueKept(t, us, us1, rank, i, v, w);
    }
  }

  /** The value of a member that is visible at `y` does not depend on its own input. */
  lemma MemberValueKept(t: Table, us: Users, us1: Users, rank: Ranks, i: nat, v: Assignment, w: Assignment)
    requires WellFormed(t) && KnownUsers(t, us) && KnownUsers(t, us1) && Ranked(t, rank) && i < |t| && t[i].role.Member?
    requires SolvedAt(t, us, i, v) && SolvedAt(t, us1, i, w) && AgreeBelow(t, rank, v, w, rank[i])
    requires Visibility(t[i], v) == YES && forall j :: 0 <= j < |t| && j != i ==> us[j] == us1[j]
    ensures w.tri(SymbolAt(t, i)) == v.tri(SymbolAt(t, i))
  {
    assert KnownDecl(t, i);
    ValueAgrees(t, us, rank, i, v, w);
    var c := t[i].role.choice;
    assert KnownDecl(t, c) && RankedDecl(t, rank, i);
    AgreeOnBelow(t, rank, PromptSymbols(t[i]), v, w, rank[i]);
    VisibilityAgrees(t[i], v, w);
    assert Selected(t, us, c, w) == Selected(t, us1, c, w);
  }

  /** Choosing a member changes no input below its choice. */
  lemma InputBelowChoice(t: Table, us: Users, visible: seq<Tristate>, rank: Ranks, i: nat)
    requires WellFormed(t) && KnownUsers(t, us) && Ranked(t, rank) && i < |t| && |visible| == |t|
    requires t[i].role.Member? && KnownDecl(t, i)
    ensures forall j :: 0 <= j < |t| && rank[j] < rank[t[i].role.choice] ==> us[j] == SetTri(t, us, visible, i, YES)[j]
  {
    var c := t[i].role.choice;
    assert KnownDecl(t, c) && RankedDecl(t, rank, i);
    forall m | m in t[c].role.members ensures rank[m] > rank[c] {
      assert KnownDecl(t, m) && RankedDecl(t, rank, m);
    }
  }

  /** With the choice on, the visibility of a member depends on what is below the choice. */
  lemma ShownAlike(t: Table, rank: Ranks, i: nat, v: Assignment, w: Assignment)
    requires WellFormed(t) && Ranked(t, rank) && i < |t| && t[i].role.Member? && KnownDecl(t, i)
    requires AgreeBelow(t, rank, v, w, rank[t[i].role.choice])
    ensures Visibility(t[i], With(t, t[i].role.choice, v)) == Visibility(t[i], With(t, t[i].role.choice, w))
  {
    var c := t[i].role.choice;
    assert KnownDecl(t, c) && RankedDecl(t, rank, i);
    AgreeOnBelow(t, rank, PromptSymbols(t[i]) - {SymbolAt(t, c)}, v, w, rank[c]);
    WithAgrees(t, c, PromptSymbols(t[i]), v, w);
    VisibilityAgrees(t[i], With(t, c, v), With(t, c, w));
  }

  /** In particular, choosing a visible member of a choice that is on selects it, and turns it on. */
  lemma ChoosingVisible(t: Table, us: Users, visible: seq<Tristate>, rank: Ranks, i: nat, v: Assignment, w: Assignment)
    requires WellFormed(t) && KnownUsers(t, us) && Ranked(t, rank) && i < |t| && |visible| == |t|
    requires Solution(t, us, v) && v.modules == w.modules
    requires t[i].role.Member? && Visibility(t[i], v) == YES
    requires Solution(t, SetTri(t, us, visible, i, YES), w)
    requires KnownDecl(t, i) && v.tri(SymbolAt(t, t[i].role.choice)) == YES
    ensures w.tri(SymbolAt(t, i)) == YES
    ensures Selected(t, SetTri(t, us, visible, i, YES), t[i].role.choice, w) == Some(i)
  {
    var c := t[i].role.choice;
    assert KnownDecl(t, c) && SolvedAt(t, us, c, v);
    assert OwnTri(t[c], SetTri(t, us, visible, i, YES)[c], v) == YES;
    SameWithOn(t, c, i, v);
    ChoosingTakesEffect(t, us, visible, rank, i, v, w);
  }

  // ---------------------------------------------------------------- exactly one

  /** While the choice is off, no member is visible: menu_finalize conjoins the choice to the
      prompt conditions of its members. */
  ghost predicate Guarded(t: Table, m: nat, c: nat)
    requires m < |t| && c < |t|
  {
    forall v: Assignment :: Legal(v) && v.tri(SymbolAt(t, c)) == NO ==> PromptValue(t[m].prompts, v, 0) == NO
  }

  /** The condition that menu_finalize gives to the menu of a member with condition `dep`. */
  function MemberCondition(t: Table, c: nat, dep: Option<Expr>): Option<Expr>
    requires c < |t|
  {
    N.PropertyCondition(Some(Sym(SymbolAt(t, c))), dep, true)
  }

  /** Member prompts as menu_finalize leaves them, with conditions `own` before. */
  predicate Finalized(t: Table, m: nat, c: nat, dep: Option<Expr>, own: seq<Option<Expr>>)
    requires m < |t| && c < |t|
  {
    && |own| == |t[m].prompts|
    && forall k :: 0 <= k < |own| ==>
         t[m].prompts[k] == N.PropertyCondition(MemberCondition(t, c, dep), own[k], t[m].stype.ThreeState?)
  }

  lemma {:induction false} FinalizedIsNo(t: Table, m: nat, c: nat, dep: Option<Expr>, own: seq<Option<Expr>>, v: Assignment, k: nat)
    requires m < |t| && c < |t| && IsTri(t[c].stype) && Finalized(t, m, c, dep, own) && k <= |own|
    requires Legal(v) && v.tri(SymbolAt(t, c)) == NO
    ensures PromptValue(t[m].prompts, v, k) == NO
    decreases |own| - k
  {
    if k < |own| {
      N.PropertyConditionCorrect(Some(Sym(SymbolAt(t, c))), dep, true, v);
      N.PropertyConditionCorrect(MemberCondition(t, c, dep), own[k], t[m].stype.ThreeState?, v);
      FinalizedIsNo(t, m, c, dep, own, v, k + 1);
    }
  }

  /** So members are guarded, in whatever form the simplifier leaves their conditions. */
  lemma FinalizedIsGuarded(t: Table, m: nat, c: nat, dep: Option<Expr>, own: seq<Option<Expr>>)
    requires m < |t| && c < |t| && IsTri(t[c].stype) && Finalized(t, m, c, dep, own)
    ensures Guarded(t, m, c)
  {
    forall v: Assignment | Legal(v) && v.tri(SymbolAt(t, c)) == NO ensures PromptValue(t[m].prompts, v, 0) == NO {
      FinalizedIsNo(t, m, c, dep, own, v, 0);
    }
  }

  /** A bool choice over bool members that have no defaults of their own. */
  ghost predicate BoolChoice(t: Table, c: nat)
    requires WellFormed(t) && c < |t|
  {
    && t[c].role.Choice? && t[c].stype.Boolean?
    && forall m :: m in t[c].role.members && m < |t| ==> t[m].stype.Boolean? && t[m].defaults == [] && Guarded(t, m, c)
  }

  /** In every solution, for whatever input: a bool choice is on exactly if one of its members is,
      then no other member is, and the one that is on is visible. */
  lemma ExactlyOneMember(t: Table, us: Users, c: nat, v: Assignment)
    requires WellFormed(t) && KnownUsers(t, us) && c < |t| && BoolChoice(t, c)
    requires Solution(t, us, v) && Legal(v)
    ensures KnownDecl(t, c)
    ensures v.tri(SymbolAt(t, c)) == YES ==>
      exists m :: m in t[c].role.members && Visibility(t[m], v) == YES &&
        forall k :: k in t[c].role.members ==> v.tri(SymbolAt(t, k)) == if k == m then YES else NO
    ensures v.tri(SymbolAt(t, c)) != YES ==> forall k :: k in t[c].role.members ==> v.tri(SymbolAt(t, k)) == NO
  {
    assert KnownDecl(t, c);
    var ms := t[c].role.members;
    var sel := Selected(t, us, c, v);
    assert SolvedAt(t, us, c, v);
    forall k | k in ms
      ensures v.tri(SymbolAt(t, k)) == if Visibility(t[k], v) == YES && sel == Some(k) then YES else NO
    {
      MemberValue(t, us, c, k, v);
    }
    if v.tri(SymbolAt(t, c)) == YES {
      var m := sel.value;
      PickIsVisible(t, us, c, With(t, c, v));
      SameWithOn(t, c, m, v);
      assert Visibility(t[m], v) == YES;
    } else {
      NeverMod(t, us, c, v);
      forall k | k in ms ensures Visibility(t[k], v) == NO {
        assert Guarded(t, k, c);
      }
    }
  }

  lemma MemberValue(t: Table, us: Users, c: nat, k: nat, v: Assignment)
    requires WellFormed(t) && KnownUsers(t, us) && c < |t| && BoolChoice(t, c) && k in t[c].role.members
    requires KnownDecl(t, c) && Solution(t, us, v)
    ensures v.tri(SymbolAt(t, k)) == if Visibility(t[k], v) == YES && Selected(t, us, c, v) == Some(k) then YES else NO
  {
    assert KnownDecl(t, k);
    assert SolvedAt(t, us, k, v);
    assert t[k].stype.Boolean? && t[k].defaults == [];
    assert Visibility(t[k], v) != MOD;
  }

  lemma {:induction false} FirstVisibleIsVisible(t: Table, ms: seq<nat>, v: Assignment)
    requires forall k :: 0 <= k < |ms| ==> ms[k] < |t|
    ensures var f := FirstVisible(t, ms, v);
            f.Some? ==> f.value in ms && Visibility(t[f.value], v) != NO
    ensures FirstVisible(t, ms, v).None? ==> forall k :: 0 <= k < |ms| ==> Visibility(t[ms[k]], v) == NO
  {
    if ms != [] && Visibility(t[ms[0]], v) == NO {
      FirstVisibleIsVisible(t, ms[1..], v);
    }
  }

  lemma {:induction false} VisibleDefaultIsVisible(t: Table, c: nat, v: Assignment, k: nat)
    requires WellFormed(t) && c < |t| && t[c].role.Choice? && KnownDecl(t, c) && k <= |t[c].defaults|
    ensures var f := VisibleDefault(t, t[c].defaults, v, k);
            f.Some? ==> f.value in t[c].role.members && Visibility(t[f.value], v) != NO
    decreases |t[c].defaults| - k
  {
    if k < |t[c].defaults| {
      VisibleDefaultIsVisible(t, c, v, k + 1);
    }
  }

  /** The selection is a visible member, and there is one whenever any member is visible. */
  lemma PickIsVisible(t: Table, us: Users, c: nat, v: Assignment)
    requires WellFormed(t) && KnownUsers(t, us) && c < |t| && t[c].role.Choice?
    ensures KnownDecl(t, c)
    ensures var p := Pick(t, us, c, v); p.Some? ==> p.value in t[c].role.members && Visibility(t[p.value], v) != NO
    ensures Pick(t, us, c, v).None? <==> forall m :: m in t[c].role.members ==> Visibility(t[m], v) == NO
  {
    assert KnownDecl(t, c);
    VisibleDefaultIsVisible(t, c, v, 0);
    FirstVisibleIsVisible(t, t[c].role.members, v);
  }

  lemma SameWithOn(t: Table, c: nat, m: nat, v: Assignment)
    requires WellFormed(t) && c < |t| && m < |t| && IsTri(t[c].stype) && v.tri(SymbolAt(t, c)) == YES
    ensures Visibility(t[m], With(t, c, v)) == Visibility(t[m], v)
  {
    VisibilityAgrees(t[m], With(t, c, v), v);
  }
}
