/** Which member of a choice that is on is `y` in the C program: the user's pick, a default, or the
    first member that is visible. */
module Choices {
  import opened Tristates
  import opened Expressions
  import opened Semantics
  import opened Settings

  lemma SameOn(t: Table, c: nat, v: Assignment, e: Option<Expr>)
    requires WellFormed(t) && c < |t| && IsTri(t[c].stype) && v.tri(SymbolAt(t, c)) == YES
    ensures EvalOpt(e, With(t, c, v)) == EvalOpt(e, v)
  {
    EvalOptAgrees(e, With(t, c, v), v);
  }

  /** Default `k` of the choice holds and names a visible member. */
  predicate Qualifies(t: Table, c: nat, v: Assignment, k: nat)
    requires WellFormed(t) && c < |t| && t[c].role.Choice? && k < |t[c].defaults|
  {
    assert KnownDecl(t, c);
    EvalOpt(t[c].defaults[k].cond, v) != NO && Visibility(t[t[c].defaults[k].value.s.id], v) != NO
  }

  /** `m` is the member that is on: visible members have `y` or `n` accordingly. */
  ghost predicate OnlyOn(t: Table, c: nat, v: Assignment, m: nat)
    requires WellFormed(t) && c < |t| && t[c].role.Choice?
  {
    assert KnownDecl(t, c);
    forall i :: i in t[c].role.members && Visibility(t[i], v) == YES ==> v.tri(SymbolAt(t, i)) == FromBool(i == m)
  }

  lemma SelectedDecides(t: Table, us: Users, c: nat, v: Assignment)
    requires WellFormed(t) && KnownUsers(t, us) && c < |t| && t[c].role.Choice? && Solution(t, us, v)
    ensures Selected(t, us, c, v).Some? ==> OnlyOn(t, c, v, Selected(t, us, c, v).value)
  {
    assert KnownDecl(t, c);
    forall i | i in t[c].role.members && Visibility(t[i], v) == YES
      ensures v.tri(SymbolAt(t, i)) == FromBool(Selected(t, us, c, v) == Some(i))
    {
      assert KnownDecl(t, i) && SolvedAt(t, us, i, v);
    }
  }

  /** A choice that is on takes its selection with itself on, which it is. */
  lemma SelectedIsPick(t: Table, us: Users, c: nat, v: Assignment)
    requires WellFormed(t) && KnownUsers(t, us) && c < |t| && t[c].role.Choice? && Solution(t, us, v)
    requires v.tri(SymbolAt(t, c)) == YES
    ensures KnownDecl(t, c) && Selected(t, us, c, v) == Pick(t, us, c, With(t, c, v))
    ensures forall m :: m in t[c].role.members ==> Visibility(t[m], With(t, c, v)) == Visibility(t[m], v)
  {
    assert KnownDecl(t, c) && SolvedAt(t, us, c, v);
    forall m | m in t[c].role.members ensures Visibility(t[m], With(t, c, v)) == Visibility(t[m], v) {
      SameWithOn(t, c, m, v);
    }
  }

  /** The user's pick, if it is visible. */
  lemma PickDecides(t: Table, us: Users, c: nat, v: Assignment)
    requires WellFormed(t) && KnownUsers(t, us) && c < |t| && t[c].role.Choice? && Solution(t, us, v)
    requires v.tri(SymbolAt(t, c)) == YES
    requires us[c].pick.Some? && us[c].pick.value < |t| && Visibility(t[us[c].pick.value], v) != NO
    ensures OnlyOn(t, c, v, us[c].pick.value)
  {
    SelectedIsPick(t, us, c, v);
    SelectedDecides(t, us, c, v);
  }

  predicate Unpicked(t: Table, us: Users, c: nat, v: Assignment)
    requires |us| == |t| && c < |t|
  {
    us[c].pick.Some? && us[c].pick.value < |t| ==> Visibility(t[us[c].pick.value], v) == NO
  }

  lemma {:induction false} VisibleDefaultIs(t: Table, c: nat, v: Assignment, j: nat, k: nat)
    requires WellFormed(t) && c < |t| && t[c].role.Choice? && KnownDecl(t, c) && j <= k <= |t[c].defaults|
    requires forall i :: j <= i < k ==> !Qualifies(t, c, v, i)
    ensures k == |t[c].defaults| ==> VisibleDefault(t, t[c].defaults, v, j) == None
    ensures k < |t[c].defaults| && Qualifies(t, c, v, k) ==> VisibleDefault(t, t[c].defaults, v, j) == Some(t[c].defaults[k].value.s.id)
    decreases k - j
  {
    if j < k {
      assert !Qualifies(t, c, v, j);
      VisibleDefaultIs(t, c, v, j + 1, k);
    }
  }

  lemma {:induction false} FirstVisibleIs(t: Table, ms: seq<nat>, v: Assignment, k: nat)
    requires k < |ms| && (forall j :: 0 <= j < |ms| ==> ms[j] < |t|)
    requires Visibility(t[ms[k]], v) != NO && forall j :: 0 <= j < k ==> Visibility(t[ms[j]], v) == NO
    ensures FirstVisible(t, ms, v) == Some(ms[k])
  {
    if k > 0 {
      FirstVisibleIs(t, ms[1..], v, k - 1);
    }
  }

  /** Without a visible pick, the first default that holds and names a visible member. */
  lemma DefaultDecides(t: Table, us: Users, c: nat, v: Assignment, k: nat)
    requires WellFormed(t) && KnownUsers(t, us) && c < |t| && t[c].role.Choice? && Solution(t, us, v)
    requires v.tri(SymbolAt(t, c)) == YES && Unpicked(t, us, c, v) && k < |t[c].defaults|
    requires Qualifies(t, c, v, k) && forall j :: 0 <= j < k ==> !Qualifies(t, c, v, j)
    ensures KnownDecl(t, c) && OnlyOn(t, c, v, t[c].defaults[k].value.s.id)
  {
    SelectedIsPick(t, us, c, v);
    var v1 := With(t, c, v);
    forall j | 0 <= j < |t[c].defaults| ensures Qualifies(t, c, v1, j) == Qualifies(t, c, v, j) {
      SameOn(t, c, v, t[c].defaults[j].cond);
    }
    VisibleDefaultIs(t, c, v1, 0, k);
    SelectedDecides(t, us, c, v);
  }

  /** If no default does that, the first visible member. */
  lemma FirstVisibleDecides(t: Table, us: Users, c: nat, v: Assignment, k: nat)
    requires WellFormed(t) && KnownUsers(t, us) && c < |t| && t[c].role.Choice? && KnownDecl(t, c) && Solution(t, us, v)
    requires v.tri(SymbolAt(t, c)) == YES && Unpicked(t, us, c, v)
    requires forall j :: 0 <= j < |t[c].defaults| ==> !Qualifies(t, c, v, j)
    requires k < |t[c].role.members| && Visibility(t[t[c].role.members[k]], v) != NO
    requires forall j :: 0 <= j < k ==> Visibility(t[t[c].role.members[j]], v) == NO
    ensures OnlyOn(t, c, v, t[c].role.members[k])
  {
    SelectedIsPick(t, us, c, v);
    var v1 := With(t, c, v);
    forall j | 0 <= j < |t[c].defaults| ensures Qualifies(t, c, v1, j) == Qualifies(t, c, v, j) {
      SameOn(t, c, v, t[c].defaults[j].cond);
    }
    VisibleDefaultIs(t, c, v1, 0, |t[c].defaults|);
    FirstVisibleIs(t, t[c].role.members, v1, k);
    SelectedDecides(t, us, c, v);
  }

  // ---------------------------------------------------------------- whether a choice is on

  /** Its defaults do not turn a choice on: without visible input and selects it is off. A choice that
      is not optional is selected (menu_finalize adds its prompt to its reverse dependencies), and on
      exactly if a member is visible then. */
  lemma ChoiceValue(t: Table, us: Users, c: nat, v: Assignment)
    requires WellFormed(t) && KnownUsers(t, us) && c < |t| && t[c].role.Choice? && Solution(t, us, v)
    ensures KnownDecl(t, c)
    ensures (Visibility(t[c], v) == NO || !us[c].isSet) && RevDep(t[c], v) == NO ==> v.tri(SymbolAt(t, c)) == NO
    ensures RevDep(t[c], v) == YES ==>
              v.tri(SymbolAt(t, c)) == FromBool(exists m :: m in t[c].role.members && Visibility(t[m], With(t, c, v)) != NO)
  {
    assert KnownDecl(t, c) && SolvedAt(t, us, c, v);
    PickIsVisible(t, us, c, With(t, c, v));
    hide Visibility, Pick, RevDep;
  }

  /** A member that is visible at `m` only has its own input, and one that is invisible is off. */
  lemma MemberByItself(t: Table, us: Users, i: nat, v: Assignment)
    requires WellFormed(t) && KnownUsers(t, us) && i < |t| && t[i].role.Member? && SolvedAt(t, us, i, v) && IsTri(t[i].stype)
    ensures Visibility(t[i], v) == MOD && us[i].isSet ==> v.tri(SymbolAt(t, i)) == Min(us[i].tri, MOD)
    ensures Visibility(t[i], v) != YES && !us[i].isSet && t[i].defaults == [] ==> v.tri(SymbolAt(t, i)) == NO
    ensures Visibility(t[i], v) == NO && t[i].defaults == [] ==> v.tri(SymbolAt(t, i)) == NO
  {
    hide PromptValue;
  }
}
