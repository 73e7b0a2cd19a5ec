/** What the user's picks, the defaults of a choice and the visibilities of its symbols make of the
    symbols of a choice in kconfiglib.py. */
module KconfiglibChoices {
  import opened Tristates
  import opened RankNumbers
  import opened Expressions
  import opened Formulas
  import opened Kconfiglib
  import opened Invalidation
  import opened Assignments
  import opened ModulesSymbol
  import opened KconfiglibCache
  import opened KconfiglibRuns

  // ---------------------------------------------------------------- visibilities

  lemma {:induction false} PromptMaxIff(ps: seq<Option<Formula>>, modules: bool, v: seq<Value>, k: nat, t: Tristate)
    requires k <= |ps| && t != NO
    ensures PromptMax(ps, modules, v, k) >= t <==> exists j :: k <= j < |ps| && Condition(ps[j], modules, v) >= t
    decreases |ps| - k
  {
    if k < |ps| {
      PromptMaxIff(ps, modules, v, k + 1, t);
    }
  }

  /** Some prompt has a condition that is at least `t`. */
  predicate Prompted(ps: seq<Option<Formula>>, modules: bool, v: seq<Value>, t: Tristate) {
    exists j :: 0 <= j < |ps| && Condition(ps[j], modules, v) >= t
  }

  /** A symbol is visible if one of its prompts and one of its choice's are, and at `y` if these
      conditions are `y` or it is no tristate symbol. */
  lemma VisibleIff(s: Setup, i: nat, v: seq<Value>)
    requires Known(s) && i < |s.syms|
    ensures KnownSym(s, i)
    ensures var d := s.syms[i];
            && (Visibility(s, i, v) != NO <==>
                Prompted(d.prompts, s.modules, v, MOD) &&
                (d.choice.Some? ==> Prompted(s.choices[d.choice.value].prompts, s.modules, v, MOD)))
            && (Visibility(s, i, v) == YES <==>
                Visibility(s, i, v) != NO &&
                (d.stype.ThreeState? ==>
                   && Prompted(d.prompts, s.modules, v, YES)
                   && (d.choice.Some? && s.choices[d.choice.value].stype.ThreeState? ==>
                         Prompted(s.choices[d.choice.value].prompts, s.modules, v, YES))))
  {
    assert KnownSym(s, i);
    var d := s.syms[i];
    PromptMaxIff(d.prompts, s.modules, v, 0, MOD);
    PromptMaxIff(d.prompts, s.modules, v, 0, YES);
    if d.choice.Some? {
      PromptMaxIff(s.choices[d.choice.value].prompts, s.modules, v, 0, MOD);
      PromptMaxIff(s.choices[d.choice.value].prompts, s.modules, v, 0, YES);
    }
    hide Prompted, PromptMax, Known;
  }

  // ---------------------------------------------------------------- which mode, which symbol

  /** A choice that is set, by an entry or because it is not optional. */
  predicate IsSet(s: Setup, u: Entries, c: nat)
    requires KnownEntries(s, u) && c < |s.choices|
  {
    if u.modes[c].Some? then u.modes[c].value != NO else !s.choices[c].optional
  }

  /** A choice in which one symbol is on: a bool choice, or a tristate one that is visible at `y` and was
      set to `y`, or that can be nothing but on since modules are off. */
  predicate PicksOne(s: Setup, u: Entries, c: nat, v: seq<Value>)
    requires KnownEntries(s, u) && c < |s.choices|
  {
    && ChoiceVisibility(s, c, v) != NO && IsSet(s, u, c)
    && (s.choices[c].stype.Boolean? || !s.modules || (ChoiceVisibility(s, c, v) == YES && u.modes[c] == Some(YES)))
  }

  lemma ModeIs(s: Setup, u: Entries, c: nat, v: seq<Value>)
    requires KnownEntries(s, u) && c < |s.choices|
    ensures Mode(s, u, c, v) == YES <==> PicksOne(s, u, c, v)
    ensures Mode(s, u, c, v) == NO <==> ChoiceVisibility(s, c, v) == NO || !IsSet(s, u, c)
  {
    assert s.modules || ChoiceVisibility(s, c, v) != MOD;
  }

  /** The bool and tristate symbols of a choice are `n`, but for `m`. */
  ghost predicate OnlyOn(s: Setup, c: nat, v: seq<Value>, m: nat)
    requires Known(s) && |v| == |s.syms| && c < |s.choices|
  {
    forall i :: i in s.choices[c].actual && i < |s.syms| && IsTri(s.syms[i].stype) ==> v[i] == Truth(FromBool(i == m))
  }

  ghost predicate AllOff(s: Setup, c: nat, v: seq<Value>)
    requires Known(s) && |v| == |s.syms| && c < |s.choices|
  {
    forall i :: i in s.choices[c].actual && i < |s.syms| && IsTri(s.syms[i].stype) ==> v[i] == Truth(NO)
  }

  lemma MemberIs(s: Setup, u: Entries, v: seq<Value>, c: nat, i: nat)
    requires Known(s) && KnownEntries(s, u) && Solves(s, u, v) && c < |s.choices|
    requires i in s.choices[c].actual && i < |s.syms| && IsTri(s.syms[i].stype)
    ensures s.syms[i].choice == Some(c) && s.syms[i].special.None?
    ensures v[i] == Truth(if MemberTruth(s, u, i, v).0 == MOD && s.syms[i].stype.Boolean? then YES else MemberTruth(s, u, i, v).0)
    ensures ValueOf(s, u, i, v).1 == MemberTruth(s, u, i, v).1
  {
    assert KnownChoice(s, c) && KnownSym(s, i);
    assert v[i] == ValueOf(s, u, i, v).0;
    hide MemberTruth;
  }

  lemma {:induction false} FirstVisibleKnown(s: Setup, ms: seq<nat>, v: seq<Value>)
    requires Known(s) && forall j :: 0 <= j < |ms| ==> ms[j] < |s.syms|
    ensures FirstVisible(s, ms, v).Some? ==> FirstVisible(s, ms, v).value < |s.syms|
  {
    if ms != [] {
      FirstVisibleKnown(s, ms[1..], v);
    }
  }

  lemma SelectionKnown(s: Setup, u: Entries, c: nat, v: seq<Value>)
    requires Known(s) && KnownEntries(s, u) && c < |s.choices|
    ensures Selection(s, u, c, v).Some? ==> Selection(s, u, c, v).value < |s.syms|
  {
    assert KnownChoice(s, c);
    FirstVisibleKnown(s, s.choices[c].actual, v);
    hide Visibility, Mode;
  }

  lemma SelectionDecides(s: Setup, u: Entries, v: seq<Value>, c: nat)
    requires Known(s) && KnownEntries(s, u) && Solves(s, u, v) && c < |s.choices| && PicksOne(s, u, c, v)
    ensures Selection(s, u, c, v).None? ==> AllOff(s, c, v)
    ensures Selection(s, u, c, v).Some? ==> Selection(s, u, c, v).value < |s.syms|
    ensures Selection(s, u, c, v).Some? && Visibility(s, Selection(s, u, c, v).value, v) != NO ==>
              OnlyOn(s, c, v, Selection(s, u, c, v).value)
  {
    ModeIs(s, u, c, v);
    SelectionKnown(s, u, c, v);
    var sel := Selection(s, u, c, v);
    hide Selection, Mode, PicksOne, Visibility;
    forall i | i in s.choices[c].actual && i < |s.syms| && IsTri(s.syms[i].stype)
      ensures v[i] == Truth(FromBool(Visibility(s, i, v) != NO && sel == Some(i)))
    {
      MemberIs(s, u, v, c, i);
    }
  }

  /** The user's pick, if it is visible at `y`. */
  lemma PickDecides(s: Setup, u: Entries, v: seq<Value>, c: nat)
    requires Known(s) && KnownEntries(s, u) && Solves(s, u, v) && c < |s.choices| && PicksOne(s, u, c, v)
    requires u.picks[c].Some? && u.picks[c].value < |s.syms| && Visibility(s, u.picks[c].value, v) == YES
    ensures OnlyOn(s, c, v, u.picks[c].value)
  {
    ModeIs(s, u, c, v);
    SelectionDecides(s, u, v, c);
  }

  /** No pick counts. */
  predicate Unpicked(s: Setup, u: Entries, c: nat, v: seq<Value>)
    requires Known(s) && KnownEntries(s, u) && c < |s.choices|
  {
    u.picks[c].Some? && u.picks[c].value < |s.syms| ==> Visibility(s, u.picks[c].value, v) != YES
  }

  predicate Holding(s: Setup, c: nat, v: seq<Value>, k: nat)
    requires c < |s.choices| && k < |s.choices[c].defaults|
  {
    Condition(s.choices[c].defaults[k].cond, s.modules, v) != NO
  }

  lemma {:induction false} ChosenIs(s: Setup, c: nat, v: seq<Value>, j: nat, k: nat)
    requires Known(s) && c < |s.choices| && j <= k <= |s.choices[c].defaults|
    requires forall i :: j <= i < k ==> !Holding(s, c, v, i)
    ensures k == |s.choices[c].defaults| ==> s.choices[c].actual != [] && Chosen(s, c, v, j) == s.choices[c].actual[0]
    ensures k < |s.choices[c].defaults| && Holding(s, c, v, k) ==> Chosen(s, c, v, j) == s.choices[c].defaults[k].sym
    decreases k - j
  {
    assert KnownChoice(s, c);
    if j < k {
      assert !Holding(s, c, v, j);
      ChosenIs(s, c, v, j + 1, k);
    }
  }

  lemma {:induction false} FirstVisibleIs(s: Setup, ms: seq<nat>, v: seq<Value>, k: nat)
    requires Known(s) && k <= |ms| && (forall j :: 0 <= j < |ms| ==> ms[j] < |s.syms|)
    requires forall j :: 0 <= j < k ==> Visibility(s, ms[j], v) == NO
    ensures FirstVisible(s, ms, v) ==
            if k == |ms| then None else if Visibility(s, ms[k], v) != NO then Some(ms[k]) else FirstVisible(s, ms[k..], v)
  {
    if k > 0 {
      assert ms[1..][k - 1..] == ms[k..];
      FirstVisibleIs(s, ms[1..], v, k - 1);
    } else {
      assert ms[0..] == ms;
    }
  }

  /** Without a pick that counts, the first default that holds decides, if its symbol is visible. */
  lemma DefaultDecides(s: Setup, u: Entries, v: seq<Value>, c: nat, k: nat)
    requires Known(s) && KnownEntries(s, u) && Solves(s, u, v) && c < |s.choices| && PicksOne(s, u, c, v)
    requires Unpicked(s, u, c, v) && !s.choices[c].optional && k < |s.choices[c].defaults|
    requires Holding(s, c, v, k) && forall j :: 0 <= j < k ==> !Holding(s, c, v, j)
    requires s.choices[c].defaults[k].sym < |s.syms| && Visibility(s, s.choices[c].defaults[k].sym, v) != NO
    ensures OnlyOn(s, c, v, s.choices[c].defaults[k].sym)
  {
    assert KnownChoice(s, c);
    ModeIs(s, u, c, v);
    ChosenIs(s, c, v, 0, k);
    SelectionDecides(s, u, v, c);
  }

  /** If no default holds, or the first that does names an invisible symbol, the first visible symbol of
      the choice is on. */
  lemma FirstVisibleDecides(s: Setup, u: Entries, v: seq<Value>, c: nat, k: nat, n: nat)
    requires Known(s) && KnownEntries(s, u) && Solves(s, u, v) && c < |s.choices| && PicksOne(s, u, c, v)
    requires Unpicked(s, u, c, v) && !s.choices[c].optional
    requires k <= |s.choices[c].defaults| && forall j :: 0 <= j < k ==> !Holding(s, c, v, j)
    requires k < |s.choices[c].defaults| ==>
               Holding(s, c, v, k) && s.choices[c].defaults[k].sym < |s.syms| && Visibility(s, s.choices[c].defaults[k].sym, v) == NO
    requires n <= |s.choices[c].actual| && forall j :: 0 <= j < |s.choices[c].actual| ==> s.choices[c].actual[j] < |s.syms|
    requires forall j :: 0 <= j < n ==> Visibility(s, s.choices[c].actual[j], v) == NO
    requires n < |s.choices[c].actual| ==> Visibility(s, s.choices[c].actual[n], v) != NO
    ensures if n < |s.choices[c].actual| then OnlyOn(s, c, v, s.choices[c].actual[n]) else AllOff(s, c, v)
  {
    assert KnownChoice(s, c);
    ModeIs(s, u, c, v);
    ChosenIs(s, c, v, 0, k);
    FirstVisibleIs(s, s.choices[c].actual, v, n);
    SelectionDecides(s, u, v, c);
    assert n > 0 ==> Visibility(s, s.choices[c].actual[0], v) == NO;
  }

  /** In an optional choice nothing but a pick is on; in a choice that is invisible or not set nothing
      is on, and nothing is written. */
  lemma NothingDecides(s: Setup, u: Entries, v: seq<Value>, c: nat)
    requires Known(s) && KnownEntries(s, u) && Solves(s, u, v) && c < |s.choices|
    ensures PicksOne(s, u, c, v) && Unpicked(s, u, c, v) && s.choices[c].optional ==> AllOff(s, c, v)
    ensures ChoiceVisibility(s, c, v) == NO || !IsSet(s, u, c) ==>
              AllOff(s, c, v) && forall i :: i in s.choices[c].actual && i < |s.syms| && IsTri(s.syms[i].stype) ==> !ValueOf(s, u, i, v).1
  {
    assert KnownChoice(s, c);
    ModeIs(s, u, c, v);
    if PicksOne(s, u, c, v) && Unpicked(s, u, c, v) && s.choices[c].optional {
      SelectionDecides(s, u, v, c);
    }
    if ChoiceVisibility(s, c, v) == NO || !IsSet(s, u, c) {
      hide Mode, PicksOne, Visibility, Selection;
      forall i | i in s.choices[c].actual && i < |s.syms| && IsTri(s.syms[i].stype)
        ensures v[i] == Truth(NO) && !ValueOf(s, u, i, v).1
      {
        MemberIs(s, u, v, c, i);
      }
    }
  }

  /** Otherwise every symbol of the choice is by itself: `m` if it is visible and has such an entry. */
  lemma ManyAtM(s: Setup, u: Entries, v: seq<Value>, c: nat, i: nat)
    requires Known(s) && KnownEntries(s, u) && Solves(s, u, v) && c < |s.choices|
    requires ChoiceVisibility(s, c, v) != NO && IsSet(s, u, c) && !PicksOne(s, u, c, v)
    requires i in s.choices[c].actual && i < |s.syms| && IsTri(s.syms[i].stype)
    ensures v[i] == Truth(if Visibility(s, i, v) != NO && (u.vals[i] == Some("m") || u.vals[i] == Some("y"))
                          then if s.syms[i].stype.Boolean? then YES else MOD else NO)
  {
    ModeIs(s, u, c, v);
    MemberIs(s, u, v, c, i);
    hide Mode, PicksOne, Visibility, Selection;
  }

  // ---------------------------------------------------------------- assignments

  /** Changed entries change no value below the symbol. */
  lemma {:induction false} BelowKept(s: Setup, u: Entries, u1: Entries, rank: Ranks, v: seq<Value>, w: seq<Value>, m: nat, r: nat)
    requires Known(s) && Ranked(s, rank) && KnownEntries(s, u) && KnownEntries(s, u1) && m < |s.syms| && ChangedAt(s, u, u1, m)
    requires Solves(s, u, v) && Solves(s, u1, w) && r <= rank[m]
    ensures AgreeBelow(rank, v, w, r)
  {
    if r > 0 {
      BelowKept(s, u, u1, rank, v, w, m, r - 1);
      forall i | 0 <= i < |rank| && rank[i] < r ensures v[i] == w[i] {
        SameBelow(s, u, u1, rank, v, w, m, i);
      }
    }
  }

  lemma SameBelow(s: Setup, u: Entries, u1: Entries, rank: Ranks, v: seq<Value>, w: seq<Value>, m: nat, i: nat)
    requires Known(s) && Ranked(s, rank) && KnownEntries(s, u) && KnownEntries(s, u1) && m < |s.syms| && ChangedAt(s, u, u1, m)
    requires Solves(s, u, v) && Solves(s, u1, w) && i < |rank| && rank[i] < rank[m] && AgreeBelow(rank, v, w, rank[i])
    ensures v[i] == w[i]
  {
    InputsBelow(s, u, rank, i, v, w);
    assert KnownSym(s, i) && KnownSym(s, m);
    var c := s.syms[i].choice;
    if c.Some? {
      MemberRank(s, rank, c.value, i);
      if s.syms[m].choice == c {
        MemberRank(s, rank, c.value, m);
        assert false;
      }
    }
    ValueAgrees(s, u, u1, i, v, w);
  }

  /** Nor the visibilities of a choice and of its symbols. */
  lemma ShownAsBefore(s: Setup, u: Entries, u1: Entries, rank: Ranks, v: seq<Value>, w: seq<Value>, m: nat, c: nat, i: nat)
    requires Known(s) && Ranked(s, rank) && KnownEntries(s, u) && KnownEntries(s, u1) && m < |s.syms| && ChangedAt(s, u, u1, m)
    requires Solves(s, u, v) && Solves(s, u1, w) && s.syms[m].choice == Some(c) && c < |s.choices| && i in s.choices[c].actual
    ensures i < |s.syms| && Visibility(s, i, v) == Visibility(s, i, w) && ChoiceVisibility(s, c, v) == ChoiceVisibility(s, c, w)
  {
    assert KnownSym(s, m);
    MemberRank(s, rank, c, m);
    MemberRank(s, rank, c, i);
    assert RankedSym(s, rank, i) && KnownSym(s, i);
    BelowKept(s, u, u1, rank, v, w, m, rank[m]);
    assert VisRefs(s, i) <= Reads(s, i) && PromptRefs(s.choices[c].prompts) <= Reads(s, i);
    VisibilityAgrees(s, i, v, w);
    ChoiceVisibilityAgrees(s, c, v, w);
  }

  lemma AssignedChanges(s: Setup, u: Entries, m: nat, text: string)
    requires Known(s) && KnownEntries(s, u) && m < |s.syms|
    ensures ChangedAt(s, u, Assigned(s, u, m, text), m)
  {
    assert KnownSym(s, m);
  }

  /** set_user_value("y") of a symbol of a choice that is visible at `y`: it is on afterwards, and each of
      the others is off, exactly unless the choice is limited to `m` and the other one is bool or
      tristate, visible, and has an entry itself. */
  lemma PickTakesEffect(s: Setup, u: Entries, rank: Ranks, v: seq<Value>, w: seq<Value>, m: nat, c: nat)
    requires Known(s) && Ranked(s, rank) && KnownEntries(s, u) && Solves(s, u, v)
    requires m < |s.syms| && s.syms[m].choice == Some(c) && c < |s.choices| && IsTri(s.syms[m].stype)
    requires Visibility(s, m, v) == YES && Solves(s, Assigned(s, u, m, "y"), w)
    ensures w[m] == Truth(YES)
    ensures forall i :: i in s.choices[c].actual && i != m && i < |s.syms| && IsTri(s.syms[i].stype) ==>
              (w[i] == Truth(NO) <==>
               ChoiceVisibility(s, c, v) != MOD || Visibility(s, i, v) == NO || (u.vals[i] != Some("m") && u.vals[i] != Some("y")))
  {
    var u1 := Assigned(s, u, m, "y");
    assert KnownSym(s, m);
    AssignedChanges(s, u, m, "y");
    ShownAsBefore(s, u, u1, rank, v, w, m, c, m);
    PickedVisible(s, m, v);
    assert IsSet(s, u1, c);
    if PicksOne(s, u1, c, w) {
      PickDecides(s, u1, w, c);
    } else {
      ManyAtM(s, u1, w, c, m);
    }
    forall i | i in s.choices[c].actual && i != m && i < |s.syms| && IsTri(s.syms[i].stype)
      ensures w[i] == Truth(NO) <==>
              ChoiceVisibility(s, c, v) != MOD || Visibility(s, i, v) == NO || (u.vals[i] != Some("m") && u.vals[i] != Some("y"))
    {
      ShownAsBefore(s, u, u1, rank, v, w, m, c, i);
      if !PicksOne(s, u1, c, w) {
        ManyAtM(s, u1, w, c, i);
      }
    }
  }

  lemma PickedVisible(s: Setup, m: nat, v: seq<Value>)
    requires Known(s) && m < |s.syms| && s.syms[m].choice.Some? && Visibility(s, m, v) == YES
    ensures KnownSym(s, m) && ChoiceVisibility(s, s.syms[m].choice.value, v) != NO
    ensures ChoiceVisibility(s, s.syms[m].choice.value, v) == MOD ==> !s.syms[m].stype.ThreeState? && s.modules
  {
    assert KnownSym(s, m);
  }

  /** set_user_value("m") of a visible tristate symbol of a tristate choice, with modules on. */
  lemma MTakesEffect(s: Setup, u: Entries, rank: Ranks, v: seq<Value>, w: seq<Value>, m: nat, c: nat)
    requires Known(s) && Ranked(s, rank) && KnownEntries(s, u) && Solves(s, u, v) && s.modules
    requires m < |s.syms| && s.syms[m].choice == Some(c) && c < |s.choices| && s.syms[m].stype.ThreeState? && s.choices[c].stype.ThreeState?
    requires Visibility(s, m, v) != NO && Solves(s, Assigned(s, u, m, "m"), w)
    ensures w[m] == Truth(MOD)
  {
    var u1 := Assigned(s, u, m, "m");
    assert KnownSym(s, m);
    AssignedChanges(s, u, m, "m");
    ShownAsBefore(s, u, u1, rank, v, w, m, c, m);
    assert ChoiceVisibility(s, c, v) != NO;
    ManyAtM(s, u1, w, c, m);
  }

  /** set_user_value("n") takes nothing away: in a choice in which one symbol is on, all symbols keep
      their values. */
  lemma NTakesNothing(s: Setup, u: Entries, rank: Ranks, v: seq<Value>, w: seq<Value>, m: nat, c: nat, i: nat)
    requires Known(s) && Ranked(s, rank) && KnownEntries(s, u) && Solves(s, u, v)
    requires m < |s.syms| && Solves(s, Assigned(s, u, m, "n"), w) && s.syms[m].choice == Some(c) && c < |s.choices| && PicksOne(s, u, c, v)
    requires i in s.choices[c].actual && i < |s.syms| && IsTri(s.syms[i].stype)
    ensures w[i] == v[i]
  {
    var u1 := Assigned(s, u, m, "n");
    assert KnownSym(s, m) && u1.picks == u.picks && u1.modes == u.modes;
    AssignedChanges(s, u, m, "n");
    ShownAsBefore(s, u, u1, rank, v, w, m, c, i);
    AroundAsBefore(s, u, u1, rank, v, w, m, c);
    ChoiceAgrees(s, u, u1, c, v, w);
    MemberIs(s, u, v, c, i);
    MemberIs(s, u1, w, c, i);
    ModeIs(s, u, c, v);
    hide Mode, Selection, Visibility, PicksOne;
  }

  lemma AroundAsBefore(s: Setup, u: Entries, u1: Entries, rank: Ranks, v: seq<Value>, w: seq<Value>, m: nat, c: nat)
    requires Known(s) && Ranked(s, rank) && KnownEntries(s, u) && KnownEntries(s, u1) && m < |s.syms| && ChangedAt(s, u, u1, m)
    requires Solves(s, u, v) && Solves(s, u1, w) && s.syms[m].choice == Some(c) && c < |s.choices|
    ensures SameAround(s, c, v, w)
  {
    assert KnownSym(s, m) && KnownChoice(s, c);
    MemberRank(s, rank, c, m);
    BelowKept(s, u, u1, rank, v, w, m, rank[m]);
    AroundBelow(s, rank, c, v, w);
  }

  /** unset_user_value takes the pick of the choice away too: in a bool choice that is not optional the
      first default that holds and names a visible symbol decides again. */
  lemma UnsetGivesDefault(s: Setup, u: Entries, w: seq<Value>, m: nat, c: nat, k: nat)
    requires Known(s) && KnownEntries(s, u) && m < |s.syms| && s.syms[m].choice == Some(c) && c < |s.choices|
    requires Solves(s, Unassigned(s, u, m), w) && s.choices[c].stype.Boolean? && !s.choices[c].optional && ChoiceVisibility(s, c, w) != NO
    requires k < |s.choices[c].defaults| && Holding(s, c, w, k) && forall j :: 0 <= j < k ==> !Holding(s, c, w, j)
    requires s.choices[c].defaults[k].sym < |s.syms| && Visibility(s, s.choices[c].defaults[k].sym, w) != NO
    ensures OnlyOn(s, c, w, s.choices[c].defaults[k].sym)
  {
    var u1 := Unassigned(s, u, m);
    assert u1.picks[c] == None && u1.modes[c] == None;
    DefaultDecides(s, u1, w, c, k);
  }

  /** PickTakesEffect on a live configuration. */
  method Choose(c: Config, m: nat, ch: nat) returns (val: Value)
    requires c.Valid() && m < |c.s.syms| && c.s.syms[m].choice == Some(ch) && ch < |c.s.choices| && IsTri(c.s.syms[m].stype)
    requires Spared(c.s, c.rank, m) && forall k :: 0 <= k < |c.s.choices| ==> Tracked(c.s, k)
    requires Visibility(c.now, m, c.Fresh()) == YES
    modifies c
    ensures c.Valid() && val == Truth(YES)
    ensures old(ChoiceVisibility(c.now, ch, c.Fresh())) != MOD ==> OnlyOn(c.now, ch, c.Fresh(), m)
  {
    ghost var u, v, t := c.entries, c.Fresh(), c.now;
    c.FreshFits();
    AssignedChanges(c.s, u, m, "y");
    ModulesKept(c.s, u, Assigned(c.s, u, m, "y"), c.rank, m);
    hide Dependents, Live, AllWatched, SameOutside, Dropped, Unseen, Tracked, Spared;
    Assign(c, SetValue(m, "y"));
    c.FreshFits();
    PickTakesEffect(t, u, c.rank, v, c.Fresh(), m, ch);
    val := c.Value(m);
  }
}
