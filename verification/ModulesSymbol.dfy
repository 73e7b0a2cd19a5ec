/** MODULES is a symbol of its own: while it is not `y`, an `m` counts as `y` (_has_modules). Every
    evaluation that meets an `m` asks for it, but no `dep` set records that. */
module ModulesSymbol {
  import opened Tristates
  import opened RankNumbers
  import opened Expressions
  import opened Formulas
  import opened Kconfiglib
  import opened Invalidation

  /** The same Kconfig with another answer of _has_modules. */
  function Switched(s: Setup, on: bool): Setup {
    s.(modules := on)
  }

  /** _has_modules, given the values of all symbols. */
  predicate ModulesOn(s: Setup, v: seq<Value>) {
    s.modulesSym.Some? && s.modulesSym.value < |v| && v[s.modulesSym.value] == Truth(YES)
  }

  lemma SwitchedKnown(s: Setup, on: bool)
    requires Known(s)
    ensures Known(Switched(s, on))
    ensures forall u :: KnownEntries(s, u) ==> KnownEntries(Switched(s, on), u)
    ensures forall rank :: Ranked(s, rank) ==> Ranked(Switched(s, on), rank)
    ensures forall xs :: Closed(s, xs) ==> Closed(Switched(s, on), xs)
    ensures forall xs :: AllWatched(s, xs) ==> AllWatched(Switched(s, on), xs)
  {
    var t := Switched(s, on);
    forall i | 0 <= i < |s.syms| ensures KnownSym(t, i) {
      assert KnownSym(s, i);
      SwitchedReads(s, on, i);
    }
    forall i | 0 <= i < |s.syms| ensures VisRefs(t, i) == VisRefs(s, i) {
      SwitchedReads(s, on, i);
    }
    forall c | 0 <= c < |s.choices| ensures KnownChoice(t, c) {
      assert KnownChoice(s, c);
    }
    forall rank | Ranked(s, rank) ensures Ranked(t, rank) {
      SwitchedRanked(s, on, rank);
    }
    forall xs | Closed(s, xs) ensures Closed(t, xs) {
      SwitchedClosed(s, on, xs);
    }
    forall xs | AllWatched(s, xs) ensures AllWatched(t, xs) {
      forall c | 0 <= c < |t.choices| && Apart(t, c, xs) ensures Watched(t, c, xs) {
        assert Apart(s, c, xs) && Watched(s, c, xs);
      }
    }
  }

  lemma SwitchedReads(s: Setup, on: bool, i: nat)
    requires i < |s.syms|
    ensures Reads(Switched(s, on), i) == Reads(s, i) && VisRefs(Switched(s, on), i) == VisRefs(s, i)
  {
  }

  lemma SwitchedRanked(s: Setup, on: bool, rank: Ranks)
    requires Ranked(s, rank)
    ensures Ranked(Switched(s, on), rank)
  {
    var t := Switched(s, on);
    forall i | 0 <= i < |s.syms| ensures RankedSym(t, rank, i) {
      SwitchedReads(s, on, i);
      assert RankedSym(s, rank, i);
    }
    forall c | 0 <= c < |s.choices| ensures RankedChoice(t, rank, c) {
      assert RankedChoice(s, rank, c);
      forall k, m | 0 <= k < |t.choices[c].defaults| && m in t.choices[c].actual
        ensures DefaultBelow(t, rank, t.choices[c].defaults[k].sym, m)
      {
        var i := t.choices[c].defaults[k].sym;
        assert DefaultBelow(s, rank, i, m);
        assert i < |s.syms| ==> VisRefs(t, i) == VisRefs(s, i);
      }
    }
  }

  lemma SwitchedClosed(s: Setup, on: bool, xs: set<nat>)
    requires Known(s) && Known(Switched(s, on)) && Closed(s, xs)
    ensures Closed(Switched(s, on), xs)
  {
    var t := Switched(s, on);
    forall x, y | x in xs && y in DirectDeps(t, x) ensures y in xs {
      SwitchedReads(s, on, y);
      assert y in DirectDeps(s, x);
    }
    forall x, y | x in xs && x < |t.syms| && y in Siblings(t, x) ensures y in xs {
      assert KnownSym(s, x) && KnownSym(t, x);
      assert y in Siblings(s, x);
    }
  }

  // ---------------------------------------------------------------- evaluations that meet no m

  /** Not an `m` among the conditions. */
  predicate CalmPrompts(ps: seq<Option<Formula>>, v: seq<Value>) {
    forall k :: 0 <= k < |ps| ==> OptHolds(ps[k], v) != MOD
  }

  predicate CalmDefaults(ds: seq<Default>, v: seq<Value>) {
    forall k :: 0 <= k < |ds| ==> OptHolds(ds[k].cond, v) != MOD && Holds(ds[k].value, v) != MOD
  }

  predicate CalmRanges(rs: seq<Bounds>, v: seq<Value>) {
    forall k :: 0 <= k < |rs| ==> OptHolds(rs[k].cond, v) != MOD
  }

  predicate CalmVisibility(s: Setup, i: nat, v: seq<Value>)
    requires i < |s.syms|
  {
    && CalmPrompts(s.syms[i].prompts, v)
    && (s.syms[i].choice.Some? && s.syms[i].choice.value < |s.choices| ==> CalmPrompts(s.choices[s.syms[i].choice.value].prompts, v))
  }

  /** The mode that get_mode starts from. A choice that is not optional starts from `m`. */
  predicate CalmMode(s: Setup, u: Entries, c: nat)
    requires c < |s.choices| && |u.modes| == |s.choices|
  {
    s.choices[c].stype.Boolean? || (if u.modes[c].Some? then u.modes[c].value != MOD else s.choices[c].optional)
  }

  /** The evaluation of a choice meets no `m`. */
  predicate CalmChoice(s: Setup, u: Entries, c: nat, v: seq<Value>)
    requires c < |s.choices| && |u.modes| == |s.choices|
  {
    var d := s.choices[c];
    && CalmPrompts(d.prompts, v) && CalmMode(s, u, c)
    && (forall k :: 0 <= k < |d.defaults| ==> OptHolds(d.defaults[k].cond, v) != MOD)
    && (forall k :: 0 <= k < |d.defaults| && d.defaults[k].sym < |s.syms| ==> CalmVisibility(s, d.defaults[k].sym, v))
    && (forall m :: m in d.actual && m < |s.syms| ==> CalmVisibility(s, m, v))
  }

  /** The evaluation of a symbol meets no `m`. */
  predicate Calm(s: Setup, u: Entries, i: nat, v: seq<Value>)
    requires i < |s.syms| && |u.vals| == |s.syms| && |u.modes| == |s.choices|
  {
    var d := s.syms[i];
    && CalmVisibility(s, i, v) && CalmDefaults(d.defaults, v) && CalmRanges(d.ranges, v) && Holds(d.revDep, v) != MOD
    && (IsTri(d.stype) && u.vals[i].Some? ==> TextTruth(u.vals[i].value) != MOD)
    && (d.choice.Some? && d.choice.value < |s.choices| ==> CalmChoice(s, u, d.choice.value, v))
  }

  lemma {:induction false} CalmPromptMax(ps: seq<Option<Formula>>, a: bool, b: bool, v: seq<Value>, k: nat)
    requires k <= |ps| && CalmPrompts(ps, v)
    ensures PromptMax(ps, a, v, k) == PromptMax(ps, b, v, k) != MOD
    decreases |ps| - k
  {
    if k < |ps| {
      CalmPromptMax(ps, a, b, v, k + 1);
    }
  }

  lemma {:induction false} CalmFirstDefault(ds: seq<Default>, a: bool, b: bool, v: seq<Value>, k: nat)
    requires k <= |ds| && CalmDefaults(ds, v)
    ensures FirstDefault(ds, a, v, k) == FirstDefault(ds, b, v, k)
    ensures FirstDefault(ds, a, v, k).Some? ==>
              var f := FirstDefault(ds, a, v, k).value; f.1 != MOD && Holds(f.0, v) != MOD
    decreases |ds| - k
  {
    if k < |ds| {
      CalmFirstDefault(ds, a, b, v, k + 1);
    }
  }

  lemma {:induction false} CalmFirstRange(rs: seq<Bounds>, a: bool, b: bool, v: seq<Value>, k: nat)
    requires k <= |rs| && CalmRanges(rs, v)
    ensures FirstRange(rs, a, v, k) == FirstRange(rs, b, v, k)
    decreases |rs| - k
  {
    if k < |rs| {
      CalmFirstRange(rs, a, b, v, k + 1);
    }
  }

  lemma CalmVisible(s: Setup, on: bool, i: nat, v: seq<Value>)
    requires Known(s) && Known(Switched(s, on)) && i < |s.syms| && CalmVisibility(s, i, v)
    ensures Visibility(Switched(s, on), i, v) == Visibility(s, i, v) != MOD
  {
    var d := s.syms[i];
    assert KnownSym(s, i);
    CalmPromptMax(d.prompts, on, s.modules, v, 0);
    if d.choice.Some? {
      CalmPromptMax(s.choices[d.choice.value].prompts, on, s.modules, v, 0);
    }
  }

  lemma {:induction false} CalmFirstVisible(s: Setup, on: bool, ms: seq<nat>, v: seq<Value>)
    requires Known(s) && Known(Switched(s, on))
    requires forall k :: 0 <= k < |ms| ==> ms[k] < |s.syms| && CalmVisibility(s, ms[k], v)
    ensures FirstVisible(Switched(s, on), ms, v) == FirstVisible(s, ms, v)
  {
    if ms != [] {
      CalmVisible(s, on, ms[0], v);
      CalmFirstVisible(s, on, ms[1..], v);
    }
  }

  lemma {:induction false} CalmChosen(s: Setup, on: bool, c: nat, v: seq<Value>, k: nat)
    requires Known(s) && Known(Switched(s, on)) && c < |s.choices| && k <= |s.choices[c].defaults|
    requires forall j :: 0 <= j < |s.choices[c].defaults| ==> OptHolds(s.choices[c].defaults[j].cond, v) != MOD
    ensures Chosen(Switched(s, on), c, v, k) == Chosen(s, c, v, k)
    decreases |s.choices[c].defaults| - k
  {
    if k < |s.choices[c].defaults| {
      CalmChosen(s, on, c, v, k + 1);
    }
  }

  /** A choice whose evaluation meets no `m` has the same mode and selection with modules on and off. */
  lemma CalmSelection(s: Setup, on: bool, u: Entries, c: nat, v: seq<Value>)
    requires Known(s) && Known(Switched(s, on)) && KnownEntries(s, u) && KnownEntries(Switched(s, on), u)
    requires c < |s.choices| && CalmChoice(s, u, c, v)
    ensures ChoiceVisibility(Switched(s, on), c, v) == ChoiceVisibility(s, c, v)
    ensures Mode(Switched(s, on), u, c, v) == Mode(s, u, c, v)
    ensures Selection(Switched(s, on), u, c, v) == Selection(s, u, c, v)
  {
    var t, d := Switched(s, on), s.choices[c];
    assert KnownChoice(s, c);
    CalmPromptMax(d.prompts, on, s.modules, v, 0);
    CalmChosen(s, on, c, v, 0);
    CalmVisible(s, on, Chosen(s, c, v, 0), v);
    CalmFirstVisible(s, on, d.actual, v);
    if u.picks[c].Some? {
      CalmVisible(s, on, u.picks[c].value, v);
    }
  }

  lemma CalmTruth(s: Setup, on: bool, u: Entries, i: nat, v: seq<Value>)
    requires Known(s) && Known(Switched(s, on)) && KnownEntries(s, u) && KnownEntries(Switched(s, on), u)
    requires i < |s.syms| && Calm(s, u, i, v) && IsTri(s.syms[i].stype)
    ensures s.syms[i].choice.Some? ==> MemberTruth(Switched(s, on), u, i, v) == MemberTruth(s, u, i, v)
    ensures s.syms[i].choice.None? ==> PlainTruth(Switched(s, on), u, i, v) == PlainTruth(s, u, i, v)
  {
    var d := s.syms[i];
    assert KnownSym(s, i);
    CalmVisible(s, on, i, v);
    if d.choice.Some? {
      CalmSelection(s, on, u, d.choice.value, v);
    }
    CalmFirstDefault(d.defaults, on, s.modules, v, 0);
    hide Visibility, FirstDefault, Selection, Mode, CalmVisibility, CalmChoice, CalmDefaults, Holds, PromptMax, KnownSym, Known;
  }

  lemma {:induction false} CalmNumberFrom(s: Setup, on: bool, d: SymDecl, v: seq<Value>, k: nat, text: string)
    requires k <= |d.defaults| && CalmDefaults(d.defaults, v) && CalmRanges(d.ranges, v)
    ensures NumberFrom(Switched(s, on), d, v, k, text) == NumberFrom(s, d, v, k, text)
    decreases |d.defaults| - k
  {
    CalmFirstRange(d.ranges, on, s.modules, v, 0);
    if k < |d.defaults| {
      CalmNumberFrom(s, on, d, v, k + 1, text);
      CalmNumberFrom(s, on, d, v, k + 1, DefaultText(d.defaults[k].value, v));
    }
  }

  lemma CalmText(s: Setup, on: bool, u: Entries, i: nat, v: seq<Value>)
    requires Known(s) && Known(Switched(s, on)) && KnownEntries(s, u) && KnownEntries(Switched(s, on), u)
    requires i < |s.syms| && Calm(s, u, i, v)
    ensures StringValue(Switched(s, on), u, i, v) == StringValue(s, u, i, v)
    ensures NumberValue(Switched(s, on), u, i, v) == NumberValue(s, u, i, v)
  {
    CalmVisible(s, on, i, v);
    CalmFirstDefault(s.syms[i].defaults, on, s.modules, v, 0);
    CalmFirstRange(s.syms[i].ranges, on, s.modules, v, 0);
    CalmNumberFrom(s, on, s.syms[i], v, 0, "");
    hide Visibility, FirstDefault, FirstRange, CalmVisibility, CalmChoice, CalmDefaults, Holds, KnownSym, Known, NumberFrom;
  }

  /** A symbol whose evaluation meets no `m` has the same value with modules on and off. */
  lemma CalmValue(s: Setup, on: bool, u: Entries, i: nat, v: seq<Value>)
    requires Known(s) && Known(Switched(s, on)) && KnownEntries(s, u) && KnownEntries(Switched(s, on), u)
    requires i < |s.syms| && Calm(s, u, i, v)
    ensures ValueOf(Switched(s, on), u, i, v) == ValueOf(s, u, i, v)
    ensures Visibility(Switched(s, on), i, v) == Visibility(s, i, v)
  {
    CalmVisible(s, on, i, v);
    if IsTri(s.syms[i].stype) {
      CalmTruth(s, on, u, i, v);
    }
    CalmText(s, on, u, i, v);
    hide Visibility, MemberTruth, PlainTruth, StringValue, NumberValue, Calm, KnownSym, Known;
  }

  // ---------------------------------------------------------------- the value of MODULES

  /** No quoted `m` counts as a truth value in the expression. */
  predicate MFree(f: Formula) {
    match f
    case Leaf(x) => x != Literal("m")
    case All(terms) => MFreeTerms(terms)
    case Any(terms) => MFreeTerms(terms)
    case Neg(g) => MFree(g)
    case Compare(_, _, _) => true
  }

  predicate MFreeTerms(terms: seq<Formula>) {
    terms == [] || (MFree(terms[0]) && MFreeTerms(terms[1..]))
  }

  predicate MFreeOpt(f: Option<Formula>) {
    f.Some? ==> MFree(f.value)
  }

  predicate MFreeDecl(d: SymDecl) {
    && (forall k :: 0 <= k < |d.prompts| ==> MFreeOpt(d.prompts[k]))
    && (forall k :: 0 <= k < |d.defaults| ==> MFreeOpt(d.defaults[k].cond) && MFree(d.defaults[k].value))
    && (forall k :: 0 <= k < |d.ranges| ==> MFreeOpt(d.ranges[k].cond))
    && MFree(d.revDep)
  }

  /** A symbol whose own evaluation never asks for MODULES. */
  predicate GroundedSym(d: SymDecl) {
    if d.special.Some? then d.special.value != Truth(MOD)
    else !d.stype.ThreeState? && d.choice.None? && MFreeDecl(d)
  }

  predicate InCone(s: Setup, rank: Ranks, i: nat) {
    s.modulesSym.Some? && s.modulesSym.value < |rank| && i < |rank| && rank[i] <= rank[s.modulesSym.value]
  }

  /** MODULES is computed without meeting an `m`; otherwise get_value would call itself forever. */
  predicate Grounded(s: Setup, rank: Ranks) {
    forall i :: 0 <= i < |s.syms| && InCone(s, rank, i) ==> GroundedSym(s.syms[i])
  }

  /** The check of _set_user_value_no_invalidate lets no `m` through for bool symbols. */
  predicate BoolEntries(s: Setup, u: Entries) {
    forall i :: 0 <= i < |s.syms| && i < |u.vals| && s.syms[i].stype.Boolean? && u.vals[i].Some? ==> TextTruth(u.vals[i].value) != MOD
  }

  lemma {:induction false} MFreeHolds(f: Formula, v: seq<Value>)
    requires MFree(f) && forall x :: x in Refs(f) && x < |v| ==> v[x] != Truth(MOD)
    ensures Holds(f, v) != MOD
  {
    match f
    case Leaf(x) =>
    case All(terms) => MFreeTermsHold(terms, v);
    case Any(terms) => MFreeTermsHold(terms, v);
    case Neg(g) => MFreeHolds(g, v);
    case Compare(_, _, _) =>
  }

  lemma {:induction false} MFreeTermsHold(terms: seq<Formula>, v: seq<Value>)
    requires MFreeTerms(terms) && forall x :: x in RefsOf(terms) && x < |v| ==> v[x] != Truth(MOD)
    ensures HoldAll(terms, v) != MOD && HoldAny(terms, v) != MOD
  {
    if terms != [] {
      MFreeHolds(terms[0], v);
      MFreeTermsHold(terms[1..], v);
    }
  }

  lemma ConeNeverM(s: Setup, u: Entries, rank: Ranks, v: seq<Value>, i: nat)
    requires Known(s) && KnownEntries(s, u) && Ranked(s, rank) && Grounded(s, rank) && Solves(s, u, v)
    requires i < |s.syms| && InCone(s, rank, i)
    ensures v[i] != Truth(MOD)
  {
    assert GroundedSym(s.syms[i]) && v[i] == ValueOf(s, u, i, v).0;
  }

  lemma ConeReads(s: Setup, u: Entries, rank: Ranks, v: seq<Value>, i: nat)
    requires Known(s) && KnownEntries(s, u) && Ranked(s, rank) && Grounded(s, rank) && Solves(s, u, v)
    requires i < |s.syms| && InCone(s, rank, i)
    ensures forall x :: x in Reads(s, i) && x < |v| ==> v[x] != Truth(MOD)
  {
    assert RankedSym(s, rank, i);
    forall x | x in Reads(s, i) && x < |v| ensures v[x] != Truth(MOD) {
      ConeNeverM(s, u, rank, v, x);
    }
  }

  /** Whatever MODULES is computed from is evaluated without asking for MODULES. */
  lemma ConeIsCalm(s: Setup, u: Entries, rank: Ranks, v: seq<Value>, i: nat)
    requires Known(s) && KnownEntries(s, u) && BoolEntries(s, u) && Ranked(s, rank) && Grounded(s, rank) && Solves(s, u, v)
    requires i < |s.syms| && InCone(s, rank, i) && s.syms[i].special.None?
    ensures Calm(s, u, i, v) && s.syms[i].choice.None?
  {
    var d := s.syms[i];
    ConeReads(s, u, rank, v, i);
    assert GroundedSym(d);
    forall k | 0 <= k < |d.prompts| ensures OptHolds(d.prompts[k], v) != MOD {
      assert forall x :: x in OptRefs(d.prompts[k]) ==> x in PromptRefs(d.prompts);
      if d.prompts[k].Some? { MFreeHolds(d.prompts[k].value, v); }
    }
    forall k | 0 <= k < |d.defaults| ensures OptHolds(d.defaults[k].cond, v) != MOD && Holds(d.defaults[k].value, v) != MOD {
      var e := d.defaults[k];
      assert forall x :: x in Refs(e.value) + OptRefs(e.cond) ==> x in DefaultRefs(d.defaults);
      assert Refs(e.value) <= Refs(e.value) + OptRefs(e.cond) && OptRefs(e.cond) <= Refs(e.value) + OptRefs(e.cond);
      MFreeHolds(e.value, v);
      if e.cond.Some? { MFreeHolds(e.cond.value, v); }
    }
    forall k | 0 <= k < |d.ranges| ensures OptHolds(d.ranges[k].cond, v) != MOD {
      var r := d.ranges[k];
      assert forall x :: x in OperandRefs(r.low) + OperandRefs(r.high) + OptRefs(r.cond) ==> x in RangeRefs(d.ranges);
      assert OptRefs(r.cond) <= OperandRefs(r.low) + OperandRefs(r.high) + OptRefs(r.cond);
      if r.cond.Some? { MFreeHolds(r.cond.value, v); }
    }
    MFreeHolds(d.revDep, v);
  }

  /** The value of MODULES, and of what it is computed from, is the same with modules on and off. */
  lemma {:induction false} ConeAgrees(s: Setup, on: bool, u: Entries, rank: Ranks, v: seq<Value>, w: seq<Value>, r: nat)
    requires Known(s) && Known(Switched(s, on)) && Ranked(s, rank) && Ranked(Switched(s, on), rank) && Grounded(s, rank)
    requires KnownEntries(s, u) && KnownEntries(Switched(s, on), u) && BoolEntries(s, u)
    requires Solves(s, u, v) && Solves(Switched(s, on), u, w)
    ensures forall i :: 0 <= i < |s.syms| && rank[i] < r && InCone(s, rank, i) ==> v[i] == w[i]
  {
    if r > 0 {
      ConeAgrees(s, on, u, rank, v, w, r - 1);
      forall i | 0 <= i < |s.syms| && rank[i] < r && InCone(s, rank, i) ensures v[i] == w[i] {
        ConeAgreesAt(s, on, u, rank, v, w, i);
      }
    }
  }

  lemma ConeAgreesAt(s: Setup, on: bool, u: Entries, rank: Ranks, v: seq<Value>, w: seq<Value>, i: nat)
    requires Known(s) && Known(Switched(s, on)) && Ranked(s, rank) && Ranked(Switched(s, on), rank) && Grounded(s, rank)
    requires KnownEntries(s, u) && KnownEntries(Switched(s, on), u) && BoolEntries(s, u)
    requires Solves(s, u, v) && Solves(Switched(s, on), u, w)
    requires i < |s.syms| && InCone(s, rank, i)
    requires forall j :: 0 <= j < |s.syms| && rank[j] < rank[i] && InCone(s, rank, j) ==> v[j] == w[j]
    ensures v[i] == w[i]
  {
    var t := Switched(s, on);
    assert v[i] == ValueOf(s, u, i, v).0 && w[i] == ValueOf(t, u, i, w).0;
    if s.syms[i].special.None? {
      ConeIsCalm(s, u, rank, v, i);
      CalmValue(s, on, u, i, v);
      assert RankedSym(s, rank, i) && KnownSym(t, i) && Reads(t, i) == Reads(s, i);
      ValueAgrees(t, u, u, i, v, w);
    }
  }

  /** The setup with the answer that _has_modules gives under the entries. */
  function Live(s: Setup, u: Entries, rank: Ranks): (t: Setup)
    requires Known(s) && KnownEntries(s, u) && |rank| == |s.syms|
  {
    SwitchedKnown(s, false);
    Switched(s, ModulesOn(s, FromScratch(Switched(s, false), u, rank)))
  }

  /** That answer fits the values it leads to, and no other does. */
  lemma LiveFits(s: Setup, u: Entries, rank: Ranks, on: bool)
    requires Known(s) && KnownEntries(s, u) && BoolEntries(s, u) && Ranked(s, rank) && Grounded(s, rank)
    ensures Known(Switched(s, on)) && KnownEntries(Switched(s, on), u)
    ensures ModulesOn(s, FromScratch(Switched(s, on), u, rank)) == on <==> Live(s, u, rank) == Switched(s, on)
  {
    var off := Switched(s, false);
    SwitchedKnown(s, false);
    SwitchedKnown(off, on);
    assert Switched(off, on) == Switched(s, on) && Ranked(off, rank) && Grounded(off, rank);
    FromScratchSolves(off, u, rank);
    FromScratchSolves(Switched(s, on), u, rank);
    ConeAgrees(off, on, u, rank, FromScratch(off, u, rank), FromScratch(Switched(s, on), u, rank), MaxRank(rank) + 1);
  }

  // ---------------------------------------------------------------- what a change of MODULES leaves alone

  /** Outside `xs` no evaluation meets an `m`. */
  ghost predicate Unseen(s: Setup, u: Entries, v: seq<Value>, xs: set<nat>)
    requires Known(s) && KnownEntries(s, u)
  {
    && (forall i :: 0 <= i < |s.syms| && i !in xs && s.syms[i].special.None? ==> Calm(s, u, i, v))
    && (forall c :: 0 <= c < |s.choices| && Apart(s, c, xs) ==> CalmChoice(s, u, c, v))
  }

  /** Then values outside are the same with modules on and off. */
  lemma {:induction false} SwitchBelow(s: Setup, on: bool, u: Entries, xs: set<nat>, rank: Ranks, v: seq<Value>, w: seq<Value>, r: nat)
    requires Switchable(s, on, u, rank, v, w) && Unseen(s, u, v, xs)
    requires Closed(Switched(s, on), xs) && AllWatched(Switched(s, on), xs)
    ensures SameApart(rank, xs, v, w, r)
  {
    if r > 0 {
      SwitchBelow(s, on, u, xs, rank, v, w, r - 1);
      forall i | 0 <= i < |s.syms| && rank[i] < r && i !in xs ensures v[i] == w[i] {
        SwitchAt(s, on, u, xs, rank, v, w, i);
      }
    }
  }

  ghost predicate Switchable(s: Setup, on: bool, u: Entries, rank: Ranks, v: seq<Value>, w: seq<Value>) {
    && Known(s) && Known(Switched(s, on)) && Ranked(s, rank) && Ranked(Switched(s, on), rank)
    && KnownEntries(s, u) && KnownEntries(Switched(s, on), u)
    && Solves(s, u, v) && Solves(Switched(s, on), u, w)
  }

  lemma SwitchAt(s: Setup, on: bool, u: Entries, xs: set<nat>, rank: Ranks, v: seq<Value>, w: seq<Value>, i: nat)
    requires Switchable(s, on, u, rank, v, w) && Unseen(s, u, v, xs)
    requires Closed(Switched(s, on), xs) && AllWatched(Switched(s, on), xs)
    requires i < |s.syms| && i !in xs && SameApart(rank, xs, v, w, rank[i])
    ensures v[i] == w[i] && ValueOf(s, u, i, v) == ValueOf(Switched(s, on), u, i, w)
    ensures Visibility(s, i, v) == Visibility(Switched(s, on), i, w)
  {
    var t := Switched(s, on);
    assert v[i] == ValueOf(s, u, i, v).0 && w[i] == ValueOf(t, u, i, w).0;
    SameInputsApart(t, u, u, xs, rank, i, v, w);
    ValueAgrees(t, u, u, i, v, w);
    VisibilityAgrees(t, i, v, w);
    if s.syms[i].special.None? {
      CalmValue(s, on, u, i, v);
    } else {
      assert KnownSym(s, i);
    }
  }

  lemma SwitchChoice(s: Setup, on: bool, u: Entries, xs: set<nat>, rank: Ranks, v: seq<Value>, w: seq<Value>, c: nat)
    requires Switchable(s, on, u, rank, v, w) && Unseen(s, u, v, xs)
    requires Closed(Switched(s, on), xs) && AllWatched(Switched(s, on), xs)
    requires c < |s.choices| && Apart(s, c, xs)
    ensures ChoiceVisibility(s, c, v) == ChoiceVisibility(Switched(s, on), c, w)
    ensures Selection(s, u, c, v) == Selection(Switched(s, on), u, c, w)
  {
    var t := Switched(s, on);
    assert Apart(t, c, xs);
    SwitchBelow(s, on, u, xs, rank, v, w, ChoiceRank(t, rank, c));
    SameAroundApart(t, xs, rank, c, v, w);
    ChoiceAgrees(t, u, u, c, v, w);
    CalmSelection(s, on, u, c, v);
  }
}
