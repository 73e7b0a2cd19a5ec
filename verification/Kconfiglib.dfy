/** What kconfiglib.py computes when nothing is cached: the value, visibility and choice selection
    that the current user entries give to each symbol. */
module Kconfiglib {
  import opened Tristates
  import opened RankNumbers
  import opened Expressions
  import opened Formulas
  import T = ConfigText

  type Chars = T.Chars

  datatype Default = Default(value: Formula, cond: Option<Formula>)

  datatype Bounds = Bounds(low: Operand, high: Operand, cond: Option<Formula>)

  /** class Symbol, as parsed. `choice` is its parent if is_choice_symbol_ is set; `special`
      holds the value of a symbol with is_special_ set. */
  datatype SymDecl = SymDecl(name: string, stype: SymbolType, special: Option<Value>,
                             prompts: seq<Option<Formula>>, defaults: seq<Default>, revDep: Formula,
                             ranges: seq<Bounds>, choice: Option<nat>)

  datatype ChoiceDefault = ChoiceDefault(sym: nat, cond: Option<Formula>)

  /** class Choice, as parsed. */
  datatype ChoiceDecl = ChoiceDecl(stype: SymbolType, optional: bool, prompts: seq<Option<Formula>>,
                                   defaults: seq<ChoiceDefault>, actual: seq<nat>)

  /** A parsed Kconfig. `modulesSym` is the symbol named MODULES; `modules` is what _has_modules()
      answers; `parse` is Python's int(text, base), None where it raises ValueError; `show` is str()
      for base 10 and hex() for base 16; `chars` says how files are read. */
  datatype Setup = Setup(modules: bool, modulesSym: Option<nat>,
                         parse: (string, nat) -> Option<int>, show: (int, nat) -> string, chars: Chars,
                         syms: seq<SymDecl>, choices: seq<ChoiceDecl>)

  /** user_val of the symbols, user_val and user_mode of the choices. */
  datatype Entries = Entries(vals: seq<Option<string>>, picks: seq<Option<nat>>, modes: seq<Option<Tristate>>)

  predicate IsTri(t: SymbolType) {
    t.Boolean? || t.ThreeState?
  }

  // ---------------------------------------------------------------- what depends on what

  function PromptRefs(prompts: seq<Option<Formula>>): set<nat> {
    set k, x | 0 <= k < |prompts| && x in OptRefs(prompts[k]) :: x
  }

  function DefaultRefs(ds: seq<Default>): set<nat> {
    set k, x | 0 <= k < |ds| && x in Refs(ds[k].value) + OptRefs(ds[k].cond) :: x
  }

  function RangeRefs(rs: seq<Bounds>): set<nat> {
    set k, x | 0 <= k < |rs| && x in OperandRefs(rs[k].low) + OperandRefs(rs[k].high) + OptRefs(rs[k].cond) :: x
  }

  function ChoiceDefaultRefs(ds: seq<ChoiceDefault>): set<nat> {
    set k, x | 0 <= k < |ds| && x in OptRefs(ds[k].cond) :: x
  }

  function OwnRefs(d: SymDecl): set<nat> {
    PromptRefs(d.prompts) + DefaultRefs(d.defaults) + Refs(d.revDep) + RangeRefs(d.ranges)
  }

  function ChoiceRefs(c: ChoiceDecl): set<nat> {
    PromptRefs(c.prompts) + ChoiceDefaultRefs(c.defaults)
  }

  /** The symbols that list `i` in their `dep` set. */
  function Reads(s: Setup, i: nat): set<nat>
    requires i < |s.syms|
  {
    OwnRefs(s.syms[i]) +
    (if s.syms[i].choice.Some? && s.syms[i].choice.value < |s.choices| then ChoiceRefs(s.choices[s.syms[i].choice.value]) else {})
  }

  /** The symbols that the visibility of `i` is computed from. */
  function VisRefs(s: Setup, i: nat): set<nat>
    requires i < |s.syms|
  {
    PromptRefs(s.syms[i].prompts) +
    (if s.syms[i].choice.Some? && s.syms[i].choice.value < |s.choices| then PromptRefs(s.choices[s.syms[i].choice.value].prompts) else {})
  }

  predicate KnownSym(s: Setup, i: nat)
    requires i < |s.syms|
  {
    var d := s.syms[i];
    && (d.name == "MODULES" <==> s.modulesSym == Some(i))
    && (forall x :: x in Reads(s, i) ==> x < |s.syms|)
    && !d.stype.Other?
    // the default of a string, int or hex symbol is a symbol or a constant
    && (!IsTri(d.stype) ==> forall k :: 0 <= k < |d.defaults| ==> d.defaults[k].value.Leaf?)
    && (d.choice.Some? ==> d.choice.value < |s.choices| && i in s.choices[d.choice.value].actual)
    && (d.special.Some? ==> d.prompts == [] && d.choice.None? && (d.special.value.Truth? <==> IsTri(d.stype)))
  }

  /** Every choice has an actual symbol. Its defaults may name any symbol. */
  predicate KnownChoice(s: Setup, c: nat)
    requires c < |s.choices|
  {
    var d := s.choices[c];
    && d.actual != []
    && (forall k :: 0 <= k < |d.actual| ==> d.actual[k] < |s.syms| && s.syms[d.actual[k]].choice == Some(c))
    && (forall k :: 0 <= k < |d.defaults| ==> d.defaults[k].sym < |s.syms|)
  }

  predicate Known(s: Setup) {
    && (s.modulesSym.Some? ==> s.modulesSym.value < |s.syms|)
    && (forall i :: 0 <= i < |s.syms| ==> KnownSym(s, i))
    && (forall c :: 0 <= c < |s.choices| ==> KnownChoice(s, c))
  }

  predicate KnownEntries(s: Setup, u: Entries) {
    && |u.vals| == |s.syms| && |u.picks| == |s.choices| == |u.modes|
    && forall c :: 0 <= c < |u.picks| && u.picks[c].Some? ==> u.picks[c].value in s.choices[c].actual
  }

  /** No recursive dependencies: a symbol ranks above the symbols it reads. The symbols of one
      choice, which read each other's visibility, share a rank, above what the visibilities of the
      choice's defaults are computed from. */
  predicate RankedSym(s: Setup, rank: Ranks, i: nat)
    requires i < |s.syms| && |rank| == |s.syms|
  {
    forall x :: x in Reads(s, i) ==> x < |rank| && rank[x] < rank[i]
  }

  predicate RankedChoice(s: Setup, rank: Ranks, c: nat)
    requires c < |s.choices| && |rank| == |s.syms|
  {
    && (forall m, n :: m in s.choices[c].actual && n in s.choices[c].actual && m < |rank| && n < |rank| ==> rank[m] == rank[n])
    && (forall k, m :: 0 <= k < |s.choices[c].defaults| && m in s.choices[c].actual ==> DefaultBelow(s, rank, s.choices[c].defaults[k].sym, m))
  }

  predicate DefaultBelow(s: Setup, rank: Ranks, i: nat, m: nat)
    requires |rank| == |s.syms|
  {
    i < |s.syms| && m < |s.syms| ==> forall x :: x in VisRefs(s, i) ==> x < |rank| && rank[x] < rank[m]
  }

  predicate Ranked(s: Setup, rank: Ranks) {
    && |rank| == |s.syms|
    && (forall i :: 0 <= i < |s.syms| ==> RankedSym(s, rank, i))
    && (forall c :: 0 <= c < |s.choices| ==> RankedChoice(s, rank, c))
  }

  function ChoiceRank(s: Setup, rank: Ranks, c: nat): nat
    requires Known(s) && c < |s.choices| && |rank| == |s.syms|
  {
    assert KnownChoice(s, c);
    rank[s.choices[c].actual[0]]
  }

  lemma MemberRank(s: Setup, rank: Ranks, c: nat, m: nat)
    requires Known(s) && Ranked(s, rank) && c < |s.choices| && m in s.choices[c].actual
    ensures m < |s.syms| && s.syms[m].choice == Some(c) && rank[m] == ChoiceRank(s, rank, c)
  {
    assert KnownChoice(s, c) && RankedChoice(s, rank, c);
    assert s.choices[c].actual[0] in s.choices[c].actual;
  }

  // ---------------------------------------------------------------- visibility and choices

  /** The highest prompt condition from `k` on. */
  function PromptMax(prompts: seq<Option<Formula>>, modules: bool, v: seq<Value>, k: nat): (r: Tristate)
    requires k <= |prompts|
    ensures !modules ==> r != MOD
    decreases |prompts| - k
  {
    if k == |prompts| then NO
    else Max(Condition(prompts[k], modules, v), PromptMax(prompts, modules, v, k + 1))
  }

  function OnlyTristate(t: Tristate, stype: SymbolType): Tristate {
    if t == MOD && !stype.ThreeState? then YES else t
  }

  /** _get_visibility of a choice */
  function ChoiceVisibility(s: Setup, c: nat, v: seq<Value>): Tristate
    requires c < |s.choices|
  {
    OnlyTristate(PromptMax(s.choices[c].prompts, s.modules, v, 0), s.choices[c].stype)
  }

  /** _get_visibility of a symbol */
  function Visibility(s: Setup, i: nat, v: seq<Value>): Tristate
    requires Known(s) && i < |s.syms|
  {
    assert KnownSym(s, i);
    var d := s.syms[i];
    var own := PromptMax(d.prompts, s.modules, v, 0);
    OnlyTristate(if d.choice.Some? then Min(own, Raise(ChoiceVisibility(s, d.choice.value, v), s.modules)) else own, d.stype)
  }

  /** Choice.get_mode */
  function Mode(s: Setup, u: Entries, c: nat, v: seq<Value>): Tristate
    requires KnownEntries(s, u) && c < |s.choices|
  {
    var d := s.choices[c];
    var wanted := if u.modes[c].Some? then u.modes[c].value else if d.optional then NO else MOD;
    var mode := Min(Raise(wanted, s.modules), Raise(ChoiceVisibility(s, c, v), s.modules));
    if mode == MOD && d.stype.Boolean? then YES else mode
  }

  function FirstVisible(s: Setup, ms: seq<nat>, v: seq<Value>): Option<nat>
    requires Known(s) && forall k :: 0 <= k < |ms| ==> ms[k] < |s.syms|
  {
    if ms == [] then None
    else if Visibility(s, ms[0], v) != NO then Some(ms[0])
    else FirstVisible(s, ms[1..], v)
  }

  /** The symbol named by the first default, from `k` on, whose condition holds, else the first
      actual symbol. */
  function Chosen(s: Setup, c: nat, v: seq<Value>, k: nat): (m: nat)
    requires Known(s) && c < |s.choices| && k <= |s.choices[c].defaults|
    ensures m < |s.syms|
    ensures m in s.choices[c].actual || exists j :: 0 <= j < |s.choices[c].defaults| && m == s.choices[c].defaults[j].sym
    decreases |s.choices[c].defaults| - k
  {
    assert KnownChoice(s, c);
    var ds := s.choices[c].defaults;
    if k == |ds| then s.choices[c].actual[0]
    else if Condition(ds[k].cond, s.modules, v) != NO then ds[k].sym
    else Chosen(s, c, v, k + 1)
  }

  /** Choice.get_selection_from_defaults */
  function DefaultSelection(s: Setup, c: nat, v: seq<Value>): Option<nat>
    requires Known(s) && c < |s.choices|
  {
    assert KnownChoice(s, c);
    var m := Chosen(s, c, v, 0);
    if Visibility(s, m, v) != NO then Some(m) else FirstVisible(s, s.choices[c].actual, v)
  }

  /** Choice.get_selection */
  function Selection(s: Setup, u: Entries, c: nat, v: seq<Value>): Option<nat>
    requires Known(s) && KnownEntries(s, u) && c < |s.choices|
  {
    assert KnownChoice(s, c);
    var pick := u.picks[c];
    if Mode(s, u, c, v) != YES then None
    else if pick.Some? && Visibility(s, pick.value, v) == YES then pick
    else if s.choices[c].optional then None
    else DefaultSelection(s, c, v)
  }

  // ---------------------------------------------------------------- values

  /** A value and write_to_conf. */
  type Outcome = (Value, bool)

  /** The first default from `k` on whose condition holds, with that condition. */
  function FirstDefault(ds: seq<Default>, modules: bool, v: seq<Value>, k: nat): Option<(Formula, Tristate)>
    requires k <= |ds|
    decreases |ds| - k
  {
    if k == |ds| then None
    else
      var c := Condition(ds[k].cond, modules, v);
      if c != NO then Some((ds[k].value, c)) else FirstDefault(ds, modules, v, k + 1)
  }

  function FirstRange(rs: seq<Bounds>, modules: bool, v: seq<Value>, k: nat): Option<Bounds>
    requires k <= |rs|
    decreases |rs| - k
  {
    if k == |rs| then None
    else if Condition(rs[k].cond, modules, v) != NO then Some(rs[k])
    else FirstRange(rs, modules, v, k + 1)
  }

  /** Before a bool symbol has its `m` promoted. */
  function MemberTruth(s: Setup, u: Entries, i: nat, v: seq<Value>): (Tristate, bool)
    requires Known(s) && KnownEntries(s, u) && i < |s.syms| && s.syms[i].choice.Some?
  {
    assert KnownSym(s, i);
    var c := s.syms[i].choice.value;
    if Visibility(s, i, v) == NO then (NO, false)
    else
      var mode := Mode(s, u, c, v);
      (if mode == YES then FromBool(Selection(s, u, c, v) == Some(i))
       else if mode == MOD && (u.vals[i] == Some("m") || u.vals[i] == Some("y")) then MOD
       else NO,
       mode != NO)
  }

  /** By entry or defaults, before selects. */
  function PlainBase(s: Setup, u: Entries, i: nat, v: seq<Value>): (Tristate, bool)
    requires Known(s) && KnownEntries(s, u) && i < |s.syms|
  {
    var d, vis := s.syms[i], Visibility(s, i, v);
    if vis != NO && u.vals[i].Some? then (Min(Raise(TextTruth(u.vals[i].value), s.modules), Raise(vis, s.modules)), true)
    else
      match FirstDefault(d.defaults, s.modules, v, 0)
      case None => (NO, vis != NO)
      case Some((e, c)) => (Min(Raise(Holds(e, v), s.modules), Raise(c, s.modules)), true)
  }

  function PlainTruth(s: Setup, u: Entries, i: nat, v: seq<Value>): (Tristate, bool)
    requires Known(s) && KnownEntries(s, u) && i < |s.syms|
  {
    var base, rev := PlainBase(s, u, i, v), Raise(Holds(s.syms[i].revDep, v), s.modules);
    if rev == NO then base else (Max(Raise(base.0, s.modules), rev), true)
  }

  function StringValue(s: Setup, u: Entries, i: nat, v: seq<Value>): (string, bool)
    requires Known(s) && KnownEntries(s, u) && i < |s.syms|
  {
    assert KnownSym(s, i);
    var d, vis := s.syms[i], Visibility(s, i, v);
    if vis != NO && u.vals[i].Some? then (u.vals[i].value, true)
    else
      match FirstDefault(d.defaults, s.modules, v, 0)
      case None => ("", vis != NO)
      case Some((e, _)) => (DefaultText(e, v), true)
  }

  function BaseOf(t: SymbolType): nat {
    if t.Hex? then 16 else 10
  }

  /** A bound of a range; text that is no number counts as 0. */
  function BoundValue(s: Setup, x: Operand, base: nat, v: seq<Value>): int {
    var n := s.parse(OperandText(x, v), base);
    if n.Some? then n.value else 0
  }

  predicate InRange(s: Setup, d: SymDecl, n: int, v: seq<Value>) {
    var r, base := FirstRange(d.ranges, s.modules, v, 0), BaseOf(d.stype);
    r.Some? ==> BoundValue(s, r.value.low, base, v) <= n <= BoundValue(s, r.value.high, base, v)
  }

  /** A default, moved into the range. */
  function Clamped(s: Setup, d: SymDecl, text: string, v: seq<Value>): string {
    var base, r := BaseOf(d.stype), FirstRange(d.ranges, s.modules, v, 0);
    var n := s.parse(text, base);
    if n.None? || r.None? then text
    else if n.value < BoundValue(s, r.value.low, base, v) then s.show(BoundValue(s, r.value.low, base, v), base)
    else if n.value > BoundValue(s, r.value.high, base, v) then s.show(BoundValue(s, r.value.high, base, v), base)
    else text
  }

  /** The loop over the defaults of an int or hex symbol, from `k` on, with the text of the last one
      before that held: one that is no number is given up for a later one, and at last for the low
      end of the range. */
  function NumberFrom(s: Setup, d: SymDecl, v: seq<Value>, k: nat, text: string): string
    requires k <= |d.defaults|
    decreases |d.defaults| - k
  {
    var base := BaseOf(d.stype);
    if k == |d.defaults| then
      var r := FirstRange(d.ranges, s.modules, v, 0);
      if r.Some? && BoundValue(s, r.value.low, base, v) > 0 then s.show(BoundValue(s, r.value.low, base, v), base) else text
    else if Condition(d.defaults[k].cond, s.modules, v) == NO then NumberFrom(s, d, v, k + 1, text)
    else
      var t := DefaultText(d.defaults[k].value, v);
      if s.parse(t, base).Some? then Clamped(s, d, t, v) else NumberFrom(s, d, v, k + 1, t)
  }

  /** The text of a default, which is a symbol or a constant. */
  function DefaultText(e: Formula, v: seq<Value>): string {
    if e.Leaf? then OperandText(e.x, v) else ""
  }

  /** An int or hex symbol without a usable entry. */
  function NumberDefault(s: Setup, i: nat, v: seq<Value>): (string, bool)
    requires Known(s) && i < |s.syms|
  {
    var d := s.syms[i];
    (NumberFrom(s, d, v, 0, ""), FirstDefault(d.defaults, s.modules, v, 0).Some? || Visibility(s, i, v) != NO)
  }

  function NumberValue(s: Setup, u: Entries, i: nat, v: seq<Value>): (string, bool)
    requires Known(s) && KnownEntries(s, u) && i < |s.syms|
  {
    var d, base := s.syms[i], BaseOf(s.syms[i].stype);
    if && Visibility(s, i, v) != NO && u.vals[i].Some? && s.parse(u.vals[i].value, base).Some?
       && InRange(s, d, s.parse(u.vals[i].value, base).value, v) then (u.vals[i].value, true)
    else NumberDefault(s, i, v)
  }

  /** Symbol.get_value, given the values of the symbols it reads. */
  function ValueOf(s: Setup, u: Entries, i: nat, v: seq<Value>): (r: Outcome)
    requires Known(s) && KnownEntries(s, u) && i < |s.syms|
    ensures r.0.Truth? <==> IsTri(s.syms[i].stype)
  {
    assert KnownSym(s, i);
    var d := s.syms[i];
    if d.special.Some? then (d.special.value, false)
    else if d.stype.Unknown? then (Text(d.name), false)
    else if IsTri(d.stype) then
      var (t, w) := if d.choice.Some? then MemberTruth(s, u, i, v) else PlainTruth(s, u, i, v);
      (Truth(if t == MOD && d.stype.Boolean? then YES else t), w)
    else
      var (x, w) := if d.stype.Str? then StringValue(s, u, i, v) else NumberValue(s, u, i, v);
      (Text(x), w)
  }

  // ---------------------------------------------------------------- values depend on what is read

  lemma {:induction false} PromptMaxAgrees(ps: seq<Option<Formula>>, modules: bool, v: seq<Value>, w: seq<Value>, k: nat)
    requires k <= |ps| && SameOn(PromptRefs(ps), v, w)
    ensures PromptMax(ps, modules, v, k) == PromptMax(ps, modules, w, k)
    decreases |ps| - k
  {
    if k < |ps| {
      assert forall x :: x in OptRefs(ps[k]) ==> x in PromptRefs(ps);
      ConditionAgrees(ps[k], modules, v, w);
      PromptMaxAgrees(ps, modules, v, w, k + 1);
    }
  }

  lemma {:induction false} FirstDefaultAgrees(ds: seq<Default>, modules: bool, v: seq<Value>, w: seq<Value>, k: nat)
    requires k <= |ds| && SameOn(DefaultRefs(ds), v, w)
    ensures FirstDefault(ds, modules, v, k) == FirstDefault(ds, modules, w, k)
    ensures FirstDefault(ds, modules, v, k).Some? ==>
              var e := FirstDefault(ds, modules, v, k).value.0;
              Holds(e, v) == Holds(e, w) && (e.Leaf? ==> OperandText(e.x, v) == OperandText(e.x, w))
    decreases |ds| - k
  {
    if k < |ds| {
      assert forall x :: x in OptRefs(ds[k].cond) ==> x in Refs(ds[k].value) + OptRefs(ds[k].cond);
      assert forall x :: x in Refs(ds[k].value) ==> x in Refs(ds[k].value) + OptRefs(ds[k].cond);
      ConditionAgrees(ds[k].cond, modules, v, w);
      HoldsAgrees(ds[k].value, v, w);
      FirstDefaultAgrees(ds, modules, v, w, k + 1);
    }
  }

  lemma {:induction false} FirstRangeAgrees(s: Setup, rs: seq<Bounds>, v: seq<Value>, w: seq<Value>, k: nat, base: nat)
    requires k <= |rs| && SameOn(RangeRefs(rs), v, w)
    ensures FirstRange(rs, s.modules, v, k) == FirstRange(rs, s.modules, w, k)
    ensures FirstRange(rs, s.modules, v, k).Some? ==>
              var r := FirstRange(rs, s.modules, v, k).value;
              BoundValue(s, r.low, base, v) == BoundValue(s, r.low, base, w) &&
              BoundValue(s, r.high, base, v) == BoundValue(s, r.high, base, w)
    decreases |rs| - k
  {
    if k < |rs| {
      var all := OperandRefs(rs[k].low) + OperandRefs(rs[k].high) + OptRefs(rs[k].cond);
      assert forall x :: x in all ==> x in RangeRefs(rs);
      assert OptRefs(rs[k].cond) <= all && OperandRefs(rs[k].low) <= all && OperandRefs(rs[k].high) <= all;
      ConditionAgrees(rs[k].cond, s.modules, v, w);
      FirstRangeAgrees(s, rs, v, w, k + 1, base);
    }
  }

  lemma {:induction false} NumberFromAgrees(s: Setup, d: SymDecl, v: seq<Value>, w: seq<Value>, k: nat, text: string)
    requires k <= |d.defaults| && SameOn(DefaultRefs(d.defaults), v, w) && SameOn(RangeRefs(d.ranges), v, w)
    ensures NumberFrom(s, d, v, k, text) == NumberFrom(s, d, w, k, text)
    decreases |d.defaults| - k
  {
    FirstRangeAgrees(s, d.ranges, v, w, 0, BaseOf(d.stype));
    if k < |d.defaults| {
      var e, t := d.defaults[k], DefaultText(d.defaults[k].value, v);
      assert forall x :: x in Refs(e.value) + OptRefs(e.cond) ==> x in DefaultRefs(d.defaults);
      assert OptRefs(e.cond) <= Refs(e.value) + OptRefs(e.cond) && Refs(e.value) <= Refs(e.value) + OptRefs(e.cond);
      ConditionAgrees(e.cond, s.modules, v, w);
      assert DefaultText(e.value, w) == t;
      NumberFromAgrees(s, d, v, w, k + 1, text);
      NumberFromAgrees(s, d, v, w, k + 1, t);
    }
  }

  lemma ChoiceVisibilityAgrees(s: Setup, c: nat, v: seq<Value>, w: seq<Value>)
    requires c < |s.choices| && SameOn(PromptRefs(s.choices[c].prompts), v, w)
    ensures ChoiceVisibility(s, c, v) == ChoiceVisibility(s, c, w)
  {
    PromptMaxAgrees(s.choices[c].prompts, s.modules, v, w, 0);
  }

  lemma VisibilityAgrees(s: Setup, i: nat, v: seq<Value>, w: seq<Value>)
    requires Known(s) && i < |s.syms| && SameOn(VisRefs(s, i), v, w)
    ensures Visibility(s, i, v) == Visibility(s, i, w)
  {
    assert KnownSym(s, i);
    PromptMaxAgrees(s.syms[i].prompts, s.modules, v, w, 0);
    if s.syms[i].choice.Some? {
      ChoiceVisibilityAgrees(s, s.syms[i].choice.value, v, w);
    }
  }

  /** What a choice reads, its actual symbols and its defaults included. */
  predicate SameAround(s: Setup, c: nat, v: seq<Value>, w: seq<Value>)
    requires Known(s) && c < |s.choices|
  {
    && (forall m :: m in s.choices[c].actual && m < |s.syms| ==> SameOn(Reads(s, m), v, w))
    && (forall k :: 0 <= k < |s.choices[c].defaults| ==> DefaultSeenAlike(s, s.choices[c].defaults[k].sym, v, w))
  }

  predicate DefaultSeenAlike(s: Setup, i: nat, v: seq<Value>, w: seq<Value>) {
    i < |s.syms| ==> SameOn(VisRefs(s, i), v, w)
  }

  lemma {:induction false} FirstVisibleAgrees(s: Setup, ms: seq<nat>, v: seq<Value>, w: seq<Value>)
    requires Known(s) && forall k :: 0 <= k < |ms| ==> ms[k] < |s.syms| && SameOn(Reads(s, ms[k]), v, w)
    ensures FirstVisible(s, ms, v) == FirstVisible(s, ms, w)
  {
    if ms != [] {
      VisibilityAgrees(s, ms[0], v, w);
      FirstVisibleAgrees(s, ms[1..], v, w);
    }
  }

  lemma {:induction false} ChosenAgrees(s: Setup, c: nat, v: seq<Value>, w: seq<Value>, k: nat)
    requires Known(s) && c < |s.choices| && k <= |s.choices[c].defaults|
    requires SameOn(ChoiceRefs(s.choices[c]), v, w)
    ensures Chosen(s, c, v, k) == Chosen(s, c, w, k)
    decreases |s.choices[c].defaults| - k
  {
    var ds := s.choices[c].defaults;
    if k < |ds| {
      assert forall x :: x in OptRefs(ds[k].cond) ==> x in ChoiceDefaultRefs(ds);
      ConditionAgrees(ds[k].cond, s.modules, v, w);
      ChosenAgrees(s, c, v, w, k + 1);
    }
  }

  lemma SameChoice(s: Setup, c: nat, v: seq<Value>, w: seq<Value>)
    requires Known(s) && c < |s.choices| && SameAround(s, c, v, w)
    ensures SameOn(ChoiceRefs(s.choices[c]), v, w)
  {
    assert KnownChoice(s, c);
    var m := s.choices[c].actual[0];
    assert m in s.choices[c].actual && KnownSym(s, m);
    assert ChoiceRefs(s.choices[c]) <= Reads(s, m);
  }

  predicate SameChoiceEntry(u: Entries, w: Entries, c: nat) {
    c < |u.picks| == |w.picks| && c < |u.modes| == |w.modes| && u.picks[c] == w.picks[c] && u.modes[c] == w.modes[c]
  }

  lemma DefaultSelectionAgrees(s: Setup, c: nat, v: seq<Value>, w: seq<Value>)
    requires Known(s) && c < |s.choices| && SameAround(s, c, v, w)
    ensures DefaultSelection(s, c, v) == DefaultSelection(s, c, w)
  {
    assert KnownChoice(s, c);
    SameChoice(s, c, v, w);
    ChosenAgrees(s, c, v, w, 0);
    var m := Chosen(s, c, v, 0);
    assert m in s.choices[c].actual || DefaultSeenAlike(s, m, v, w);
    VisibilityAgrees(s, m, v, w);
    FirstVisibleAgrees(s, s.choices[c].actual, v, w);
  }

  lemma ChoiceAgrees(s: Setup, u: Entries, u1: Entries, c: nat, v: seq<Value>, w: seq<Value>)
    requires Known(s) && KnownEntries(s, u) && KnownEntries(s, u1) && c < |s.choices|
    requires SameChoiceEntry(u, u1, c) && SameAround(s, c, v, w)
    ensures ChoiceVisibility(s, c, v) == ChoiceVisibility(s, c, w)
    ensures Mode(s, u, c, v) == Mode(s, u1, c, w)
    ensures Selection(s, u, c, v) == Selection(s, u1, c, w)
  {
    assert KnownChoice(s, c);
    SameChoice(s, c, v, w);
    ChoiceVisibilityAgrees(s, c, v, w);
    DefaultSelectionAgrees(s, c, v, w);
    if u.picks[c].Some? {
      VisibilityAgrees(s, u.picks[c].value, v, w);
    }
    hide Visibility, ChoiceVisibility, DefaultSelection, SameAround, ChoiceRefs;
  }

  /** What the value of a symbol is computed from is the same on both sides. */
  predicate SameInputs(s: Setup, u: Entries, u1: Entries, i: nat, v: seq<Value>, w: seq<Value>)
    requires Known(s) && KnownEntries(s, u) && KnownEntries(s, u1) && i < |s.syms|
  {
    assert KnownSym(s, i);
    var c := s.syms[i].choice;
    && u.vals[i] == u1.vals[i] && SameOn(Reads(s, i), v, w)
    && (c.Some? ==> SameChoiceEntry(u, u1, c.value) && SameAround(s, c.value, v, w))
  }

  lemma TruthAgrees(s: Setup, u: Entries, u1: Entries, i: nat, v: seq<Value>, w: seq<Value>)
    requires Known(s) && KnownEntries(s, u) && KnownEntries(s, u1) && i < |s.syms|
    requires SameInputs(s, u, u1, i, v, w)
    ensures s.syms[i].choice.Some? ==> MemberTruth(s, u, i, v) == MemberTruth(s, u1, i, w)
    ensures PlainTruth(s, u, i, v) == PlainTruth(s, u1, i, w)
  {
    var d := s.syms[i];
    assert SameOn(OwnRefs(d), v, w);
    hide Visibility, Mode, Selection, Reads, SameAround;
    assert KnownSym(s, i);
    VisibilityAgrees(s, i, v, w);
    if d.choice.Some? {
      ChoiceAgrees(s, u, u1, d.choice.value, v, w);
    }
    FirstDefaultAgrees(d.defaults, s.modules, v, w, 0);
    HoldsAgrees(d.revDep, v, w);
  }

  lemma TextAgrees(s: Setup, u: Entries, u1: Entries, i: nat, v: seq<Value>, w: seq<Value>)
    requires Known(s) && KnownEntries(s, u) && KnownEntries(s, u1) && i < |s.syms|
    requires SameInputs(s, u, u1, i, v, w)
    ensures StringValue(s, u, i, v) == StringValue(s, u1, i, w)
    ensures NumberValue(s, u, i, v) == NumberValue(s, u1, i, w)
  {
    hide Visibility;
    assert KnownSym(s, i);
    var d := s.syms[i];
    VisibilityAgrees(s, i, v, w);
    FirstDefaultAgrees(d.defaults, s.modules, v, w, 0);
    FirstRangeAgrees(s, d.ranges, v, w, 0, BaseOf(d.stype));
    NumberFromAgrees(s, d, v, w, 0, "");
  }

  lemma ValueAgrees(s: Setup, u: Entries, u1: Entries, i: nat, v: seq<Value>, w: seq<Value>)
    requires Known(s) && KnownEntries(s, u) && KnownEntries(s, u1) && i < |s.syms|
    requires SameInputs(s, u, u1, i, v, w)
    ensures ValueOf(s, u, i, v) == ValueOf(s, u1, i, w)
  {
    hide MemberTruth, PlainTruth, StringValue, NumberValue, SameInputs;
    TruthAgrees(s, u, u1, i, v, w);
    TextAgrees(s, u, u1, i, v, w);
  }

  // ---------------------------------------------------------------- evaluation from scratch

  /** Every symbol has the value its declaration gives it. */
  predicate Solves(s: Setup, u: Entries, v: seq<Value>)
    requires Known(s) && KnownEntries(s, u)
  {
    |v| == |s.syms| && forall i :: 0 <= i < |s.syms| ==> v[i] == ValueOf(s, u, i, v).0
  }

  /** The values of the symbols ranked below `k`, by recursion without any memory. */
  function UpTo(s: Setup, u: Entries, rank: Ranks, k: nat): (v: seq<Value>)
    requires Known(s) && KnownEntries(s, u) && |rank| == |s.syms|
    ensures |v| == |s.syms|
  {
    if k == 0 then seq(|s.syms|, i => Text(""))
    else
      var p := UpTo(s, u, rank, k - 1);
      seq(|s.syms|, i requires 0 <= i < |s.syms| => if rank[i] < k then ValueOf(s, u, i, p).0 else Text(""))
  }

  predicate AgreeBelow(rank: Ranks, v: seq<Value>, w: seq<Value>, r: nat) {
    |v| == |w| == |rank| && forall i :: 0 <= i < |rank| && rank[i] < r ==> v[i] == w[i]
  }

  lemma AroundBelow(s: Setup, rank: Ranks, c: nat, v: seq<Value>, w: seq<Value>)
    requires Known(s) && Ranked(s, rank) && c < |s.choices| && AgreeBelow(rank, v, w, ChoiceRank(s, rank, c))
    ensures SameAround(s, c, v, w)
  {
    var d := s.choices[c];
    assert KnownChoice(s, c) && RankedChoice(s, rank, c);
    forall m | m in d.actual && m < |s.syms| ensures SameOn(Reads(s, m), v, w) {
      MemberRank(s, rank, c, m);
      assert RankedSym(s, rank, m);
    }
    forall k | 0 <= k < |d.defaults| ensures DefaultSeenAlike(s, d.defaults[k].sym, v, w) {
      assert d.actual[0] in d.actual;
      assert DefaultBelow(s, rank, d.defaults[k].sym, d.actual[0]);
    }
  }

  /** What agrees below a symbol's rank gives it the same inputs. */
  lemma InputsBelow(s: Setup, u: Entries, rank: Ranks, i: nat, v: seq<Value>, w: seq<Value>)
    requires Known(s) && KnownEntries(s, u) && Ranked(s, rank) && i < |s.syms| && AgreeBelow(rank, v, w, rank[i])
    ensures SameInputs(s, u, u, i, v, w)
  {
    assert KnownSym(s, i) && RankedSym(s, rank, i);
    var c := s.syms[i].choice;
    if c.Some? {
      MemberRank(s, rank, c.value, i);
      AroundBelow(s, rank, c.value, v, w);
    }
  }

  lemma {:induction false} UpToStable(s: Setup, u: Entries, rank: Ranks, k: nat)
    requires Known(s) && KnownEntries(s, u) && Ranked(s, rank)
    ensures AgreeBelow(rank, UpTo(s, u, rank, k), UpTo(s, u, rank, k + 1), k)
  {
    hide ValueOf, SameInputs;
    if k > 0 {
      UpToStable(s, u, rank, k - 1);
      var p, q := UpTo(s, u, rank, k - 1), UpTo(s, u, rank, k);
      forall i | 0 <= i < |rank| && rank[i] < k ensures UpTo(s, u, rank, k)[i] == UpTo(s, u, rank, k + 1)[i] {
        InputsBelow(s, u, rank, i, p, q);
        ValueAgrees(s, u, u, i, p, q);
      }
    }
  }

  function FromScratch(s: Setup, u: Entries, rank: Ranks): (v: seq<Value>)
    requires Known(s) && KnownEntries(s, u) && |rank| == |s.syms|
    ensures |v| == |s.syms|
  {
    UpTo(s, u, rank, MaxRank(rank) + 1)
  }

  /** Evaluation from scratch yields values that fit together. */
  lemma FromScratchSolves(s: Setup, u: Entries, rank: Ranks)
    requires Known(s) && KnownEntries(s, u) && Ranked(s, rank)
    ensures Solves(s, u, FromScratch(s, u, rank))
  {
    hide ValueOf, SameInputs;
    var k := MaxRank(rank) + 1;
    UpToStable(s, u, rank, k - 1);
    var p, v := UpTo(s, u, rank, k - 1), UpTo(s, u, rank, k);
    forall i | 0 <= i < |s.syms| ensures v[i] == ValueOf(s, u, i, v).0 {
      InputsBelow(s, u, rank, i, p, v);
      ValueAgrees(s, u, u, i, p, v);
    }
  }

  /** Values that fit together are the ones evaluation from scratch gives. */
  lemma {:induction false} SolutionBelow(s: Setup, u: Entries, rank: Ranks, v: seq<Value>, w: seq<Value>, r: nat)
    requires Known(s) && KnownEntries(s, u) && Ranked(s, rank) && Solves(s, u, v) && Solves(s, u, w)
    ensures AgreeBelow(rank, v, w, r)
  {
    if r > 0 {
      SolutionBelow(s, u, rank, v, w, r - 1);
      forall i | 0 <= i < |rank| && rank[i] < r ensures v[i] == w[i] {
        InputsBelow(s, u, rank, i, v, w);
        ValueAgrees(s, u, u, i, v, w);
      }
    }
  }

  lemma SolutionUnique(s: Setup, u: Entries, rank: Ranks, v: seq<Value>, w: seq<Value>)
    requires Known(s) && KnownEntries(s, u) && Ranked(s, rank) && Solves(s, u, v) && Solves(s, u, w)
    ensures v == w
  {
    SolutionBelow(s, u, rank, v, w, MaxRank(rank) + 1);
  }
}
