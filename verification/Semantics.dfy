/** What a configuration means: the value each symbol must have, given the values of the symbols
    its declaration mentions and what the user entered. There is no memory and no evaluation
    order here; Evaluator.dfy shows that sym_calc_value computes it. */
module Semantics {
  import opened Tristates
  import opened Expressions
  import opened Numbers

  /** A P_DEFAULT property. */
  datatype Default = Default(value: Expr, cond: Option<Expr>)

  /** A P_RANGE property. */
  datatype Range = Range(low: Symbol, high: Symbol, cond: Option<Expr>)

  datatype Role = Plain | Choice(members: seq<nat>) | Member(choice: nat)

  /** A symbol with its properties, after menu_finalize. `auto` is SYMBOL_AUTO. */
  datatype Decl = Decl(name: string, stype: SymbolType, role: Role, auto: bool,
                       prompts: seq<Option<Expr>>, defaults: seq<Default>, ranges: seq<Range>,
                       dirDep: Option<Expr>, revDep: Option<Expr>)

  type Table = seq<Decl>

  /** def[S_DEF_USER], with SYMBOL_DEF_USER as `isSet`; for a choice `pick` is the chosen symbol. */
  datatype User = User(isSet: bool, tri: Tristate, text: string, pick: Option<nat>)

  type Users = seq<User>

  predicate IsTri(t: SymbolType) {
    t.Boolean? || t.ThreeState?
  }

  predicate IsText(t: SymbolType) {
    t.Str? || t.Int? || t.Hex?
  }

  function SymbolAt(t: Table, i: nat): Symbol
    requires i < |t|
  {
    Config(i, t[i].stype)
  }

  // ---------------------------------------------------------------- what a declaration mentions

  function PromptSymbols(d: Decl): set<Symbol> {
    set k, s | 0 <= k < |d.prompts| && s in OptSymbols(d.prompts[k]) :: s
  }

  function DefaultSymbols(d: Decl): set<Symbol> {
    set k, s | 0 <= k < |d.defaults| && s in Symbols(d.defaults[k].value) :: s
  }

  function ConditionSymbols(d: Decl): set<Symbol> {
    set k, s | 0 <= k < |d.defaults| && s in OptSymbols(d.defaults[k].cond) :: s
  }

  function RangeSymbols(d: Decl): set<Symbol> {
    set k, s | 0 <= k < |d.ranges| && s in OptSymbols(d.ranges[k].cond) + {d.ranges[k].low, d.ranges[k].high} :: s
  }

  function DeclSymbols(d: Decl): set<Symbol> {
    PromptSymbols(d) + DefaultSymbols(d) + ConditionSymbols(d) + RangeSymbols(d) + OptSymbols(d.dirDep) + OptSymbols(d.revDep)
  }

  predicate KnownSymbol(t: Table, s: Symbol) {
    s.Config? ==> s.id < |t| && s.stype == t[s.id].stype
  }

  predicate KnownRole(t: Table, i: nat)
    requires i < |t|
  {
    match t[i].role
    case Plain => true
    case Choice(ms) =>
      && IsTri(t[i].stype)
      && (forall k :: 0 <= k < |ms| ==> ms[k] < |t| && t[ms[k]].role == Member(i))
      // choice defaults name members
      && (forall k :: 0 <= k < |t[i].defaults| ==>
            t[i].defaults[k].value.Sym? && t[i].defaults[k].value.s.Config? && t[i].defaults[k].value.s.id in ms)
    case Member(c) => c < |t| && t[c].role.Choice? && i in t[c].role.members && IsTri(t[i].stype)
  }

  predicate KnownDecl(t: Table, i: nat)
    requires i < |t|
  {
    && (forall s :: s in DeclSymbols(t[i]) ==> KnownSymbol(t, s))
    && KnownRole(t, i)
  }

  predicate WellFormed(t: Table) {
    forall i :: 0 <= i < |t| ==> KnownDecl(t, i)
  }

  // ---------------------------------------------------------------- one symbol, one step

  /** The highest of the prompt conditions, from `k` on. */
  function PromptValue(prompts: seq<Option<Expr>>, v: Assignment, k: nat): Tristate
    requires k <= |prompts|
    decreases |prompts| - k
  {
    if k == |prompts| then NO else Max(EvalOpt(prompts[k], v), PromptValue(prompts, v, k + 1))
  }

  /** sym->visible */
  function Visibility(d: Decl, v: Assignment): Tristate {
    var tri := PromptValue(d.prompts, v, 0);
    if tri == MOD && (!d.stype.ThreeState? || v.modules == NO) then YES else tri
  }

  /** sym_get_type, given the visibility */
  function TypeOf(d: Decl, vis: Tristate, modules: Tristate): SymbolType {
    if d.stype.ThreeState? && ((d.role.Member? && vis == YES) || modules == NO) then Boolean else d.stype
  }

  /** sym->dir_dep.tri */
  function DirDep(d: Decl, v: Assignment): Tristate {
    Promote(EvalOpt(d.dirDep, v))
  }

  /** sym->rev_dep.tri: the value a symbol is selected to. Choice members are never selected. */
  function RevDep(d: Decl, v: Assignment): Tristate {
    if d.role.Member? || d.revDep.None? then NO
    else
      var tri := Eval(d.revDep.value, v);
      if tri == MOD && TypeOf(d, Visibility(d, v), v.modules).Boolean? then YES else tri
  }

  /** sym_get_default_prop: the first default, from `k` on, whose condition holds, with the value
      of that condition. */
  function FirstDefault(defaults: seq<Default>, v: Assignment, k: nat): Option<(Expr, Tristate)>
    requires k <= |defaults|
    decreases |defaults| - k
  {
    if k == |defaults| then None
    else
      var c := EvalOpt(defaults[k].cond, v);
      if c != NO then Some((defaults[k].value, c)) else FirstDefault(defaults, v, k + 1)
  }

  /** sym_get_range_prop */
  function FirstRange(ranges: seq<Range>, v: Assignment, k: nat): Option<Range>
    requires k <= |ranges|
    decreases |ranges| - k
  {
    if k == |ranges| then None
    else if EvalOpt(ranges[k].cond, v) != NO then Some(ranges[k])
    else FirstRange(ranges, v, k + 1)
  }

  function DefaultTri(d: Decl, v: Assignment): Tristate {
    if d.role.Choice? then NO
    else
      match FirstDefault(d.defaults, v, 0)
      case None => NO
      case Some((e, c)) => Min(Eval(e, v), c)
  }

  /** The value of a bool or tristate symbol by its own prompt, defaults and selects. */
  function OwnTri(d: Decl, u: User, v: Assignment): Tristate {
    var vis := Visibility(d, v);
    var base := if vis != NO && u.isSet then Min(u.tri, vis) else DefaultTri(d, v);
    var tri := Max(base, RevDep(d, v));
    if tri == MOD && TypeOf(d, vis, v.modules).Boolean? then YES else tri
  }

  // ---------------------------------------------------------------- choices

  /** `v`, with the choice `c` on. */
  function With(t: Table, c: nat, v: Assignment): Assignment
    requires c < |t|
  {
    var sym, tri := SymbolAt(t, c), v.tri;
    v.(tri := (s: Symbol) => if s == sym then YES else tri(s))
  }

  function FirstVisible(t: Table, ms: seq<nat>, v: Assignment): Option<nat>
    requires forall k :: 0 <= k < |ms| ==> ms[k] < |t|
  {
    if ms == [] then None
    else if Visibility(t[ms[0]], v) != NO then Some(ms[0])
    else FirstVisible(t, ms[1..], v)
  }

  /** The first default of a choice that holds and names a visible symbol. */
  function VisibleDefault(t: Table, defaults: seq<Default>, v: Assignment, k: nat): Option<nat>
    requires k <= |defaults|
    requires forall j :: 0 <= j < |defaults| ==>
      defaults[j].value.Sym? && defaults[j].value.s.Config? && defaults[j].value.s.id < |t|
    decreases |defaults| - k
  {
    if k == |defaults| then None
    else
      var m := defaults[k].value.s.id;
      if EvalOpt(defaults[k].cond, v) != NO && Visibility(t[m], v) != NO then Some(m)
      else VisibleDefault(t, defaults, v, k + 1)
  }

  /** A user's pick for a choice is one of its members. */
  predicate KnownUsers(t: Table, us: Users) {
    && |us| == |t|
    && forall i :: 0 <= i < |t| && us[i].pick.Some? ==> t[i].role.Choice? && us[i].pick.value in t[i].role.members
  }

  /** sym_calc_choice: the user's pick if visible, else sym_choice_default. */
  function Pick(t: Table, us: Users, c: nat, v: Assignment): Option<nat>
    requires WellFormed(t) && KnownUsers(t, us) && c < |t| && t[c].role.Choice?
  {
    assert KnownDecl(t, c);
    var u := us[c];
    if u.pick.Some? && Visibility(t[u.pick.value], v) != NO then u.pick
    else
      var d := VisibleDefault(t, t[c].defaults, v, 0);
      if d.Some? then d else FirstVisible(t, t[c].role.members, v)
  }

  /** curr.val of a choice that is on. Visibilities of the members are taken with the choice on. */
  function Selected(t: Table, us: Users, c: nat, v: Assignment): Option<nat>
    requires WellFormed(t) && KnownUsers(t, us) && c < |t| && t[c].role.Choice?
  {
    assert KnownDecl(t, c);
    if OwnTri(t[c], us[c], v) == YES then Pick(t, us, c, With(t, c, v)) else None
  }

  /** curr.tri */
  function TriValue(t: Table, us: Users, i: nat, v: Assignment): Tristate
    requires WellFormed(t) && KnownUsers(t, us) && i < |t|
  {
    assert KnownDecl(t, i);
    match t[i].role
    case Plain => OwnTri(t[i], us[i], v)
    case Choice(_) =>
      var tri := OwnTri(t[i], us[i], v);
      if tri == YES && Selected(t, us, i, v).None? then NO else tri
    case Member(c) =>
      if Visibility(t[i], v) == YES then FromBool(Selected(t, us, c, v) == Some(i))
      else OwnTri(t[i], us[i], v)
  }

  // ---------------------------------------------------------------- string, int and hex symbols

  /** curr.val, which for a bool or tristate symbol is always the text of symbol_no. */
  function RawText(s: Symbol, v: Assignment): string {
    if s.Constant? then s.text else if s.IsTristateLike() then "n" else v.str(s)
  }

  /** The default text: only a default that is a single symbol counts. */
  function DefaultText(d: Decl, v: Assignment): string {
    match FirstDefault(d.defaults, v, 0)
    case None => ""
    case Some((e, _)) => if e.Sym? then RawText(e.s, v) else ""
  }

  function NumberBase(t: SymbolType): nat {
    if t.Hex? then 16 else 10
  }

  /** sym_get_range_val */
  function RangeValue(s: Symbol, base: nat, v: Assignment): LongLong {
    StrToLL(RawText(s, v),
            if s.Config? && s.stype.Int? then 10 else if s.Config? && s.stype.Hex? then 16 else base)
  }

  function NumberText(t: SymbolType, n: LongLong): string {
    if t.Int? then DecText(n) else HexText(n)
  }

  /** sym_validate_range */
  function Validated(d: Decl, text: string, v: Assignment): string {
    if !d.stype.Int? && !d.stype.Hex? then text
    else
      match FirstRange(d.ranges, v, 0)
      case None => text
      case Some(r) =>
        var base := NumberBase(d.stype);
        var n, low, high := StrToLL(text, base), RangeValue(r.low, base, v), RangeValue(r.high, base, v);
        if n < low then NumberText(d.stype, low)
        else if n <= high then text
        else NumberText(d.stype, high)
  }

  function TextValue(d: Decl, u: User, v: Assignment): string {
    if IsText(d.stype) then
      Validated(d, if Visibility(d, v) != NO && u.isSet then u.text else DefaultText(d, v), v)
    else d.name
  }

  /** SYMBOL_WRITE of a symbol that is no choice member: whether it goes into the .config file. */
  function Writes(d: Decl, v: Assignment): bool {
    && !d.auto
    && (|| Visibility(d, v) != NO
        || (IsTri(d.stype) && RevDep(d, v) != NO)
        || (!d.role.Choice? && FirstDefault(d.defaults, v, 0).Some? &&
            (IsTri(d.stype) || FirstDefault(d.defaults, v, 0).value.0.Sym?)))
  }

  // ---------------------------------------------------------------- solutions

  ghost predicate SolvedAt(t: Table, us: Users, i: nat, v: Assignment)
    requires WellFormed(t) && KnownUsers(t, us) && i < |t|
  {
    if IsTri(t[i].stype) then v.tri(SymbolAt(t, i)) == TriValue(t, us, i, v)
    else v.str(SymbolAt(t, i)) == TextValue(t[i], us[i], v)
  }

  /** Every symbol of the table has the value that its declaration gives it. */
  ghost predicate Solution(t: Table, us: Users, v: Assignment)
    requires WellFormed(t) && KnownUsers(t, us)
  {
    forall i :: 0 <= i < |t| ==> SolvedAt(t, us, i, v)
  }
}
