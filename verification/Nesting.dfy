/** Comparing expressions with constants (expr_trans_compare), syntactic dependence
    (expr_contains_symbol, expr_depends_symbol), and the two uses menu_finalize makes of the
    simplifier: visibility conditions and automatic submenus. */
module Nesting {
  import opened Tristates
  import opened Expressions
  import opened Simplification
  import opened Equality
  import opened Spines
  import opened Duplicates

  // ---------------------------------------------------------------- expr_trans_compare

  function NotIf(unequal: bool, e: Expr): Expr {
    if unequal then Not(e) else e
  }

  /** expr_trans_compare(e, unequal ? E_UNEQUAL : E_EQUAL, sym). Against `m` an AND/OR node is
      left as it stands, as the code has it. */
  function TransCompare(e: Expr, unequal: bool, sym: Symbol): Expr
    requires IsYmn(sym)
  {
    match e
    case And(l, r) =>
      var e1, e2 := TransCompare(l, false, sym), TransCompare(r, false, sym);
      NotIf(unequal, if sym == Y then And(e1, e2) else if sym == N then Or(e1, e2) else e)
    case Or(l, r) =>
      var e1, e2 := TransCompare(l, false, sym), TransCompare(r, false, sym);
      NotIf(unequal, if sym == Y then Or(e1, e2) else if sym == N then And(e1, e2) else e)
    case Not(x) => TransCompare(x, !unequal, sym)
    case Sym(s) => if unequal then Unequal(s, sym) else Equal(s, sym)
    case _ =>
      if sym == M then Sym(if unequal then Y else N)
      else if (sym == Y) != unequal then e
      else Not(e)
  }

  function TransCompareOpt(e: Option<Expr>, unequal: bool, sym: Symbol): Expr
    requires IsYmn(sym)
  {
    match e
    case None => NotIf(unequal, Sym(sym))
    case Some(x) => TransCompare(x, unequal, sym)
  }

  /** The text of a symbol says the same as its truth value. It does for bool and tristate symbols
      and for y, m and n; a string or number that stands for a condition is `n` whatever its text. */
  predicate LikeTruth(s: Symbol, v: Assignment) {
    && (StrOf(s, v) == "y" <==> TriOf(s, v) == YES)
    && (StrOf(s, v) == "n" <==> TriOf(s, v) == NO)
  }

  /** All symbols that stand for conditions are like that. */
  predicate Propositional(e: Expr, v: Assignment) {
    match e
    case Sym(s) => LikeTruth(s, v)
    case Not(x) => Propositional(x, v)
    case And(l, r) => Propositional(l, v) && Propositional(r, v)
    case Or(l, r) => Propositional(l, v) && Propositional(r, v)
    case _ => true
  }

  /** Nothing that evaluates to `m` is negated. */
  predicate Crisp(e: Expr, v: Assignment) {
    match e
    case Not(x) => Crisp(x, v) && Eval(x, v) != MOD
    case And(l, r) => Crisp(l, v) && Crisp(r, v)
    case Or(l, r) => Crisp(l, v) && Crisp(r, v)
    case _ => true
  }

  lemma TruthSymbolsAre(s: Symbol, v: Assignment)
    requires Legal(v) && (s.IsTristateLike() || IsYmn(s))
    ensures LikeTruth(s, v)
  {
    TextsDiffer();
    if s.IsTristateLike() {
      TristateText(s, v);
    }
  }

  /** A bare string or number is compared as a text: the comparison is wrong exactly if the text
      reads `y`, or for `n` if it does not read `n`. */
  lemma TransCompareOfText(s: Symbol, unequal: bool, sym: Symbol, v: Assignment)
    requires (sym == Y || sym == N) && !s.IsTristateLike() && !IsYmn(s)
    ensures Eval(TransCompare(Sym(s), unequal, sym), v) == FromBool((Eval(Sym(s), v) == TriOf(sym, v)) != unequal)
       <==> if sym == Y then StrOf(s, v) != "y" else StrOf(s, v) == "n"
  {
    TextsDiffer();
    assert Eval(Sym(s), v) == NO;
  }

  /** The comparison with `y` or `n` that expr_trans_compare builds is true exactly when it holds. */
  lemma {:induction false} TransCompareCorrect(e: Expr, unequal: bool, sym: Symbol, v: Assignment)
    requires sym == Y || sym == N
    requires Legal(v) && Propositional(e, v) && Crisp(e, v)
    ensures Eval(TransCompare(e, unequal, sym), v) == FromBool((Eval(e, v) == TriOf(sym, v)) != unequal)
  {
    match e
    case And(l, r) =>
      TransCompareCorrect(l, false, sym, v);
      TransCompareCorrect(r, false, sym, v);
      ComparedBoth(e, l, r, unequal, sym, v);
    case Or(l, r) =>
      TransCompareCorrect(l, false, sym, v);
      TransCompareCorrect(r, false, sym, v);
      ComparedBoth(e, l, r, unequal, sym, v);
    case Not(x) =>
      TransCompareCorrect(x, !unequal, sym, v);
    case _ =>
      ComparedLeaf(e, unequal, sym, v);
  }

  predicate ComparesRight(e: Expr, unequal: bool, sym: Symbol, v: Assignment)
    requires IsYmn(sym)
  {
    Eval(TransCompare(e, unequal, sym), v) == FromBool((Eval(e, v) == TriOf(sym, v)) != unequal)
  }

  lemma ComparedBoth(e: Expr, l: Expr, r: Expr, unequal: bool, sym: Symbol, v: Assignment)
    requires (sym == Y || sym == N) && (e == And(l, r) || e == Or(l, r))
    requires ComparesRight(l, false, sym, v) && ComparesRight(r, false, sym, v)
    ensures ComparesRight(e, unequal, sym, v)
  {
    if !unequal {
      assert NotIf(unequal, TransCompare(e, false, sym)) == TransCompare(e, unequal, sym);
    } else {
      ComparedBoth(e, l, r, false, sym, v);
      assert Not(TransCompare(e, false, sym)) == TransCompare(e, unequal, sym);
    }
  }

  lemma ComparedLeaf(e: Expr, unequal: bool, sym: Symbol, v: Assignment)
    requires (sym == Y || sym == N) && Legal(v) && Propositional(e, v) && (e.Sym? || e.Equal? || e.Unequal?)
    ensures ComparesRight(e, unequal, sym, v)
  {
    TextsDiffer();
  }

  /** Only symbols that pass `ok` stand for conditions. */
  predicate SymbolsAre(e: Expr, ok: Symbol -> bool) {
    match e
    case Sym(s) => ok(s)
    case Not(x) => SymbolsAre(x, ok)
    case And(l, r) => SymbolsAre(l, ok) && SymbolsAre(r, ok)
    case Or(l, r) => SymbolsAre(l, ok) && SymbolsAre(r, ok)
    case _ => true
  }

  predicate IsTruth(s: Symbol) {
    s.IsTristateLike() || IsYmn(s)
  }

  predicate IsTwoValued(s: Symbol) {
    s == Y || s == N || (s.Config? && s.stype.Boolean?)
  }

  lemma {:induction false} TruthsArePropositional(e: Expr, v: Assignment)
    requires Legal(v) && SymbolsAre(e, IsTruth)
    ensures Propositional(e, v)
  {
    match e
    case Sym(s) => TruthSymbolsAre(s, v);
    case Not(x) => TruthsArePropositional(x, v);
    case And(l, r) => TruthsArePropositional(l, v); TruthsArePropositional(r, v);
    case Or(l, r) => TruthsArePropositional(l, v); TruthsArePropositional(r, v);
    case _ =>
  }

  lemma {:induction false} TwoValuedIsCrisp(e: Expr, v: Assignment)
    requires Legal(v) && SymbolsAre(e, IsTwoValued)
    ensures SymbolsAre(e, IsTruth) && Crisp(e, v) && Eval(e, v) != MOD
  {
    match e
    case Not(x) => TwoValuedIsCrisp(x, v);
    case And(l, r) => TwoValuedIsCrisp(l, v); TwoValuedIsCrisp(r, v);
    case Or(l, r) => TwoValuedIsCrisp(l, v); TwoValuedIsCrisp(r, v);
    case _ =>
  }

  /** So the comparison is always right for conditions made of bool symbols, and for those made of
      tristate symbols too where nothing that is `m` is negated. */
  lemma TransCompareOfTruths(e: Expr, unequal: bool, sym: Symbol, v: Assignment)
    requires (sym == Y || sym == N) && Legal(v)
    requires SymbolsAre(e, IsTwoValued) || (SymbolsAre(e, IsTruth) && Crisp(e, v))
    ensures Eval(TransCompare(e, unequal, sym), v) == FromBool((Eval(e, v) == TriOf(sym, v)) != unequal)
  {
    if SymbolsAre(e, IsTwoValued) {
      TwoValuedIsCrisp(e, v);
    }
    TruthsArePropositional(e, v);
    TransCompareCorrect(e, unequal, sym, v);
  }

  /** Crispness is what it takes: over a negation the comparison is right exactly when the
      negated expression is not `m`. */
  lemma TransCompareUnderNot(e: Expr, unequal: bool, sym: Symbol, v: Assignment)
    requires sym == Y || sym == N
    requires Legal(v) && Propositional(e, v) && Crisp(e, v)
    ensures Eval(TransCompare(Not(e), unequal, sym), v) == FromBool((Eval(Not(e), v) == TriOf(sym, v)) != unequal)
       <==> Eval(e, v) != MOD
  {
    TransCompareCorrect(e, !unequal, sym, v);
  }

  // ---------------------------------------------------------------- syntactic dependence

  /** expr_contains_symbol */
  predicate Contains(e: Expr, sym: Symbol) {
    match e
    case And(l, r) => Contains(l, sym) || Contains(r, sym)
    case Or(l, r) => Contains(l, sym) || Contains(r, sym)
    case Sym(s) => s == sym
    case Equal(l, r) => l == sym || r == sym
    case Unequal(l, r) => l == sym || r == sym
    case Not(x) => Contains(x, sym)
  }

  lemma {:induction false} ContainsIsMembership(e: Expr, sym: Symbol)
    ensures Contains(e, sym) <==> sym in Symbols(e)
  {
    match e
    case And(l, r) => ContainsIsMembership(l, sym); ContainsIsMembership(r, sym);
    case Or(l, r) => ContainsIsMembership(l, sym); ContainsIsMembership(r, sym);
    case Not(x) => ContainsIsMembership(x, sym);
    case _ =>
  }

  /** expr_depends_symbol */
  predicate DependsOn(e: Expr, sym: Symbol) {
    match e
    case And(l, r) => DependsOn(l, sym) || DependsOn(r, sym)
    case Sym(s) => s == sym
    case Equal(l, r) => l == sym && (r == Y || r == M)
    case Unequal(l, r) => l == sym && r == N
    case _ => false
  }

  /** An expression that depends on a symbol is `n` wherever the symbol is. */
  lemma {:induction false} DependsOnForces(e: Expr, sym: Symbol, v: Assignment)
    requires Legal(v) && sym.IsTristateLike() && DependsOn(e, sym)
    ensures TriOf(sym, v) == NO ==> Eval(e, v) == NO
  {
    match e
    case And(l, r) =>
      if DependsOn(l, sym) { DependsOnForces(l, sym, v); } else { DependsOnForces(r, sym, v); }
    case Sym(_) =>
    case _ =>
      TristateText(sym, v);
      TextsDiffer();
  }

  /** An operand that is `n` because the symbol is. */
  predicate Forces(x: Expr, sym: Symbol) {
    x == Sym(sym) || x == Equal(sym, Y) || x == Equal(sym, M) || x == Unequal(sym, N)
  }

  /** It depends on a symbol exactly if one of its AND operands is such an operand. */
  lemma {:induction false} DependsOnIff(e: Expr, sym: Symbol)
    ensures DependsOn(e, sym) <==> exists p :: IsLeaf(OpAnd, e, p) && Forces(At(OpAnd, e, p), sym)
  {
    if e.And? {
      DependsOnIff(e.l, sym);
      DependsOnIff(e.r, sym);
      OperandsOfAnd(e, sym);
    } else {
      assert IsLeaf(OpAnd, e, []);
    }
  }

  lemma OperandsOfAnd(e: Expr, sym: Symbol)
    requires e.And?
    ensures (exists p :: IsLeaf(OpAnd, e, p) && Forces(At(OpAnd, e, p), sym)) <==>
            (exists p :: IsLeaf(OpAnd, e.l, p) && Forces(At(OpAnd, e.l, p), sym)) ||
            (exists p :: IsLeaf(OpAnd, e.r, p) && Forces(At(OpAnd, e.r, p), sym))
  {
    hide Forces;
    if p :| IsLeaf(OpAnd, e, p) && Forces(At(OpAnd, e, p), sym) {
      assert p != [] && IsLeaf(OpAnd, Child(e, p[0]), p[1..]);
    }
    if p :| IsLeaf(OpAnd, e.l, p) && Forces(At(OpAnd, e.l, p), sym) {
      assert ([false] + p)[1..] == p && IsLeaf(OpAnd, e, [false] + p);
    }
    if p :| IsLeaf(OpAnd, e.r, p) && Forces(At(OpAnd, e.r, p), sym) {
      assert ([true] + p)[1..] == p && IsLeaf(OpAnd, e, [true] + p);
    }
  }

  // ---------------------------------------------------------------- automatic submenus

  /** `dep != n`, simplified: what menu_finalize compares. */
  function NotNo(dep: Option<Expr>): Expr {
    EliminateDups(Transform(TransCompareOpt(dep, true, N)))
  }

  /** Whether menu_finalize moves an entry with condition `dep` into the submenu of the entry of
      `sym` whose prompt condition is `base`. */
  predicate AutoNests(sym: Symbol, base: Option<Expr>, dep: Option<Expr>) {
    && dep.Some? && Contains(dep.value, sym)
    && (|| DependsOn(dep.value, sym)
        || EliminateEq(NotNo(dep), NotNo(base)).1 == Sym(Y))
  }

  /** If the condition of the first entry is the conjunction of some operands, the second one nests
      because of its symbol, or because its own condition has all of these operands. */
  lemma AutoNestsIff(sym: Symbol, base: Option<Expr>, dep: Expr)
    requires Flat(OpAnd, NotNo(Some(dep))) && Flat(OpAnd, NotNo(base)) && (NotNo(Some(dep)).And? || NotNo(base).And?)
    ensures AutoNests(sym, base, Some(dep)) <==>
            && sym in Symbols(dep)
            && (|| (exists p :: IsLeaf(OpAnd, dep, p) && Forces(At(OpAnd, dep, p), sym))
                || Operands(OpAnd, NotNo(base)) <= Operands(OpAnd, NotNo(Some(dep))))
  {
    ContainsIsMembership(dep, sym);
    DependsOnIff(dep, sym);
    EliminateEqExact(OpAnd, NotNo(Some(dep)), NotNo(base));
  }

  /** Under an entry whose prompt has no condition everything nests that mentions its symbol. */
  lemma AutoNestsUnconditionally(sym: Symbol, dep: Expr)
    ensures AutoNests(sym, None, Some(dep)) <==> sym in Symbols(dep)
  {
    ContainsIsMembership(dep, sym);
    assert NotNo(None) == Sym(Y);
    EliminateEqOfYes(NotNo(Some(dep)));
  }

  predicate CrispOpt(e: Option<Expr>, v: Assignment) {
    e.Some? ==> Propositional(e.value, v) && Crisp(e.value, v)
  }

  lemma NotNoValue(dep: Option<Expr>, v: Assignment)
    requires Legal(v) && CrispOpt(dep, v)
    ensures Eval(NotNo(dep), v) == FromBool(EvalOpt(dep, v) != NO)
  {
    var c := TransCompareOpt(dep, true, N);
    if dep.Some? {
      TransCompareCorrect(dep.value, true, N, v);
    }
    TransformPreserves(c, v);
    EliminateDupsRefines(Transform(c), v);
  }

  /** An entry nested under another is visible only when the other's symbol is on or its prompt
      is visible: nesting never hides an entry behind a parent the user cannot open. */
  lemma NestedEntryHasOpenParent(sym: Symbol, base: Option<Expr>, dep: Option<Expr>, v: Assignment)
    requires Legal(v) && sym.IsTristateLike() && CrispOpt(base, v) && CrispOpt(dep, v)
    requires AutoNests(sym, base, dep)
    requires EvalOpt(dep, v) != NO
    ensures TriOf(sym, v) != NO || EvalOpt(base, v) != NO
  {
    if DependsOn(dep.value, sym) {
      DependsOnForces(dep.value, sym, v);
    } else {
      EliminateEqImplies(NotNo(dep), NotNo(base), v);
      NotNoValue(dep, v);
      NotNoValue(base, v);
    }
  }

  // ---------------------------------------------------------------- visibility conditions

  function MapOpt(e: Option<Expr>, f: Expr -> Expr): Option<Expr> {
    match e
    case None => None
    case Some(x) => Some(f(x))
  }

  /** The condition menu_finalize stores for a property with condition `dep` of an entry whose
      inherited condition is `base`. */
  function PropertyCondition(base: Option<Expr>, dep: Option<Expr>, tristateSymbol: bool): Option<Expr> {
    var d := MapOpt(AllocAnd(base, MapOpt(dep, Transform)), EliminateDups);
    if tristateSymbol then d else MapOpt(d, TransBool)
  }

  predicate NnfOpt(e: Option<Expr>) {
    e.Some? ==> Nnf(e.value)
  }

  lemma {:induction false} TransBoolNnf(e: Expr)
    requires Nnf(e)
    ensures Nnf(TransBool(e))
  {
    if IsBinary(e) {
      TransBoolNnf(e.l);
      TransBoolNnf(e.r);
    }
  }

  /** The stored condition grants `y` and `n` exactly as the conjunction of inherited and own
      condition does. For a symbol that is not tristate this is up to the promotion of `m`,
      which sym_calc_visibility applies to it. The result can be inherited in turn. */
  lemma PropertyConditionCorrect(base: Option<Expr>, dep: Option<Expr>, tristateSymbol: bool, v: Assignment)
    requires Legal(v) && NnfOpt(base)
    ensures var wanted := Min(EvalOpt(base, v), EvalOpt(dep, v));
            var got := EvalOpt(PropertyCondition(base, dep, tristateSymbol), v);
            && (tristateSymbol ==> Refines(wanted, got))
            && (!tristateSymbol && wanted != MOD ==> Promote(got) == wanted)
    ensures NnfOpt(PropertyCondition(base, dep, tristateSymbol))
  {
    var own := MapOpt(dep, Transform);
    if dep.Some? {
      TransformPreserves(dep.value, v);
      TransformIsNormal(dep.value);
      NormalIsNnf(own.value);
    }
    AllocAndValue(base, own, v);
    var both := AllocAnd(base, own);
    if both.Some? {
      EliminateDupsRefines(both.value, v);
      EliminateDupsShape(both.value);
      TransBoolKeepsNo(EliminateDups(both.value), v);
      TransBoolNnf(EliminateDups(both.value));
    }
  }
}
