/** Dependency expressions (struct expr) over symbols, and what they evaluate to. */
module Expressions {
  import opened Tristates

  datatype SymbolType = Unknown | Boolean | ThreeState | Int | Hex | Str | Other

  /** A symbol by identity. Constants are interned by their text, so the addresses
      &symbol_yes, &symbol_mod and &symbol_no are three constants here. */
  datatype Symbol =
    | Constant(text: string)
    | Config(id: nat, stype: SymbolType)
  {
    predicate IsTristateLike() {
      Config? && (stype.Boolean? || stype.ThreeState?)
    }
  }

  const Y := Constant("y")
  const M := Constant("m")
  const N := Constant("n")

  predicate IsYmn(s: Symbol) {
    s == Y || s == M || s == N
  }

  datatype Expr =
    | Sym(s: Symbol)
    | Not(e: Expr)
    | Equal(left: Symbol, right: Symbol)
    | Unequal(left: Symbol, right: Symbol)
    | And(l: Expr, r: Expr)
    | Or(l: Expr, r: Expr)

  /** The two binary node types that the simplifier treats as n-ary. */
  datatype Op = OpAnd | OpOr

  predicate IsOp(op: Op, e: Expr) {
    if op.OpAnd? then e.And? else e.Or?
  }

  function Node(op: Op, l: Expr, r: Expr): (e: Expr)
    ensures IsOp(op, e) && e.l == l && e.r == r
  {
    if op.OpAnd? then And(l, r) else Or(l, r)
  }

  predicate IsBinary(e: Expr) {
    e.And? || e.Or?
  }

  function OpOf(e: Expr): (op: Op)
    requires IsBinary(e)
    ensures IsOp(op, e)
  {
    if e.And? then OpAnd else OpOr
  }

  /** The constant that leaves the other operand of `op` as it is. */
  function Unit(op: Op): Expr {
    if op.OpAnd? then Sym(Y) else Sym(N)
  }

  function Zero(op: Op): Expr {
    if op.OpAnd? then Sym(N) else Sym(Y)
  }

  /** Number of nodes. */
  function Size(e: Expr): (n: nat)
    ensures n >= 1
  {
    match e
    case Sym(_) => 1
    case Equal(_, _) => 1
    case Unequal(_, _) => 1
    case Not(x) => 1 + Size(x)
    case And(l, r) => 1 + Size(l) + Size(r)
    case Or(l, r) => 1 + Size(l) + Size(r)
  }

  /** Current values of all symbols: `modules` is the value of the modules symbol. */
  datatype Assignment = Assignment(modules: Tristate, tri: Symbol -> Tristate, str: Symbol -> string)

  /** Bool symbols are never `m`, nor are tristate symbols while modules are off. */
  ghost predicate Legal(v: Assignment) {
    forall s: Symbol :: s.IsTristateLike() && (s.stype.Boolean? || v.modules == NO) ==> v.tri(s) != MOD
  }

  /** curr.tri of a symbol. */
  function TriOf(s: Symbol, v: Assignment): Tristate {
    if s == Y then YES
    else if s == M then MOD
    else if s.IsTristateLike() then v.tri(s)
    else NO
  }

  /** sym_get_string_value */
  function StrOf(s: Symbol, v: Assignment): string {
    if s.Constant? then s.text
    else if s.IsTristateLike() then TriText(v.tri(s), v.modules)
    else v.str(s)
  }

  function TriText(t: Tristate, modules: Tristate): string {
    if t == NO then "n"
    else if t == YES then "y"
    else if modules == NO then "n"
    else "m"
  }

  /** expr_calc_value, over symbols whose values are known. */
  function Eval(e: Expr, v: Assignment): Tristate {
    match e
    case Sym(s) => TriOf(s, v)
    case Not(x) => Negate(Eval(x, v))
    case And(l, r) => Min(Eval(l, v), Eval(r, v))
    case Or(l, r) => Max(Eval(l, v), Eval(r, v))
    case Equal(l, r) => FromBool(StrOf(l, v) == StrOf(r, v))
    case Unequal(l, r) => FromBool(StrOf(l, v) != StrOf(r, v))
  }

  function Apply(op: Op, a: Tristate, b: Tristate): Tristate {
    if op.OpAnd? then Min(a, b) else Max(a, b)
  }

  lemma EvalNode(op: Op, e: Expr, v: Assignment)
    requires IsOp(op, e)
    ensures Eval(e, v) == Apply(op, Eval(e.l, v), Eval(e.r, v))
  {
  }

  lemma ApplyAlgebra(op: Op, a: Tristate, b: Tristate, c: Tristate)
    ensures Apply(op, a, b) == Apply(op, b, a)
    ensures Apply(op, Apply(op, a, b), c) == Apply(op, a, Apply(op, b, c))
    ensures Apply(op, a, a) == a
  {
  }

  /** The symbols an expression mentions. */
  function Symbols(e: Expr): set<Symbol> {
    match e
    case Sym(s) => {s}
    case Not(x) => Symbols(x)
    case Equal(l, r) => {l, r}
    case Unequal(l, r) => {l, r}
    case And(l, r) => Symbols(l) + Symbols(r)
    case Or(l, r) => Symbols(l) + Symbols(r)
  }

  predicate SameAt(s: Symbol, v: Assignment, w: Assignment) {
    if s.IsTristateLike() then v.tri(s) == w.tri(s) else v.str(s) == w.str(s)
  }

  /** Two assignments that give the same values to some symbols. */
  predicate AgreeOn(ss: set<Symbol>, v: Assignment, w: Assignment) {
    v.modules == w.modules && forall s :: s in ss && s.Config? ==> SameAt(s, v, w)
  }

  lemma {:induction false} EvalAgrees(e: Expr, v: Assignment, w: Assignment)
    requires AgreeOn(Symbols(e), v, w)
    ensures Eval(e, v) == Eval(e, w)
  {
    match e
    case And(l, r) => EvalAgrees(l, v, w); EvalAgrees(r, v, w);
    case Or(l, r) => EvalAgrees(l, v, w); EvalAgrees(r, v, w);
    case Not(x) => EvalAgrees(x, v, w);
    case Sym(s) => assert s in Symbols(e);
    case Equal(l, r) => assert l in Symbols(e) && r in Symbols(e);
    case Unequal(l, r) => assert l in Symbols(e) && r in Symbols(e);
  }

  lemma TextsDiffer()
    ensures "y" != "m" && "y" != "n" && "m" != "n"
  {
    assert "y"[0] != "m"[0] && "y"[0] != "n"[0] && "m"[0] != "n"[0];
  }

  datatype Option<+T> = None | Some(value: T)

  /** A missing expression (a null pointer) counts as `y`. */
  function EvalOpt(e: Option<Expr>, v: Assignment): Tristate {
    match e
    case None => YES
    case Some(x) => Eval(x, v)
  }

  /** expr_alloc_and */
  function AllocAnd(a: Option<Expr>, b: Option<Expr>): Option<Expr> {
    if a.None? then b
    else if b.None? then a
    else Some(And(a.value, b.value))
  }

  lemma AllocAndValue(a: Option<Expr>, b: Option<Expr>, v: Assignment)
    ensures EvalOpt(AllocAnd(a, b), v) == Min(EvalOpt(a, v), EvalOpt(b, v))
  {
  }

  function OptSymbols(e: Option<Expr>): set<Symbol> {
    match e
    case None => {}
    case Some(x) => Symbols(x)
  }

  lemma EvalOptAgrees(e: Option<Expr>, v: Assignment, w: Assignment)
    requires AgreeOn(OptSymbols(e), v, w)
    ensures EvalOpt(e, v) == EvalOpt(e, w)
  {
    if e.Some? {
      EvalAgrees(e.value, v, w);
    }
  }
}
