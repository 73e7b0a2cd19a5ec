/** The local rewriting passes of expr.c: unit elimination, negation normal form and the
    tristate shortcut `FOO != n ~> FOO`. */
module Simplification {
  import opened Tristates
  import opened Expressions

  // ---------------------------------------------------------------- unit elimination

  /** One AND/OR node whose operands are already free of units (the body of both cases of
      expr_eliminate_yn: the left operand is looked at first). */
  function DropUnit(op: Op, l: Expr, r: Expr): (e: Expr)
    ensures Size(e) <= 1 + Size(l) + Size(r)
    ensures e == Node(op, l, r) || Size(e) < 1 + Size(l) + Size(r)
  {
    if l == Zero(op) then Zero(op)
    else if l == Unit(op) then r
    else if r == Zero(op) then Zero(op)
    else if r == Unit(op) then l
    else Node(op, l, r)
  }

  /** expr_eliminate_yn */
  function EliminateYn(e: Expr): (r: Expr)
    ensures Size(r) <= Size(e)
  {
    match e
    case And(a, b) => DropUnit(OpAnd, EliminateYn(a), EliminateYn(b))
    case Or(a, b) => DropUnit(OpOr, EliminateYn(a), EliminateYn(b))
    case _ => e
  }

  /** No AND/OR node reachable through AND/OR nodes has a `y` or `n` operand. */
  predicate UnitFree(e: Expr) {
    IsBinary(e) ==>
      && e.l !in {Sym(Y), Sym(N)} && e.r !in {Sym(Y), Sym(N)}
      && UnitFree(e.l) && UnitFree(e.r)
  }

  lemma {:induction false} EliminateYnPreserves(e: Expr, v: Assignment)
    ensures Eval(EliminateYn(e), v) == Eval(e, v)
  {
    if IsBinary(e) {
      EliminateYnPreserves(e.l, v);
      EliminateYnPreserves(e.r, v);
    }
  }

  /** Unit elimination removes every unit, does nothing exactly when there is none, and
      shrinks the expression whenever it does something. */
  lemma {:induction false} EliminateYnShape(e: Expr)
    ensures UnitFree(EliminateYn(e))
    ensures EliminateYn(e) == e <==> UnitFree(e)
    ensures EliminateYn(e) != e ==> Size(EliminateYn(e)) < Size(e)
  {
    if IsBinary(e) {
      EliminateYnShape(e.l);
      EliminateYnShape(e.r);
      assert EliminateYn(e) == DropUnit(OpOf(e), EliminateYn(e.l), EliminateYn(e.r));
    }
  }

  // ---------------------------------------------------------------- negation normal form

  /** Termination weight of expr_transform: pushing a negation through AND/OR pays for the
      node it creates because a negation doubles what is below it. */
  function Weight(e: Expr): (n: nat)
    ensures n >= 1
  {
    match e
    case Sym(_) => 1
    case Equal(_, _) => 2
    case Unequal(_, _) => 2
    case Not(x) => 2 * Weight(x)
    case And(l, r) => 1 + Weight(l) + Weight(r)
    case Or(l, r) => 1 + Weight(l) + Weight(r)
  }

  /** De Morgan: what expr_transform turns the negation of an AND/OR node into. */
  function PushNot(e: Expr): (r: Expr)
    requires IsBinary(e)
    ensures IsBinary(r) && r.And? == e.Or?
    ensures Weight(r) < 2 * Weight(e)
  {
    assert Weight(Not(e.l)) == 2 * Weight(e.l) && Weight(Not(e.r)) == 2 * Weight(e.r);
    if e.Or? then And(Not(e.l), Not(e.r)) else Or(Not(e.l), Not(e.r))
  }

  /** expr_transform */
  function Transform(e: Expr): (r: Expr)
    ensures Weight(r) <= Weight(e)
    decreases Weight(e)
  {
    match e
    case Sym(_) => e
    case And(a, b) => And(Transform(a), Transform(b))
    case Or(a, b) => Or(Transform(a), Transform(b))
    case Equal(s, c) =>
      if !IsBooleanSymbol(s) then e
      else if c == N then Not(Sym(s))
      else if c == M then Sym(N)
      else if c == Y then Sym(s)
      else e
    case Unequal(s, c) =>
      if !IsBooleanSymbol(s) then e
      else if c == N then Sym(s)
      else if c == M then Sym(Y)
      else if c == Y then Not(Sym(s))
      else e
    case Not(x) =>
      var y := Transform(x);
      match y
      case Not(a) => Transform(a)
      case Equal(s, c) => Unequal(s, c)
      case Unequal(s, c) => Equal(s, c)
      case Or(_, _) => Transform(PushNot(y))
      case And(_, _) => Transform(PushNot(y))
      case Sym(s) =>
        if s == Y then Sym(N)
        else if s == M then Sym(M)
        else if s == N then Sym(Y)
        else Not(y)
  }

  predicate IsBooleanSymbol(s: Symbol) {
    s.Config? && s.stype.Boolean?
  }

  /** Negation stands only over symbols other than y, m and n. */
  predicate Nnf(e: Expr) {
    match e
    case Not(x) => x.Sym? && !IsYmn(x.s)
    case And(l, r) => Nnf(l) && Nnf(r)
    case Or(l, r) => Nnf(l) && Nnf(r)
    case _ => true
  }

  /** Nnf, and no bool symbol is compared with y, m or n. */
  predicate Normal(e: Expr) {
    match e
    case Not(x) => x.Sym? && !IsYmn(x.s)
    case And(l, r) => Normal(l) && Normal(r)
    case Or(l, r) => Normal(l) && Normal(r)
    case Equal(s, c) => !(IsBooleanSymbol(s) && IsYmn(c))
    case Unequal(s, c) => !(IsBooleanSymbol(s) && IsYmn(c))
    case Sym(_) => true
  }

  lemma {:induction false} NormalIsNnf(e: Expr)
    requires Normal(e)
    ensures Nnf(e)
  {
    if IsBinary(e) {
      NormalIsNnf(e.l);
      NormalIsNnf(e.r);
    }
  }

  lemma {:induction false} TransformIsNormal(e: Expr)
    ensures Normal(Transform(e))
    decreases Weight(e)
  {
    match e
    case Sym(_) =>
    case Equal(_, _) =>
    case Unequal(_, _) =>
    case And(a, b) => TransformIsNormal(a); TransformIsNormal(b);
    case Or(a, b) => TransformIsNormal(a); TransformIsNormal(b);
    case Not(x) =>
      TransformIsNormal(x);
      match Transform(x) {
        case Not(a) => TransformIsNormal(a);
        case Or(_, _) => TransformIsNormal(PushNot(Transform(x)));
        case And(_, _) => TransformIsNormal(PushNot(Transform(x)));
        case _ =>
      }
  }

  /** Normal forms are exactly the expressions that expr_transform leaves alone. */
  lemma {:induction false} NormalIffFixed(e: Expr)
    ensures Normal(e) <==> Transform(e) == e
  {
    if Normal(e) {
      NormalIsFixed(e);
    } else {
      TransformIsNormal(e);
    }
  }

  lemma {:induction false} NormalIsFixed(e: Expr)
    requires Normal(e)
    ensures Transform(e) == e
  {
    if IsBinary(e) {
      NormalIsFixed(e.l);
      NormalIsFixed(e.r);
    }
  }

  lemma TransformIdempotent(e: Expr)
    ensures Transform(Transform(e)) == Transform(e)
  {
    TransformIsNormal(e);
    NormalIsFixed(Transform(e));
  }

  /** A test of a bool symbol against y, m or n reads off the symbol's own value. */
  lemma BooleanTest(s: Symbol, v: Assignment)
    requires Legal(v) && IsBooleanSymbol(s)
    ensures Eval(Equal(s, Y), v) == Eval(Sym(s), v) == Eval(Unequal(s, N), v)
    ensures Eval(Equal(s, N), v) == Eval(Not(Sym(s)), v) == Eval(Unequal(s, Y), v)
    ensures Eval(Equal(s, M), v) == NO && Eval(Unequal(s, M), v) == YES
  {
    TextsDiffer();
    assert s.IsTristateLike();
  }

  lemma PushNotValue(e: Expr, v: Assignment)
    requires IsBinary(e)
    ensures Eval(PushNot(e), v) == Negate(Eval(e, v))
  {
  }

  lemma {:induction false} TransformPreserves(e: Expr, v: Assignment)
    requires Legal(v)
    ensures Eval(Transform(e), v) == Eval(e, v)
    decreases Weight(e)
  {
    match e
    case Sym(_) =>
    case Equal(s, c) => if IsBooleanSymbol(s) { BooleanTest(s, v); }
    case Unequal(s, c) => if IsBooleanSymbol(s) { BooleanTest(s, v); }
    case And(a, b) => TransformPreserves(a, v); TransformPreserves(b, v);
    case Or(a, b) => TransformPreserves(a, v); TransformPreserves(b, v);
    case Not(x) =>
      TransformPreserves(x, v);
      match Transform(x) {
        case Not(a) => TransformPreserves(a, v);
        case Or(_, _) => TransformPreserves(PushNot(Transform(x)), v); PushNotValue(Transform(x), v);
        case And(_, _) => TransformPreserves(PushNot(Transform(x)), v); PushNotValue(Transform(x), v);
        case _ =>
      }
  }

  // ---------------------------------------------------------------- FOO != n ~> FOO

  /** expr_trans_bool */
  function TransBool(e: Expr): Expr {
    match e
    case And(l, r) => And(TransBool(l), TransBool(r))
    case Or(l, r) => Or(TransBool(l), TransBool(r))
    case Not(x) => Not(TransBool(x))
    case Unequal(s, c) => if s.Config? && s.stype.ThreeState? && c == N then Sym(s) else e
    case _ => e
  }

  /** A node that expr_trans_bool replaces. */
  predicate IsShortcut(e: Expr) {
    e.Unequal? && e.left.Config? && e.left.stype.ThreeState? && e.right == N
  }

  /** No node of that kind anywhere. */
  predicate NoShortcuts(e: Expr) {
    match e
    case And(l, r) => NoShortcuts(l) && NoShortcuts(r)
    case Or(l, r) => NoShortcuts(l) && NoShortcuts(r)
    case Not(x) => NoShortcuts(x)
    case _ => !IsShortcut(e)
  }

  /** expr_trans_bool replaces them all, and nothing else. */
  lemma {:induction false} TransBoolShape(e: Expr)
    ensures NoShortcuts(TransBool(e))
    ensures TransBool(e) == e <==> NoShortcuts(e)
    ensures IsShortcut(e) ==> TransBool(e) == Sym(e.left)
  {
    match e
    case And(l, r) => TransBoolShape(l); TransBoolShape(r);
    case Or(l, r) => TransBoolShape(l); TransBoolShape(r);
    case Not(x) => TransBoolShape(x);
    case _ =>
  }

  /** On negation normal forms expr_trans_bool keeps apart exactly `no` and the rest, and it
      can only lower a value. */
  lemma {:induction false} TransBoolKeepsNo(e: Expr, v: Assignment)
    requires Legal(v) && Nnf(e)
    ensures Eval(TransBool(e), v) == NO <==> Eval(e, v) == NO
    ensures Eval(TransBool(e), v) <= Eval(e, v)
  {
    if IsBinary(e) {
      TransBoolKeepsNo(e.l, v);
      TransBoolKeepsNo(e.r, v);
    } else if IsShortcut(e) {
      TextsDiffer();
    }
  }

  /** Below a negation the shortcut changes the answer exactly when the symbol is `m`. */
  lemma TransBoolUnderNot(s: Symbol, v: Assignment)
    requires Legal(v) && IsShortcut(Unequal(s, N))
    ensures (Eval(TransBool(Not(Unequal(s, N))), v) == NO <==> Eval(Not(Unequal(s, N)), v) == NO)
       <==> TriOf(s, v) != MOD
  {
    TextsDiffer();
    assert Eval(Not(Unequal(s, N)), v) == 2 - Eval(Unequal(s, N), v);
    assert TransBool(Unequal(s, N)) == Sym(s);
    assert Eval(TransBool(Not(Unequal(s, N))), v) == 2 - TriOf(s, v);
  }
}
