/** Equality of expressions modulo associativity and commutativity, and the cancelling of
    common operands it is built on (expr_eq and expr_eliminate_eq of expr.c, which call each
    other). */
module Equality {
  import opened Tristates
  import opened Expressions
  import opened Simplification

  /** __expr_eliminate_eq: walk the `op` leaves of both trees and overwrite every pair of equal
      leaves with the unit of `op`. The walk over `b` is repeated for each leaf of `a`, on the
      tree as the earlier leaves left it. */
  function EliminatePairs(op: Op, a: Expr, b: Expr): (r: (Expr, Expr))
    ensures Size(r.0) <= Size(a) && Size(r.1) <= Size(b)
    ensures IsOp(op, a) ==> IsOp(op, r.0)
    ensures IsOp(op, b) ==> IsOp(op, r.1)
    decreases Size(a) + Size(b), if IsOp(op, a) || IsOp(op, b) then 0 else 5
  {
    if IsOp(op, a) then
      var (l, b1) := EliminatePairs(op, a.l, b);
      var (r, b2) := EliminatePairs(op, a.r, b1);
      (Node(op, l, r), b2)
    else if IsOp(op, b) then
      var (a1, l) := EliminatePairs(op, a, b.l);
      var (a2, r) := EliminatePairs(op, a1, b.r);
      (a2, Node(op, l, r))
    else if a == b && (a == Sym(Y) || a == Sym(N)) then (a, b)
    else if !ExprEq(a, b) then (a, b)
    else (Unit(op), Unit(op))
  }

  /** expr_eliminate_eq before its final unit elimination. */
  function EliminateCommon(a: Expr, b: Expr): (r: (Expr, Expr))
    ensures Size(r.0) <= Size(a) && Size(r.1) <= Size(b)
    decreases Size(a) + Size(b), 1
  {
    var (a1, b1) := if IsBinary(a) then EliminatePairs(OpOf(a), a, b) else (a, b);
    if IsBinary(b1) && !IsOp(OpOf(b1), a1) then EliminatePairs(OpOf(b1), a1, b1) else (a1, b1)
  }

  /** expr_eliminate_eq */
  function EliminateEq(a: Expr, b: Expr): (r: (Expr, Expr))
    ensures Size(r.0) <= Size(a) && Size(r.1) <= Size(b)
    decreases Size(a) + Size(b), 2
  {
    var (a1, b1) := EliminateCommon(a, b);
    (EliminateYn(a1), EliminateYn(b1))
  }

  /** expr_eq */
  predicate ExprEq(a: Expr, b: Expr)
    decreases Size(a) + Size(b), 4
  {
    match (a, b)
    case (Equal(_, _), Equal(_, _)) => a == b
    case (Unequal(_, _), Unequal(_, _)) => a == b
    case (Sym(_), Sym(_)) => a == b
    case (Not(x), Not(y)) => ExprEq(x, y)
    case (And(_, _), And(_, _)) => BothSame(a, b)
    case (Or(_, _), Or(_, _)) => BothSame(a, b)
    case _ => false
  }

  /** The AND/OR case of expr_eq: cancel on copies, and compare what is left. */
  predicate BothSame(a: Expr, b: Expr)
    decreases Size(a) + Size(b), 3
  {
    var (a1, b1) := EliminateEq(a, b);
    a1.Sym? && a1 == b1
  }

  // ---------------------------------------------------------------- soundness

  /** Cancelling takes the same operand out of both sides: the two originals are what is left
      combined with one common value. */
  lemma {:induction false} EliminatePairsSound(op: Op, a: Expr, b: Expr, v: Assignment) returns (m: Tristate)
    ensures var (a1, b1) := EliminatePairs(op, a, b);
            && Eval(a, v) == Apply(op, Eval(a1, v), m)
            && Eval(b, v) == Apply(op, Eval(b1, v), m)
    decreases Size(a) + Size(b), if IsOp(op, a) || IsOp(op, b) then 0 else 5
  {
    if IsOp(op, a) {
      PairsLeft(op, a, b);
      var (l, b1) := EliminatePairs(op, a.l, b);
      var m1 := EliminatePairsSound(op, a.l, b, v);
      var (r, b2) := EliminatePairs(op, a.r, b1);
      var m2 := EliminatePairsSound(op, a.r, b1, v);
      m := Apply(op, m1, m2);
      JoinCommon(op, a, l, r, v, m1, m2);
      Regroup(op, Eval(b2, v), m1, m2);
    } else if IsOp(op, b) {
      PairsRight(op, a, b);
      var (a1, l) := EliminatePairs(op, a, b.l);
      var m1 := EliminatePairsSound(op, a, b.l, v);
      var (a2, r) := EliminatePairs(op, a1, b.r);
      var m2 := EliminatePairsSound(op, a1, b.r, v);
      m := Apply(op, m1, m2);
      JoinCommon(op, b, l, r, v, m1, m2);
      Regroup(op, Eval(a2, v), m1, m2);
    } else {
      LeafPairs(op, a, b);
      if ExprEq(a, b) && !(a == b && (a == Sym(Y) || a == Sym(N))) {
        ExprEqSound(a, b, v);
        m := Eval(a, v);
      } else {
        m := Eval(Unit(op), v);
      }
    }
  }

  lemma JoinCommon(op: Op, x: Expr, l: Expr, r: Expr, v: Assignment, m1: Tristate, m2: Tristate)
    requires IsOp(op, x)
    requires Eval(x.l, v) == Apply(op, Eval(l, v), m1) && Eval(x.r, v) == Apply(op, Eval(r, v), m2)
    ensures Eval(x, v) == Apply(op, Eval(Node(op, l, r), v), Apply(op, m1, m2))
  {
    EvalNode(op, x, v);
    EvalNode(op, Node(op, l, r), v);
  }

  lemma Regroup(op: Op, c: Tristate, m1: Tristate, m2: Tristate)
    ensures Apply(op, Apply(op, c, m2), m1) == Apply(op, c, Apply(op, m1, m2))
  {
  }

  /** What a call of expr_eliminate_eq took out: first operands of the type of `a`, then
      operands of the other type. */
  lemma {:induction false} EliminateCommonSound(a: Expr, b: Expr, v: Assignment)
    returns (op: Op, m1: Tristate, m2: Tristate)
    ensures var (a1, b1) := EliminateCommon(a, b);
            var other := if op.OpAnd? then OpOr else OpAnd;
            && Eval(a, v) == Apply(op, Apply(other, Eval(a1, v), m2), m1)
            && Eval(b, v) == Apply(op, Apply(other, Eval(b1, v), m2), m1)
    decreases Size(a) + Size(b), 1
  {
    op := if a.And? then OpAnd else if a.Or? then OpOr else if b.And? then OpOr else OpAnd;
    m1 := Eval(Unit(op), v);
    var a0, b0 := a, b;
    if IsBinary(a) {
      m1 := EliminatePairsSound(op, a, b, v);
      var r := EliminatePairs(op, a, b);
      a0, b0 := r.0, r.1;
    }
    assert Eval(a, v) == Apply(op, Eval(a0, v), m1) && Eval(b, v) == Apply(op, Eval(b0, v), m1);
    var other := if op.OpAnd? then OpOr else OpAnd;
    m2 := Eval(Unit(other), v);
    if IsBinary(b0) && !IsOp(OpOf(b0), a0) {
      m2 := EliminatePairsSound(other, a0, b0, v);
      assert EliminateCommon(a, b) == EliminatePairs(other, a0, b0);
    } else {
      assert EliminateCommon(a, b) == (a0, b0);
    }
  }

  /** expr_eq answers 1 only for expressions that agree under every assignment. */
  lemma {:induction false} ExprEqSound(a: Expr, b: Expr, v: Assignment)
    requires ExprEq(a, b)
    ensures Eval(a, v) == Eval(b, v)
    decreases Size(a) + Size(b), 4
  {
    if a.Not? {
      ExprEqSound(a.e, b.e, v);
    } else if IsBinary(a) {
      assert BothSame(a, b);
      var op, m1, m2 := EliminateCommonSound(a, b, v);
      var (a1, b1) := EliminateCommon(a, b);
      EliminateYnPreserves(a1, v);
      EliminateYnPreserves(b1, v);
      assert EliminateEq(a, b) == (EliminateYn(a1), EliminateYn(b1));
    }
  }

  /** If expr_eliminate_eq reduces its second argument to `y`, the first argument implied it. */
  lemma EliminateEqImplies(a: Expr, b: Expr, v: Assignment)
    requires EliminateEq(a, b).1 == Sym(Y)
    ensures Eval(a, v) <= Eval(b, v)
  {
    var op, m1, m2 := EliminateCommonSound(a, b, v);
    var (a1, b1) := EliminateCommon(a, b);
    EliminateYnPreserves(b1, v);
    Dominates(op, Eval(a1, v), Eval(b1, v), m1, m2);
  }

  lemma Dominates(op: Op, a: Tristate, b: Tristate, m1: Tristate, m2: Tristate)
    requires b == YES
    ensures var other := if op.OpAnd? then OpOr else OpAnd;
            Apply(op, Apply(other, a, m2), m1) <= Apply(op, Apply(other, b, m2), m1)
  {
  }

  // ---------------------------------------------------------------- taking out a common part

  /** expr_extract_eq: like the cancelling walk, but units are cancelled too. The flag says
      whether anything was extracted. */
  function Extract(op: Op, a: Expr, b: Expr): (r: (Expr, Expr, bool))
    ensures Size(r.0) <= Size(a) && Size(r.1) <= Size(b)
    decreases Size(a) + Size(b)
  {
    if IsOp(op, a) then
      var (l, b1, f1) := Extract(op, a.l, b);
      var (r, b2, f2) := Extract(op, a.r, b1);
      (Node(op, l, r), b2, f1 || f2)
    else if IsOp(op, b) then
      var (a1, l, f1) := Extract(op, a, b.l);
      var (a2, r, f2) := Extract(op, a1, b.r);
      (a2, Node(op, l, r), f1 || f2)
    else if ExprEq(a, b) then (Unit(op), Unit(op), true)
    else (a, b, false)
  }

  /** What expr_extract_eq_and and expr_extract_eq_or leave of their first argument. */
  function ExtractRest(op: Op, a: Expr, b: Expr): Expr {
    var (a1, _, found) := Extract(op, a, b);
    if found then EliminateYn(a1) else a1
  }

  lemma {:induction false} ExtractSound(op: Op, a: Expr, b: Expr, v: Assignment) returns (m: Tristate)
    ensures var (a1, b1, _) := Extract(op, a, b);
            && Eval(a, v) == Apply(op, Eval(a1, v), m)
            && Eval(b, v) == Apply(op, Eval(b1, v), m)
    decreases Size(a) + Size(b)
  {
    if IsOp(op, a) {
      var (l, b1, _) := Extract(op, a.l, b);
      var m1 := ExtractSound(op, a.l, b, v);
      var (r, b2, _) := Extract(op, a.r, b1);
      var m2 := ExtractSound(op, a.r, b1, v);
      m := Apply(op, m1, m2);
      JoinCommon(op, a, l, r, v, m1, m2);
      Regroup(op, Eval(b2, v), m1, m2);
    } else if IsOp(op, b) {
      var (a1, l, _) := Extract(op, a, b.l);
      var m1 := ExtractSound(op, a, b.l, v);
      var (a2, r, _) := Extract(op, a1, b.r);
      var m2 := ExtractSound(op, a1, b.r, v);
      m := Apply(op, m1, m2);
      JoinCommon(op, b, l, r, v, m1, m2);
      Regroup(op, Eval(a2, v), m1, m2);
    } else if ExprEq(a, b) {
      ExprEqSound(a, b, v);
      m := Eval(a, v);
    } else {
      m := Eval(Unit(op), v);
    }
  }

  /** If nothing but a unit is left of `a`, then every operand of `a` was one of `b`: for AND,
      `b` implies `a`; for OR, `a` implies `b`. */
  lemma ExtractAll(op: Op, a: Expr, b: Expr, v: Assignment)
    requires ExtractRest(op, a, b) == Unit(op)
    ensures if op.OpAnd? then Eval(b, v) <= Eval(a, v) else Eval(a, v) <= Eval(b, v)
  {
    var m := ExtractSound(op, a, b, v);
    var (a1, b1, _) := Extract(op, a, b);
    EliminateYnPreserves(a1, v);
    assert Eval(a1, v) == Eval(Unit(op), v);
    UnitIsNeutral(op, m, Eval(b1, v), v);
  }

  lemma UnitIsNeutral(op: Op, m: Tristate, b: Tristate, v: Assignment)
    ensures Apply(op, Eval(Unit(op), v), m) == m
    ensures if op.OpAnd? then Apply(op, b, m) <= m else m <= Apply(op, b, m)
  {
  }

  // ---------------------------------------------------------------- completeness on flat trees

  /** No AND/OR anywhere inside. */
  predicate Atom(e: Expr) {
    match e
    case And(_, _) => false
    case Or(_, _) => false
    case Not(x) => Atom(x)
    case _ => true
  }

  predicate Literal(e: Expr) {
    Atom(e) && e != Sym(Y) && e != Sym(N)
  }

  /** A tree of `op` nodes over literals. */
  predicate Flat(op: Op, e: Expr) {
    if IsOp(op, e) then Flat(op, e.l) && Flat(op, e.r) else Literal(e)
  }

  /** The same, with units among the leaves. */
  predicate FlatWithUnits(op: Op, e: Expr) {
    if IsOp(op, e) then FlatWithUnits(op, e.l) && FlatWithUnits(op, e.r) else Literal(e) || e == Unit(op)
  }

  /** The operands of an `op` tree that are not its unit, with multiplicities. */
  function Operands(op: Op, e: Expr): multiset<Expr> {
    if IsOp(op, e) then Operands(op, e.l) + Operands(op, e.r)
    else if e == Unit(op) then multiset{}
    else multiset{e}
  }

  lemma {:induction false} AtomEq(a: Expr, b: Expr)
    requires Atom(a) && Atom(b)
    ensures ExprEq(a, b) <==> a == b
  {
    if a.Not? && b.Not? {
      AtomEq(a.e, b.e);
    }
  }

  lemma {:induction false} FlatIsFlatWithUnits(op: Op, e: Expr)
    requires Flat(op, e)
    ensures FlatWithUnits(op, e)
  {
    if IsOp(op, e) {
      FlatIsFlatWithUnits(op, e.l);
      FlatIsFlatWithUnits(op, e.r);
    }
  }

  /** `a1` and `b1` hold what is left of `a` and `b` after cancelling each against the other. */
  predicate Differences(op: Op, a: Expr, b: Expr, a1: Expr, b1: Expr) {
    && FlatWithUnits(op, a1) && FlatWithUnits(op, b1)
    && Operands(op, a1) == Operands(op, a) - Operands(op, b)
    && Operands(op, b1) == Operands(op, b) - Operands(op, a)
  }

  /** On such trees the pairwise walk computes both multiset differences. */
  lemma {:induction false} EliminatePairsDifference(op: Op, a: Expr, b: Expr)
    requires FlatWithUnits(op, a) && FlatWithUnits(op, b)
    ensures Differences(op, a, b, EliminatePairs(op, a, b).0, EliminatePairs(op, a, b).1)
    decreases Size(a) + Size(b)
  {
    if IsOp(op, a) {
      PairsLeft(op, a, b);
      EliminatePairsDifference(op, a.l, b);
      var b1 := EliminatePairs(op, a.l, b).1;
      EliminatePairsDifference(op, a.r, b1);
      JoinDifferences(op, a, b, EliminatePairs(op, a.l, b).0, EliminatePairs(op, a.r, b1).0,
                      b1, EliminatePairs(op, a.r, b1).1);
    } else if IsOp(op, b) {
      PairsRight(op, a, b);
      EliminatePairsDifference(op, a, b.l);
      var a1 := EliminatePairs(op, a, b.l).0;
      EliminatePairsDifference(op, a1, b.r);
      JoinDifferences(op, b, a, EliminatePairs(op, a, b.l).1, EliminatePairs(op, a1, b.r).1,
                      a1, EliminatePairs(op, a1, b.r).0);
    } else {
      AtomEq(a, b);
      LeafPairs(op, a, b);
      LeafDifferences(op, a, b);
    }
  }

  lemma PairsLeft(op: Op, a: Expr, b: Expr)
    requires IsOp(op, a)
    ensures var p := EliminatePairs(op, a.l, b);
            var q := EliminatePairs(op, a.r, p.1);
            EliminatePairs(op, a, b) == (Node(op, p.0, q.0), q.1)
  {
  }

  lemma PairsRight(op: Op, a: Expr, b: Expr)
    requires !IsOp(op, a) && IsOp(op, b)
    ensures var p := EliminatePairs(op, a, b.l);
            var q := EliminatePairs(op, p.0, b.r);
            EliminatePairs(op, a, b) == (q.0, Node(op, p.1, q.1))
  {
  }

  lemma LeafDifferences(op: Op, a: Expr, b: Expr)
    requires !IsOp(op, a) && !IsOp(op, b) && FlatWithUnits(op, a) && FlatWithUnits(op, b)
    ensures a == b ==> Differences(op, a, b, Unit(op), Unit(op)) && ((a == Sym(Y) || a == Sym(N)) <==> a == Unit(op))
    ensures a != b ==> Differences(op, a, b, a, b)
  {
    if a == b {
      SameLeaf(op, a);
    } else {
      SingleDifference(op, a, b);
      SingleDifference(op, b, a);
    }
  }

  lemma SameLeaf(op: Op, a: Expr)
    requires !IsOp(op, a) && FlatWithUnits(op, a)
    ensures Differences(op, a, a, Unit(op), Unit(op))
    ensures (a == Sym(Y) || a == Sym(N)) <==> a == Unit(op)
  {
    assert Operands(op, a) - Operands(op, a) == multiset{};
  }

  lemma SingleDifference(op: Op, a: Expr, b: Expr)
    requires a != b && !IsOp(op, a) && !IsOp(op, b)
    ensures Operands(op, a) - Operands(op, b) == Operands(op, a)
  {
  }

  lemma LeafPairs(op: Op, a: Expr, b: Expr)
    requires !IsOp(op, a) && !IsOp(op, b)
    ensures EliminatePairs(op, a, b) ==
            if ExprEq(a, b) && !(a == b && (a == Sym(Y) || a == Sym(N))) then (Unit(op), Unit(op)) else (a, b)
  {
  }

  /** The differences for the two halves of `x`, taken one after the other, make up those for `x`. */
  lemma JoinDifferences(op: Op, x: Expr, y: Expr, l: Expr, r: Expr, y1: Expr, y2: Expr)
    requires IsOp(op, x)
    requires Differences(op, x.l, y, l, y1) && Differences(op, x.r, y1, r, y2)
    ensures Differences(op, x, y, Node(op, l, r), y2)
  {
    var n := Node(op, l, r);
    assert FlatWithUnits(op, n);
    assert Operands(op, n) == Operands(op, l) + Operands(op, r);
    assert Operands(op, x) == Operands(op, x.l) + Operands(op, x.r);
    SplitDifference(Operands(op, x.l), Operands(op, x.r), Operands(op, y));
  }

  lemma SplitDifference<T>(l: multiset<T>, r: multiset<T>, b: multiset<T>)
    ensures (l - b) + (r - (b - l)) == (l + r) - b
    ensures (b - l) - r == b - (l + r)
  {
  }

  lemma {:induction false} EliminateYnFlat(op: Op, e: Expr)
    requires FlatWithUnits(op, e)
    ensures Operands(op, EliminateYn(e)) == Operands(op, e)
    ensures EliminateYn(e) == Unit(op) || Flat(op, EliminateYn(e))
  {
    if IsOp(op, e) {
      EliminateYnFlat(op, e.l);
      EliminateYnFlat(op, e.r);
      DropUnitFlat(op, EliminateYn(e.l), EliminateYn(e.r));
      EliminateYnNode(op, e);
    } else {
      assert EliminateYn(e) == e;
    }
  }

  lemma EliminateYnNode(op: Op, e: Expr)
    requires IsOp(op, e)
    ensures EliminateYn(e) == DropUnit(op, EliminateYn(e.l), EliminateYn(e.r))
  {
  }

  lemma DropUnitFlat(op: Op, l: Expr, r: Expr)
    requires (l == Unit(op) || Flat(op, l)) && (r == Unit(op) || Flat(op, r))
    ensures var e := DropUnit(op, l, r);
            && Operands(op, e) == Operands(op, l) + Operands(op, r)
            && (e == Unit(op) || Flat(op, e))
  {
    assert !Flat(op, Zero(op));
  }

  lemma {:induction false} FlatHasOperands(op: Op, e: Expr)
    requires Flat(op, e)
    ensures Operands(op, e) != multiset{}
  {
    if IsOp(op, e) {
      FlatHasOperands(op, e.l);
    }
  }

  /** On two flat AND (or two flat OR) trees expr_eq decides equality of the operand multisets:
      order and nesting do not matter, repetitions do. */
  lemma ExprEqComplete(op: Op, a: Expr, b: Expr)
    requires IsOp(op, a) && IsOp(op, b) && Flat(op, a) && Flat(op, b)
    ensures ExprEq(a, b) <==> Operands(op, a) == Operands(op, b)
  {
    FlatIsFlatWithUnits(op, a);
    FlatIsFlatWithUnits(op, b);
    var (a1, b1) := EliminatePairs(op, a, b);
    EliminatePairsDifference(op, a, b);
    assert EliminateCommon(a, b) == (a1, b1);
    EliminateYnFlat(op, a1);
    EliminateYnFlat(op, b1);
    assert EliminateEq(a, b) == (EliminateYn(a1), EliminateYn(b1));
    assert ExprEq(a, b) <==> BothSame(a, b);
    SameRest(op, EliminateYn(a1), EliminateYn(b1), Operands(op, a), Operands(op, b));
  }

  /** Two rests with these operands are the same symbol only when nothing was left over. */
  lemma SameRest(op: Op, x: Expr, y: Expr, a: multiset<Expr>, b: multiset<Expr>)
    requires x == Unit(op) || Flat(op, x)
    requires y == Unit(op) || Flat(op, y)
    requires Operands(op, x) == a - b && Operands(op, y) == b - a
    ensures x.Sym? && x == y <==> a == b
  {
    if Flat(op, x) { FlatHasOperands(op, x); }
    if Flat(op, y) { FlatHasOperands(op, y); }
    if x.Sym? && x == y {
      assert a - b == b - a;
      forall e ensures a[e] == b[e] {
        assert (a - b)[e] == (b - a)[e];
      }
    }
  }

  /** On flat trees of one operator expr_eliminate_eq reduces its second argument to a unit exactly if
      it has no operand that the first one has not. */
  lemma EliminateEqExact(op: Op, a: Expr, b: Expr)
    requires Flat(op, a) && Flat(op, b) && (IsOp(op, a) || IsOp(op, b))
    ensures EliminateEq(a, b).1 == Unit(op) <==> Operands(op, b) <= Operands(op, a)
  {
    FlatIsFlatWithUnits(op, a);
    FlatIsFlatWithUnits(op, b);
    EliminatePairsDifference(op, a, b);
    var (a1, b1) := EliminatePairs(op, a, b);
    OneOperator(op, a1);
    OneOperator(op, b1);
    OneOperator(op, a);
    OneOperator(op, b);
    assert EliminateCommon(a, b) == (a1, b1);
    assert EliminateEq(a, b).1 == EliminateYn(b1);
    EliminateYnFlat(op, b1);
    if Flat(op, EliminateYn(b1)) {
      FlatHasOperands(op, EliminateYn(b1));
    }
    SubsetIffNothingLeft(Operands(op, b), Operands(op, a));
  }

  lemma OneOperator(op: Op, e: Expr)
    requires FlatWithUnits(op, e)
    ensures IsBinary(e) ==> IsOp(op, e) && OpOf(e) == op
  {
  }

  lemma SubsetIffNothingLeft<T>(b: multiset<T>, a: multiset<T>)
    ensures b <= a <==> b - a == multiset{}
  {
    if b - a == multiset{} {
      forall e ensures b[e] <= a[e] {
        assert (b - a)[e] == 0;
      }
    }
  }

  lemma {:induction false} PairsWithYes(op: Op, a: Expr)
    ensures EliminatePairs(op, a, Sym(Y)).1 == Sym(Y)
    decreases Size(a)
  {
    if IsOp(op, a) {
      PairsLeft(op, a, Sym(Y));
      PairsWithYes(op, a.l);
      PairsWithYes(op, a.r);
    }
  }

  lemma EliminateEqOfYes(a: Expr)
    ensures EliminateEq(a, Sym(Y)).1 == Sym(Y)
  {
    if IsBinary(a) {
      PairsWithYes(OpOf(a), a);
    }
  }

  /** Constants are not cancelled: what is `n` anyhow is equal to whatever else is, and likewise for `y`. */
  lemma ZeroMakesEqual(op: Op, a: Expr, b: Expr)
    requires Literal(a) && Literal(b)
    ensures ExprEq(Node(op, Zero(op), a), Node(op, Zero(op), b))
  {
    var x, y, z := Node(op, Zero(op), a), Node(op, Zero(op), b), Zero(op);
    AtomEq(a, b);
    AtomEq(z, a);
    AtomEq(z, b);
    AtomEq(a, z);
    LeafPairs(op, z, z);
    LeafPairs(op, z, b);
    LeafPairs(op, a, z);
    LeafPairs(op, a, b);
    PairsRight(op, z, y);
    assert EliminatePairs(op, z, y) == (z, y);
    PairsRight(op, a, y);
    PairsLeft(op, x, y);
    var r := EliminatePairs(op, x, y);
    assert r.0.l == z && r.1.l == z;
    assert EliminateCommon(x, y) == r;
    assert EliminateYn(r.0) == z && EliminateYn(r.1) == z;
    assert BothSame(x, y);
  }
}
