/** Positions in the part of a tree that consists of nodes of one operator. A `struct expr **`
    of the C code is a position here, so comparing positions is its pointer comparison. */
module Spines {
  import opened Tristates
  import opened Expressions
  import opened Simplification

  /** Left is false, right is true. */
  type Position = seq<bool>

  function Child(e: Expr, right: bool): Expr
    requires IsBinary(e)
  {
    if right then e.r else e.l
  }

  /** All nodes above `p` are `op` nodes. */
  predicate OnSpine(op: Op, e: Expr, p: Position) {
    p == [] || (IsOp(op, e) && OnSpine(op, Child(e, p[0]), p[1..]))
  }

  function At(op: Op, e: Expr, p: Position): (x: Expr)
    requires OnSpine(op, e, p)
    ensures p != [] ==> Size(x) < Size(e)
    ensures Size(x) <= Size(e)
  {
    if p == [] then e else At(op, Child(e, p[0]), p[1..])
  }

  /** `e` with the subtree at `p` overwritten by `x`. */
  function Put(op: Op, e: Expr, p: Position, x: Expr): (r: Expr)
    requires OnSpine(op, e, p)
    ensures Size(r) == Size(e) - Size(At(op, e, p)) + Size(x)
    ensures p != [] ==> IsOp(op, r)
  {
    if p == [] then x
    else if p[0] then Node(op, e.l, Put(op, e.r, p[1..], x))
    else Node(op, Put(op, e.l, p[1..], x), e.r)
  }

  /** An operand: a position where the `op` nodes end. */
  predicate IsLeaf(op: Op, e: Expr, p: Position) {
    OnSpine(op, e, p) && !IsOp(op, At(op, e, p))
  }

  /** The same `op` nodes, whatever the operands. */
  predicate SameSpine(op: Op, a: Expr, b: Expr) {
    && IsOp(op, a) == IsOp(op, b)
    && (IsOp(op, a) ==> SameSpine(op, a.l, b.l) && SameSpine(op, a.r, b.r))
  }

  function SpineSize(op: Op, e: Expr): nat {
    if IsOp(op, e) then 1 + SpineSize(op, e.l) + SpineSize(op, e.r) else 0
  }

  lemma {:induction false} SameSpineRefl(op: Op, e: Expr)
    ensures SameSpine(op, e, e)
  {
    if IsOp(op, e) {
      SameSpineRefl(op, e.l);
      SameSpineRefl(op, e.r);
    }
  }

  lemma {:induction false} SameSpineTrans(op: Op, a: Expr, b: Expr, c: Expr)
    requires SameSpine(op, a, b) && SameSpine(op, b, c)
    ensures SameSpine(op, a, c)
  {
    if IsOp(op, a) {
      SameSpineTrans(op, a.l, b.l, c.l);
      SameSpineTrans(op, a.r, b.r, c.r);
    }
  }

  /** Positions carry over between trees with the same `op` nodes. */
  lemma {:induction false} SameSpineAt(op: Op, a: Expr, b: Expr, p: Position)
    requires SameSpine(op, a, b) && OnSpine(op, a, p)
    ensures OnSpine(op, b, p)
    ensures SameSpine(op, At(op, a, p), At(op, b, p))
  {
    if p != [] {
      SameSpineAt(op, Child(a, p[0]), Child(b, p[0]), p[1..]);
    }
  }

  lemma {:induction false} SameSpineSize(op: Op, a: Expr, b: Expr)
    requires SameSpine(op, a, b)
    ensures SpineSize(op, a) == SpineSize(op, b)
  {
    if IsOp(op, a) {
      SameSpineSize(op, a.l, b.l);
      SameSpineSize(op, a.r, b.r);
    }
  }

  lemma {:induction false} Extend(op: Op, e: Expr, p: Position, right: bool)
    requires OnSpine(op, e, p) && IsOp(op, At(op, e, p))
    ensures OnSpine(op, e, p + [right])
    ensures At(op, e, p + [right]) == Child(At(op, e, p), right)
  {
    if p == [] {
      assert [right][1..] == [];
    } else {
      Extend(op, Child(e, p[0]), p[1..], right);
      assert (p + [right])[1..] == p[1..] + [right];
    }
  }

  lemma {:induction false} PutSame(op: Op, e: Expr, p: Position, x: Expr)
    requires IsLeaf(op, e, p) && !IsOp(op, x)
    ensures SameSpine(op, e, Put(op, e, p, x))
    ensures IsLeaf(op, Put(op, e, p, x), p) && At(op, Put(op, e, p, x), p) == x
  {
    if p != [] {
      PutSame(op, Child(e, p[0]), p[1..], x);
      SameSpineRefl(op, e.l);
      SameSpineRefl(op, e.r);
    }
  }

  /** Overwriting one operand leaves the others as they were. */
  lemma {:induction false} PutOther(op: Op, e: Expr, p: Position, x: Expr, q: Position)
    requires IsLeaf(op, e, p) && !IsOp(op, x) && IsLeaf(op, e, q) && p != q
    ensures p != [] && q != []
    ensures IsLeaf(op, Put(op, e, p, x), q)
    ensures At(op, Put(op, e, p, x), q) == At(op, e, q)
  {
    if p != [] && q != [] && p[0] == q[0] {
      PutOther(op, Child(e, p[0]), p[1..], x, q[1..]);
    }
  }

  lemma {:induction false} PutBack(op: Op, e: Expr, p: Position)
    requires OnSpine(op, e, p)
    ensures Put(op, e, p, At(op, e, p)) == e
  {
    if p != [] {
      PutBack(op, Child(e, p[0]), p[1..]);
    }
  }

  // ---------------------------------------------------------------- values

  /** Seen from one position, the rest of the tree contributes a fixed value. */
  lemma {:induction false} Context(op: Op, e: Expr, p: Position, v: Assignment) returns (c: Tristate)
    requires OnSpine(op, e, p)
    ensures Eval(e, v) == Apply(op, Eval(At(op, e, p), v), c)
    ensures forall x :: Eval(Put(op, e, p, x), v) == Apply(op, Eval(x, v), c)
  {
    if p == [] {
      c := Eval(Unit(op), v);
    } else {
      var d := Context(op, Child(e, p[0]), p[1..], v);
      var o := Eval(Child(e, !p[0]), v);
      c := Apply(op, d, o);
      forall x ensures Eval(Put(op, e, p, x), v) == Apply(op, Eval(x, v), c) {
        EvalNode(op, Put(op, e, p, x), v);
        ApplyAlgebra(op, Eval(x, v), d, o);
        ApplyAlgebra(op, o, Apply(op, Eval(x, v), d), o);
      }
      EvalNode(op, e, v);
      ApplyAlgebra(op, Eval(At(op, e, p), v), d, o);
      ApplyAlgebra(op, o, Apply(op, Eval(At(op, e, p), v), d), o);
    }
  }

  /** The connectives respect the information order. */
  lemma {:induction false} PutRefines(op: Op, e: Expr, p: Position, x: Expr, v: Assignment)
    requires OnSpine(op, e, p)
    requires Refines(Eval(At(op, e, p), v), Eval(x, v))
    ensures Refines(Eval(e, v), Eval(Put(op, e, p, x), v))
  {
    var c := Context(op, e, p, v);
  }

  /** A value below which (for AND) or above which (for OR) the whole tree lies. */
  predicate Bounds(op: Op, bound: Tristate, t: Tristate) {
    if op.OpAnd? then t <= bound else t >= bound
  }

  lemma SubtreeBounds(op: Op, e: Expr, p: Position, v: Assignment)
    requires OnSpine(op, e, p)
    ensures Bounds(op, Eval(At(op, e, p), v), Eval(e, v))
  {
    var c := Context(op, e, p, v);
  }

  // ---------------------------------------------------------------- units and normal forms

  lemma {:induction false} PutUnit(op: Op, e: Expr, p: Position, x: Expr)
    requires OnSpine(op, e, p)
    requires !UnitFree(x) || (p != [] && x in {Sym(Y), Sym(N)})
    ensures !UnitFree(Put(op, e, p, x))
  {
    if p != [] {
      var c := Child(e, p[0]);
      if !UnitFree(x) || p[1..] != [] {
        PutUnit(op, c, p[1..], x);
      }
    }
  }

  lemma {:induction false} PutNnf(op: Op, e: Expr, p: Position, x: Expr)
    requires OnSpine(op, e, p) && Nnf(e)
    ensures Nnf(At(op, e, p))
    ensures Nnf(x) ==> Nnf(Put(op, e, p, x))
  {
    if p != [] {
      PutNnf(op, Child(e, p[0]), p[1..], x);
    }
  }
}
