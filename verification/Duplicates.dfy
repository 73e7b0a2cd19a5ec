/** Joining of redundant operands: expr_join_or, expr_join_and, the pairwise walks
    expr_eliminate_dups1 and expr_eliminate_dups2, and the fixpoint loop around them. */
module Duplicates {
  import opened Tristates
  import opened Expressions
  import opened Simplification
  import opened Equality
  import opened Spines

  // ---------------------------------------------------------------- joining two operands

  /** The symbol an operand is about, if it has the shape the join functions look at. */
  function SubjectLeft(e: Expr): Option<Symbol> {
    match e
    case Sym(s) => Some(s)
    case Equal(s, _) => Some(s)
    case Unequal(s, _) => Some(s)
    case Not(x) => if x.Sym? then Some(x.s) else if x.Equal? || x.Unequal? then Some(x.left) else None
    case _ => None
  }

  /** The second operand may be negated only over a plain symbol. */
  function SubjectRight(e: Expr): Option<Symbol> {
    match e
    case Sym(s) => Some(s)
    case Equal(s, _) => Some(s)
    case Unequal(s, _) => Some(s)
    case Not(x) => if x.Sym? then Some(x.s) else None
    case _ => None
  }

  /** The common bool or tristate symbol that makes two operands candidates for a join. */
  function Subject(a: Expr, b: Expr): (r: Option<Symbol>)
    ensures r.Some? ==> r == SubjectLeft(a) == SubjectRight(b) && r.value.IsTristateLike()
  {
    var s1, s2 := SubjectLeft(a), SubjectRight(b);
    if s1.Some? && s1 == s2 && s1.value.IsTristateLike() then s1 else None
  }

  predicate EqualTo(e: Expr, c: Symbol) {
    e.Equal? && e.right == c
  }

  predicate UnequalTo(e: Expr, c: Symbol) {
    e.Unequal? && e.right == c
  }

  /** expr_join_or */
  function JoinOr(a: Expr, b: Expr): Option<Expr> {
    if ExprEq(a, b) then Some(a)
    else
      var subject := Subject(a, b);
      if subject.None? then None
      else
        var s := subject.value;
        if s.stype.ThreeState? then
          if (EqualTo(a, Y) && EqualTo(b, M)) || (EqualTo(a, M) && EqualTo(b, Y)) then Some(Unequal(s, N))
          else if (EqualTo(a, Y) && EqualTo(b, N)) || (EqualTo(a, N) && EqualTo(b, Y)) then Some(Unequal(s, M))
          else if (EqualTo(a, M) && EqualTo(b, N)) || (EqualTo(a, N) && EqualTo(b, M)) then Some(Unequal(s, Y))
          else None
        else if (a.Not? && a.e.Sym? && b.Sym?) || (b.Not? && b.e.Sym? && a.Sym?) then Some(Sym(Y))
        else None
  }

  /** expr_join_and */
  function JoinAnd(a: Expr, b: Expr): Option<Expr> {
    if ExprEq(a, b) then Some(a)
    else
      var subject := Subject(a, b);
      if subject.None? then None
      else
        var s := subject.value;
        if (a.Sym? && EqualTo(b, Y)) || (b.Sym? && EqualTo(a, Y)) then Some(Equal(s, Y))
        else if (a.Sym? && UnequalTo(b, N)) || (b.Sym? && UnequalTo(a, N)) then Some(Sym(s))
        else if (a.Sym? && UnequalTo(b, M)) || (b.Sym? && UnequalTo(a, M)) then Some(Equal(s, Y))
        else if !s.stype.ThreeState? then None
        else if a.Equal? && b.Unequal? && a.right.Constant? && b.right.Constant? then
          Some(if a.right != b.right then Equal(s, a.right) else Sym(N))
        else if a.Unequal? && b.Equal? && a.right.Constant? && b.right.Constant? then
          Some(if b.right != a.right then Equal(s, b.right) else Sym(N))
        else if (UnequalTo(a, Y) && UnequalTo(b, N)) || (UnequalTo(a, N) && UnequalTo(b, Y)) then Some(Equal(s, M))
        else if (UnequalTo(a, Y) && UnequalTo(b, M)) || (UnequalTo(a, M) && UnequalTo(b, Y)) then Some(Equal(s, N))
        else if (UnequalTo(a, M) && UnequalTo(b, N)) || (UnequalTo(a, N) && UnequalTo(b, M)) then Some(Equal(s, Y))
        else None
  }

  function Join(op: Op, a: Expr, b: Expr): Option<Expr> {
    if op.OpAnd? then JoinAnd(a, b) else JoinOr(a, b)
  }

  /** The text of a bool or tristate symbol is that of its value, in every legal assignment. */
  lemma TristateText(s: Symbol, v: Assignment)
    requires Legal(v) && s.IsTristateLike()
    ensures StrOf(s, v) == "n" <==> TriOf(s, v) == NO
    ensures StrOf(s, v) == "m" <==> TriOf(s, v) == MOD
    ensures StrOf(s, v) == "y" <==> TriOf(s, v) == YES
    ensures StrOf(s, v) in {"n", "m", "y"}
    ensures s.stype.Boolean? ==> TriOf(s, v) != MOD
  {
    TextsDiffer();
  }

  lemma JoinOrExact(a: Expr, b: Expr, v: Assignment)
    requires Legal(v) && JoinOr(a, b).Some?
    ensures Eval(JoinOr(a, b).value, v) == Max(Eval(a, v), Eval(b, v))
  {
    if ExprEq(a, b) {
      ExprEqSound(a, b, v);
    } else {
      TristateText(Subject(a, b).value, v);
      TextsDiffer();
    }
  }

  lemma JoinAndOfSymbol(a: Expr, b: Expr, v: Assignment)
    requires Legal(v) && JoinAnd(a, b).Some? && !ExprEq(a, b) && (a.Sym? || b.Sym?)
    ensures Eval(JoinAnd(a, b).value, v) == Min(Eval(a, v), Eval(b, v))
  {
    hide ExprEq;
    TristateText(Subject(a, b).value, v);
    TextsDiffer();
  }

  lemma JoinAndOfComparisons(a: Expr, b: Expr, v: Assignment)
    requires Legal(v) && JoinAnd(a, b).Some? && !ExprEq(a, b) && !a.Sym? && !b.Sym? && (a.Equal? || b.Equal?)
    ensures Eval(JoinAnd(a, b).value, v) == Min(Eval(a, v), Eval(b, v))
  {
    hide ExprEq;
    TristateText(Subject(a, b).value, v);
    TextsDiffer();
  }

  lemma JoinAndOfInequalities(a: Expr, b: Expr, v: Assignment)
    requires Legal(v) && JoinAnd(a, b).Some? && !ExprEq(a, b) && !a.Sym? && !b.Sym? && !a.Equal? && !b.Equal?
    ensures Eval(JoinAnd(a, b).value, v) == Min(Eval(a, v), Eval(b, v))
  {
    hide ExprEq;
    TristateText(Subject(a, b).value, v);
    TextsDiffer();
  }

  lemma JoinAndExact(a: Expr, b: Expr, v: Assignment)
    requires Legal(v) && JoinAnd(a, b).Some?
    ensures Eval(JoinAnd(a, b).value, v) == Min(Eval(a, v), Eval(b, v))
  {
    if ExprEq(a, b) {
      ExprEqSound(a, b, v);
    } else if a.Sym? || b.Sym? {
      JoinAndOfSymbol(a, b, v);
    } else if a.Equal? || b.Equal? {
      JoinAndOfComparisons(a, b, v);
    } else {
      JoinAndOfInequalities(a, b, v);
    }
  }

  /** A join has the value of its two operands together, in all three values. */
  lemma JoinExact(op: Op, a: Expr, b: Expr, v: Assignment)
    requires Legal(v) && Join(op, a, b).Some?
    ensures Eval(Join(op, a, b).value, v) == Apply(op, Eval(a, v), Eval(b, v))
  {
    if op.OpAnd? { JoinAndExact(a, b, v); } else { JoinOrExact(a, b, v); }
  }

  lemma JoinShape(op: Op, a: Expr, b: Expr)
    requires Join(op, a, b).Some?
    ensures var j := Join(op, a, b).value;
            && Size(j) < Size(a) + Size(b)
            && (!IsOp(op, a) ==> !IsOp(op, j))
            && (Nnf(a) ==> Nnf(j))
  {
  }

  // ---------------------------------------------------------------- expr_eliminate_dups1

  /** What one walk over the tree `e` may have done: `count` rewrites, none of which touched an
      `op` node, and the last of which left a unit behind. */
  predicate Walked(op: Op, e: Expr, r: (Expr, nat)) {
    && SameSpine(op, e, r.0)
    && Size(r.0) <= Size(e)
    && (r.1 == 0 ==> r.0 == e)
    && (r.1 > 0 ==> !UnitFree(r.0))
    && (Nnf(e) ==> Nnf(r.0))
  }

  lemma WalkedThen(op: Op, e: Expr, r: (Expr, nat), s: (Expr, nat))
    requires Walked(op, e, r) && Walked(op, r.0, s)
    ensures Walked(op, e, (s.0, r.1 + s.1))
  {
    SameSpineTrans(op, e, r.0, s.0);
  }

  lemma WalkedNowhere(op: Op, e: Expr)
    ensures Walked(op, e, (e, 0))
  {
    SameSpineRefl(op, e);
  }

  /** expr_eliminate_dups1 for the operands at `p` and `q` of one tree: all pairs of operands
      below them. */
  function Dups1(op: Op, e: Expr, p: Position, q: Position): (r: (Expr, nat))
    requires OnSpine(op, e, p) && OnSpine(op, e, q)
    ensures Walked(op, e, r)
    decreases Size(e), SpineSize(op, At(op, e, p)) + SpineSize(op, At(op, e, q)), 1
  {
    if IsOp(op, At(op, e, p)) then
      Extend(op, e, p, false);
      Extend(op, e, p, true);
      var r1 := Dups1(op, e, p + [false], q);
      StillThere(op, e, r1.0, p + [true], q);
      var r2 := Dups1(op, r1.0, p + [true], q);
      WalkedThen(op, e, r1, r2);
      (r2.0, r1.1 + r2.1)
    else if IsOp(op, At(op, e, q)) then
      Extend(op, e, q, false);
      Extend(op, e, q, true);
      var r1 := Dups1(op, e, p, q + [false]);
      StillThere(op, e, r1.0, p, q + [true]);
      var r2 := Dups1(op, r1.0, p, q + [true]);
      WalkedThen(op, e, r1, r2);
      (r2.0, r1.1 + r2.1)
    else if p == q then
      WalkedNowhere(op, e);
      (e, 0)
    else
      Distinct(op, e, p, q);
      var a := Dups1Tree(At(op, e, p));
      var e1 := Put(op, e, p, a.0);
      PutWalked(op, e, p, a);
      PutOther(op, e, p, a.0, q);
      var r2 := JoinAt(op, e1, p, q);
      WalkedThen(op, e, (e1, a.1), r2);
      (r2.0, a.1 + r2.1)
  }

  /** The call with both pointers at the root, made for AND/OR nodes only. */
  function Dups1Tree(e: Expr): (r: (Expr, nat))
    ensures IsBinary(e) ==> Walked(OpOf(e), e, r)
    ensures !IsBinary(e) ==> r == (e, 0)
    decreases Size(e), SpineSize(OpAnd, e) + SpineSize(OpAnd, e) + SpineSize(OpOr, e) + SpineSize(OpOr, e), 2
  {
    if IsBinary(e) then Dups1(OpOf(e), e, [], []) else (e, 0)
  }

  /** The last step of expr_eliminate_dups1: a join goes to `q`, a unit to `p`. */
  function JoinAt(op: Op, e: Expr, p: Position, q: Position): (r: (Expr, nat))
    requires IsLeaf(op, e, p) && IsLeaf(op, e, q) && p != q
    ensures Walked(op, e, r)
  {
    var j := Join(op, At(op, e, p), At(op, e, q));
    if j.None? then
      WalkedNowhere(op, e);
      (e, 0)
    else
      JoinWalked(op, e, p, q);
      (Put(op, Put(op, e, q, j.value), p, Unit(op)), 1)
  }

  lemma StillThere(op: Op, e: Expr, r: Expr, p: Position, q: Position)
    requires SameSpine(op, e, r) && OnSpine(op, e, p) && OnSpine(op, e, q)
    ensures OnSpine(op, r, p) && OnSpine(op, r, q)
    ensures SpineSize(op, At(op, r, p)) == SpineSize(op, At(op, e, p))
    ensures SpineSize(op, At(op, r, q)) == SpineSize(op, At(op, e, q))
    ensures IsOp(op, At(op, r, p)) == IsOp(op, At(op, e, p))
    ensures IsOp(op, At(op, r, q)) == IsOp(op, At(op, e, q))
  {
    SameSpineAt(op, e, r, p);
    SameSpineAt(op, e, r, q);
    SameSpineSize(op, At(op, e, p), At(op, r, p));
    SameSpineSize(op, At(op, e, q), At(op, r, q));
  }

  /** Two different operands of one tree lie below its root. */
  lemma Distinct(op: Op, e: Expr, p: Position, q: Position)
    requires IsLeaf(op, e, p) && IsLeaf(op, e, q) && p != q
    ensures IsOp(op, e) && p != [] && q != []
  {
  }

  /** Working inside one operand is a walk over the whole tree. */
  lemma PutWalked(op: Op, e: Expr, p: Position, r: (Expr, nat))
    requires IsLeaf(op, e, p)
    requires if IsBinary(At(op, e, p)) then Walked(OpOf(At(op, e, p)), At(op, e, p), r) else r == (At(op, e, p), 0)
    ensures !IsOp(op, r.0)
    ensures Walked(op, e, (Put(op, e, p, r.0), r.1))
    ensures IsLeaf(op, Put(op, e, p, r.0), p) && At(op, Put(op, e, p, r.0), p) == r.0
  {
    PutSame(op, e, p, r.0);
    if r.1 == 0 {
      PutBack(op, e, p);
    } else {
      PutUnit(op, e, p, r.0);
    }
    if Nnf(e) {
      PutNnf(op, e, p, r.0);
    }
  }

  lemma JoinWalked(op: Op, e: Expr, p: Position, q: Position)
    requires IsLeaf(op, e, p) && IsLeaf(op, e, q) && p != q
    requires Join(op, At(op, e, p), At(op, e, q)).Some?
    ensures var j := Join(op, At(op, e, p), At(op, e, q)).value;
            && !IsOp(op, j)
            && IsLeaf(op, Put(op, e, q, j), p)
            && Walked(op, e, (Put(op, Put(op, e, q, j), p, Unit(op)), 1))
  {
    var j := Join(op, At(op, e, p), At(op, e, q)).value;
    JoinShape(op, At(op, e, p), At(op, e, q));
    var e1 := Put(op, e, q, j);
    PutSame(op, e, q, j);
    PutOther(op, e, q, j, p);
    PutSame(op, e1, p, Unit(op));
    SameSpineTrans(op, e, e1, Put(op, e1, p, Unit(op)));
    PutUnit(op, e1, p, Unit(op));
    if Nnf(e) {
      PutNnf(op, e, p, j);
      PutNnf(op, e, q, j);
      PutNnf(op, e1, p, Unit(op));
    }
  }

  lemma JoinAtExact(op: Op, e: Expr, p: Position, q: Position, v: Assignment)
    requires Legal(v)
    requires IsLeaf(op, e, p) && IsLeaf(op, e, q) && p != q
    ensures Eval(JoinAt(op, e, p, q).0, v) == Eval(e, v)
  {
    var a, b := At(op, e, p), At(op, e, q);
    if Join(op, a, b).Some? {
      var j := Join(op, a, b).value;
      JoinWalked(op, e, p, q);
      JoinExact(op, a, b, v);
      PairValue(op, e, p, q, Unit(op), j, v);
    }
  }

  /** Overwriting two operands by two others with the same combined value changes nothing. */
  lemma PairValue(op: Op, e: Expr, p: Position, q: Position, x: Expr, y: Expr, v: Assignment)
    requires IsLeaf(op, e, p) && IsLeaf(op, e, q) && p != q && !IsOp(op, x) && !IsOp(op, y)
    requires Apply(op, Eval(x, v), Eval(y, v)) == Apply(op, Eval(At(op, e, p), v), Eval(At(op, e, q), v))
    ensures OnSpine(op, Put(op, e, q, y), p)
    ensures Eval(Put(op, Put(op, e, q, y), p, x), v) == Eval(e, v)
  {
    var c := PairContext(op, e, p, q, x, y, v);
  }

  /** Seen from two operands, the rest of the tree contributes a fixed value. */
  lemma {:induction false} PairContext(op: Op, e: Expr, p: Position, q: Position, x: Expr, y: Expr, v: Assignment)
    returns (c: Tristate)
    requires IsLeaf(op, e, p) && IsLeaf(op, e, q) && p != q && !IsOp(op, x) && !IsOp(op, y)
    ensures OnSpine(op, Put(op, e, q, y), p)
    ensures Eval(e, v) == Apply(op, Apply(op, Eval(At(op, e, p), v), Eval(At(op, e, q), v)), c)
    ensures Eval(Put(op, Put(op, e, q, y), p, x), v) == Apply(op, Apply(op, Eval(x, v), Eval(y, v)), c)
  {
    Distinct(op, e, p, q);
    PutOther(op, e, q, y, p);
    if p[0] == q[0] {
      var d := PairContext(op, Child(e, p[0]), p[1..], q[1..], x, y, v);
      c := Apply(op, d, Eval(Child(e, !p[0]), v));
      BothBelow(op, e, p, q, x, y);
      PairBelow(op, e, Put(op, Put(op, e, q, y), p, x), p[0], v,
                Apply(op, Eval(At(op, e, p), v), Eval(At(op, e, q), v)), Apply(op, Eval(x, v), Eval(y, v)), d);
    } else {
      c := PairAcross(op, e, p, q, x, y, v);
    }
  }

  lemma BothBelow(op: Op, e: Expr, p: Position, q: Position, x: Expr, y: Expr)
    requires p != [] && q != [] && p[0] == q[0] && OnSpine(op, e, q)
    requires OnSpine(op, e, p) && OnSpine(op, Put(op, Child(e, q[0]), q[1..], y), p[1..])
    ensures OnSpine(op, Put(op, e, q, y), p)
    ensures var r := Put(op, Put(op, e, q, y), p, x);
            && IsOp(op, r)
            && Child(r, p[0]) == Put(op, Put(op, Child(e, q[0]), q[1..], y), p[1..], x)
            && Child(r, !p[0]) == Child(e, !p[0])
  {
  }

  lemma PairBelow(op: Op, e: Expr, r: Expr, right: bool, v: Assignment, before: Tristate, after: Tristate, d: Tristate)
    requires IsOp(op, e) && IsOp(op, r) && Child(e, !right) == Child(r, !right)
    requires Eval(Child(e, right), v) == Apply(op, before, d)
    requires Eval(Child(r, right), v) == Apply(op, after, d)
    ensures Eval(e, v) == Apply(op, before, Apply(op, d, Eval(Child(e, !right), v)))
    ensures Eval(r, v) == Apply(op, after, Apply(op, d, Eval(Child(e, !right), v)))
  {
    EvalNode(op, e, v);
    EvalNode(op, r, v);
    AddRest(op, before, d, Eval(Child(e, !right), v));
    AddRest(op, after, d, Eval(Child(e, !right), v));
  }

  /** The two operands lie under different children of the root. */
  lemma PairAcross(op: Op, e: Expr, p: Position, q: Position, x: Expr, y: Expr, v: Assignment)
    returns (c: Tristate)
    requires OnSpine(op, e, p) && OnSpine(op, e, q) && p != [] && q != [] && p[0] != q[0]
    ensures OnSpine(op, Put(op, e, q, y), p)
    ensures Eval(e, v) == Apply(op, Apply(op, Eval(At(op, e, p), v), Eval(At(op, e, q), v)), c)
    ensures Eval(Put(op, Put(op, e, q, y), p, x), v) == Apply(op, Apply(op, Eval(x, v), Eval(y, v)), c)
  {
    var r := Put(op, Put(op, e, q, y), p, x);
    EvalNode(op, e, v);
    EvalNode(op, r, v);
    var d := Context(op, Child(e, p[0]), p[1..], v);
    var f := Context(op, Child(e, q[0]), q[1..], v);
    assert Child(r, p[0]) == Put(op, Child(e, p[0]), p[1..], x);
    assert Child(r, q[0]) == Put(op, Child(e, q[0]), q[1..], y);
    c := Apply(op, d, f);
    Interchange(op, Eval(At(op, e, p), v), d, Eval(At(op, e, q), v), f);
    Interchange(op, Eval(x, v), d, Eval(y, v), f);
  }

  lemma AddRest(op: Op, a: Tristate, d: Tristate, o: Tristate)
    ensures Apply(op, Apply(op, a, d), o) == Apply(op, a, Apply(op, d, o))
    ensures Apply(op, o, Apply(op, a, d)) == Apply(op, a, Apply(op, d, o))
  {
  }

  lemma Interchange(op: Op, a: Tristate, d: Tristate, b: Tristate, f: Tristate)
    ensures Apply(op, Apply(op, a, d), Apply(op, b, f)) == Apply(op, Apply(op, a, b), Apply(op, d, f))
    ensures Apply(op, Apply(op, b, f), Apply(op, a, d)) == Apply(op, Apply(op, a, b), Apply(op, d, f))
  {
  }

  /** expr_eliminate_dups1 preserves all three values. */
  lemma {:induction false} Dups1Exact(op: Op, e: Expr, p: Position, q: Position, v: Assignment)
    requires Legal(v) && OnSpine(op, e, p) && OnSpine(op, e, q)
    ensures Eval(Dups1(op, e, p, q).0, v) == Eval(e, v)
    decreases Size(e), SpineSize(op, At(op, e, p)) + SpineSize(op, At(op, e, q)), 1
  {
    if IsOp(op, At(op, e, p)) {
      Extend(op, e, p, false);
      Extend(op, e, p, true);
      var e1 := Dups1(op, e, p + [false], q).0;
      StillThere(op, e, e1, p + [true], q);
      Dups1Exact(op, e, p + [false], q, v);
      Dups1Exact(op, e1, p + [true], q, v);
    } else if IsOp(op, At(op, e, q)) {
      Extend(op, e, q, false);
      Extend(op, e, q, true);
      var e1 := Dups1(op, e, p, q + [false]).0;
      StillThere(op, e, e1, p, q + [true]);
      Dups1Exact(op, e, p, q + [false], v);
      Dups1Exact(op, e1, p, q + [true], v);
    } else if p != q {
      Distinct(op, e, p, q);
      var a := At(op, e, p);
      var r := Dups1Tree(a);
      Dups1TreeExact(a, v);
      PutWalked(op, e, p, r);
      PutOther(op, e, p, r.0, q);
      var c := Context(op, e, p, v);
      JoinAtExact(op, Put(op, e, p, r.0), p, q, v);
    }
  }

  lemma {:induction false} Dups1TreeExact(e: Expr, v: Assignment)
    requires Legal(v)
    ensures Eval(Dups1Tree(e).0, v) == Eval(e, v)
    decreases Size(e), SpineSize(OpAnd, e) + SpineSize(OpAnd, e) + SpineSize(OpOr, e) + SpineSize(OpOr, e), 2
  {
    if IsBinary(e) {
      Dups1Exact(OpOf(e), e, [], [], v);
    }
  }

  // ---------------------------------------------------------------- expr_eliminate_dups2

  /** The test that lets expr_eliminate_dups2 overwrite the operand `a`, a node of the other
      operator, by a constant: all operands of its negation occur in `b`.
      (FOO || BAR) && (!FOO && !BAR) ~> n, (FOO && BAR) || (!FOO || !BAR) ~> y */
  predicate Contradicted(op: Op, a: Expr, b: Expr) {
    IsBinary(a) && ExtractRest(op, Transform(Not(a)), b) == Unit(op)
  }

  /** expr_eliminate_dups2 for the nodes at `p` and `q` of one tree. Unlike in the first walk,
      a `q` that is an `op` node is also taken as a whole after its two halves were visited,
      and it may contain `p`. */
  function Dups2(op: Op, e: Expr, p: Position, q: Position): (r: (Expr, nat))
    requires OnSpine(op, e, p) && OnSpine(op, e, q)
    ensures Walked(op, e, r)
    decreases Size(e), SpineSize(op, At(op, e, p)) + SpineSize(op, At(op, e, q)), 1
  {
    if IsOp(op, At(op, e, p)) then
      Extend(op, e, p, false);
      Extend(op, e, p, true);
      var r1 := Dups2(op, e, p + [false], q);
      StillThere(op, e, r1.0, p + [true], q);
      var r2 := Dups2(op, r1.0, p + [true], q);
      WalkedThen(op, e, r1, r2);
      (r2.0, r1.1 + r2.1)
    else if p == q then
      WalkedNowhere(op, e);
      (e, 0)
    else
      var r1 := Dups2Halves(op, e, p, q);
      StillThere(op, e, r1.0, p, q);
      var r2 := Dups2Whole(op, r1.0, p, q);
      WalkedThen(op, e, r1, r2);
      (r2.0, r1.1 + r2.1)
  }

  function Dups2Halves(op: Op, e: Expr, p: Position, q: Position): (r: (Expr, nat))
    requires IsLeaf(op, e, p) && OnSpine(op, e, q)
    ensures Walked(op, e, r)
    decreases Size(e), SpineSize(op, At(op, e, p)) + SpineSize(op, At(op, e, q)), 0
  {
    if IsOp(op, At(op, e, q)) then
      Extend(op, e, q, false);
      Extend(op, e, q, true);
      var r1 := Dups2(op, e, p, q + [false]);
      StillThere(op, e, r1.0, p, q + [true]);
      var r2 := Dups2(op, r1.0, p, q + [true]);
      WalkedThen(op, e, r1, r2);
      (r2.0, r1.1 + r2.1)
    else
      WalkedNowhere(op, e);
      (e, 0)
  }

  /** The operand at `p`, after a nested call that starts over inside it, against all of `q`. */
  function Dups2Whole(op: Op, e: Expr, p: Position, q: Position): (r: (Expr, nat))
    requires IsLeaf(op, e, p) && OnSpine(op, e, q) && p != []
    ensures Walked(op, e, r)
    decreases Size(e), 0, 0
  {
    var a := Dups2Tree(At(op, e, p));
    PutWalked(op, e, p, a);
    var e1 := Put(op, e, p, a.0);
    StillThere(op, e, e1, p, q);
    var r := Contradict(op, e1, p, q);
    WalkedThen(op, e, (e1, a.1), r);
    (r.0, a.1 + r.1)
  }

  function Dups2Tree(e: Expr): (r: (Expr, nat))
    ensures IsBinary(e) ==> Walked(OpOf(e), e, r)
    ensures !IsBinary(e) ==> r == (e, 0)
    decreases Size(e), 2 * SpineSize(OpAnd, e) + 2 * SpineSize(OpOr, e), 2
  {
    if IsBinary(e) then Dups2(OpOf(e), e, [], []) else (e, 0)
  }

  function Contradict(op: Op, e: Expr, p: Position, q: Position): (r: (Expr, nat))
    requires IsLeaf(op, e, p) && OnSpine(op, e, q) && p != []
    ensures Walked(op, e, r)
  {
    if Contradicted(op, At(op, e, p), At(op, e, q)) then
      PutSame(op, e, p, Zero(op));
      PutUnit(op, e, p, Zero(op));
      ZeroKeepsNnf(op, e, p);
      (Put(op, e, p, Zero(op)), 1)
    else
      WalkedNowhere(op, e);
      (e, 0)
  }

  lemma ZeroKeepsNnf(op: Op, e: Expr, p: Position)
    requires OnSpine(op, e, p)
    ensures Nnf(e) ==> Nnf(Put(op, e, p, Zero(op)))
  {
    if Nnf(e) {
      PutNnf(op, e, p, Zero(op));
    }
  }

  /** Overwriting a contradicted operand keeps every definite value, and changes the value
      exactly when it was `m`. */
  lemma ContradictRefines(op: Op, e: Expr, p: Position, q: Position, v: Assignment)
    requires Legal(v) && IsLeaf(op, e, p) && OnSpine(op, e, q) && p != []
    ensures Refines(Eval(e, v), Eval(Contradict(op, e, p, q).0, v))
    ensures Contradicted(op, At(op, e, p), At(op, e, q)) ==>
              (Eval(Contradict(op, e, p, q).0, v) == Eval(e, v) <==> Eval(e, v) != MOD)
  {
    var a, b := At(op, e, p), At(op, e, q);
    if Contradicted(op, a, b) {
      ContradictedBounds(op, a, b, v);
      SubtreeBounds(op, e, p, v);
      SubtreeBounds(op, e, q, v);
      ContradictedValue(op, Eval(a, v), Eval(b, v), Eval(e, v));
      PutZeroValue(op, e, p, v);
      assert Contradict(op, e, p, q).0 == Put(op, e, p, Zero(op));
    } else {
      assert Contradict(op, e, p, q).0 == e;
    }
  }

  lemma PutZeroValue(op: Op, e: Expr, p: Position, v: Assignment)
    requires OnSpine(op, e, p)
    ensures Eval(Put(op, e, p, Zero(op)), v) == if op.OpAnd? then NO else YES
  {
    var c := Context(op, e, p, v);
    assert Eval(Put(op, e, p, Zero(op)), v) == Apply(op, Eval(Zero(op), v), c);
  }

  lemma ContradictedBounds(op: Op, a: Expr, b: Expr, v: Assignment)
    requires Legal(v) && Contradicted(op, a, b)
    ensures if op.OpAnd? then Eval(b, v) <= Negate(Eval(a, v)) else Negate(Eval(a, v)) <= Eval(b, v)
  {
    TransformPreserves(Not(a), v);
    ExtractAll(op, Transform(Not(a)), b, v);
  }

  /** A tree bounded by `a` and by the negation of `a` is `m`, or what the zero makes of it. */
  lemma ContradictedValue(op: Op, a: Tristate, b: Tristate, e: Tristate)
    requires Bounds(op, a, e) && Bounds(op, b, e)
    requires if op.OpAnd? then b <= Negate(a) else Negate(a) <= b
    ensures e == MOD || e == if op.OpAnd? then NO else YES
  {
  }

  /** expr_eliminate_dups2 keeps `n` and `y`. */
  lemma {:induction false} Dups2Refines(op: Op, e: Expr, p: Position, q: Position, v: Assignment)
    requires Legal(v) && OnSpine(op, e, p) && OnSpine(op, e, q)
    ensures Refines(Eval(e, v), Eval(Dups2(op, e, p, q).0, v))
    decreases Size(e), SpineSize(op, At(op, e, p)) + SpineSize(op, At(op, e, q)), 1
  {
    if IsOp(op, At(op, e, p)) {
      Extend(op, e, p, false);
      Extend(op, e, p, true);
      var e1 := Dups2(op, e, p + [false], q).0;
      StillThere(op, e, e1, p + [true], q);
      Dups2Refines(op, e, p + [false], q, v);
      Dups2Refines(op, e1, p + [true], q, v);
    } else if p != q {
      var e1 := Dups2Halves(op, e, p, q).0;
      Dups2HalvesRefines(op, e, p, q, v);
      StillThere(op, e, e1, p, q);
      Dups2WholeRefines(op, e1, p, q, v);
    }
  }

  lemma {:induction false} Dups2WholeRefines(op: Op, e: Expr, p: Position, q: Position, v: Assignment)
    requires Legal(v) && IsLeaf(op, e, p) && OnSpine(op, e, q) && p != []
    ensures Refines(Eval(e, v), Eval(Dups2Whole(op, e, p, q).0, v))
    decreases Size(e), 0, 0
  {
    var a := At(op, e, p);
    var r := Dups2Tree(a);
    PutWalked(op, e, p, r);
    var e1 := Put(op, e, p, r.0);
    StillThere(op, e, e1, p, q);
    Dups2TreeRefines(a, v);
    PutRefines(op, e, p, r.0, v);
    ContradictRefines(op, e1, p, q, v);
  }

  lemma {:induction false} Dups2HalvesRefines(op: Op, e: Expr, p: Position, q: Position, v: Assignment)
    requires Legal(v) && IsLeaf(op, e, p) && OnSpine(op, e, q)
    ensures Refines(Eval(e, v), Eval(Dups2Halves(op, e, p, q).0, v))
    decreases Size(e), SpineSize(op, At(op, e, p)) + SpineSize(op, At(op, e, q)), 0
  {
    if IsOp(op, At(op, e, q)) {
      Extend(op, e, q, false);
      Extend(op, e, q, true);
      var e1 := Dups2(op, e, p, q + [false]).0;
      StillThere(op, e, e1, p, q + [true]);
      Dups2Refines(op, e, p, q + [false], v);
      Dups2Refines(op, e1, p, q + [true], v);
    }
  }

  lemma {:induction false} Dups2TreeRefines(e: Expr, v: Assignment)
    requires Legal(v)
    ensures Refines(Eval(e, v), Eval(Dups2Tree(e).0, v))
    decreases Size(e), 2 * SpineSize(OpAnd, e) + 2 * SpineSize(OpOr, e), 2
  {
    if IsBinary(e) {
      Dups2Refines(OpOf(e), e, [], [], v);
    }
  }

  // ---------------------------------------------------------------- expr_eliminate_dups

  /** One round of the loop in expr_eliminate_dups, with the value of trans_count after it. */
  function Round(e: Expr): (r: (Expr, nat))
    ensures Size(r.0) <= Size(e)
    ensures r.1 == 0 ==> r.0 == e
    ensures r.1 > 0 ==> !UnitFree(r.0)
    ensures Nnf(e) ==> Nnf(r.0)
  {
    var r1 := Dups1Tree(e);
    var r2 := Dups2Tree(r1.0);
    (r2.0, r1.1 + r2.1)
  }

  /** The value expr_eliminate_dups arrives at. */
  function EliminateDups(e: Expr): (r: Expr)
    ensures Size(r) <= Size(e)
    decreases Size(e)
  {
    var (e1, count) := Round(e);
    if count == 0 then e
    else
      EliminateYnShape(e1);
      EliminateDups(EliminateYn(e1))
  }

  /** The loop of expr_eliminate_dups: every round with a rewrite makes the tree smaller. */
  method EliminateDupsLoop(e: Expr) returns (r: Expr)
    ensures r == EliminateDups(e)
  {
    r := e;
    while true
      invariant EliminateDups(r) == EliminateDups(e)
      decreases Size(r)
    {
      var transCount := 0;
      if IsBinary(r) {
        var r1 := Dups1(OpOf(r), r, [], []);
        var r2 := Dups2(OpOf(r), r1.0, [], []);
        transCount := r1.1 + r2.1;
        assert Round(r) == (r2.0, transCount);
        r := r2.0;
      }
      if transCount == 0 {
        break;
      }
      EliminateYnShape(r);
      r := EliminateYn(r);
    }
  }

  lemma RoundRefines(e: Expr, v: Assignment)
    requires Legal(v)
    ensures Refines(Eval(e, v), Eval(Round(e).0, v))
  {
    Dups1TreeExact(e, v);
    Dups2TreeRefines(Dups1Tree(e).0, v);
  }

  /** The simplifier keeps every definite answer: `n` stays `n` and `y` stays `y`. */
  lemma {:induction false} EliminateDupsRefines(e: Expr, v: Assignment)
    requires Legal(v)
    ensures Refines(Eval(e, v), Eval(EliminateDups(e), v))
    decreases Size(e)
  {
    var (e1, count) := Round(e);
    RoundRefines(e, v);
    if count > 0 {
      EliminateYnShape(e1);
      EliminateYnPreserves(e1, v);
      EliminateDupsRefines(EliminateYn(e1), v);
    }
  }

  lemma {:induction false} EliminateYnNnf(e: Expr)
    requires Nnf(e)
    ensures Nnf(EliminateYn(e))
  {
    if IsBinary(e) {
      EliminateYnNnf(e.l);
      EliminateYnNnf(e.r);
    }
  }

  /** Negations stay over plain symbols, and no further call finds anything to rewrite. */
  lemma {:induction false} EliminateDupsShape(e: Expr)
    ensures Nnf(e) ==> Nnf(EliminateDups(e))
    ensures Round(EliminateDups(e)) == (EliminateDups(e), 0)
    ensures EliminateDups(EliminateDups(e)) == EliminateDups(e)
    decreases Size(e)
  {
    var (e1, count) := Round(e);
    if count > 0 {
      EliminateYnShape(e1);
      if Nnf(e) {
        EliminateYnNnf(e1);
      }
      EliminateDupsShape(EliminateYn(e1));
    }
  }

  // ---------------------------------------------------------------- where `m` is lost

  /** No round of the loop replaces a contradicted operand. */
  predicate NoneContradicted(e: Expr)
    decreases Size(e)
  {
    && Dups2Tree(Dups1Tree(e).0).1 == 0
    && (Round(e).1 > 0 ==> (EliminateYnShape(Round(e).0); NoneContradicted(EliminateYn(Round(e).0))))
  }

  /** Then all three values are kept. */
  lemma {:induction false} EliminateDupsExact(e: Expr, v: Assignment)
    requires Legal(v) && NoneContradicted(e)
    ensures Eval(EliminateDups(e), v) == Eval(e, v)
    decreases Size(e)
  {
    var (e1, count) := Round(e);
    Dups1TreeExact(e, v);
    if count > 0 {
      EliminateYnShape(e1);
      EliminateYnPreserves(e1, v);
      EliminateDupsExact(EliminateYn(e1), v);
    }
  }

  /** No two operands of `e` can be joined, and none has anything to join inside. */
  ghost predicate Quiet(op: Op, e: Expr) {
    forall p, q :: IsLeaf(op, e, p) && IsLeaf(op, e, q) && p != q ==>
      Join(op, At(op, e, p), At(op, e, q)).None? && Dups1Tree(At(op, e, p)) == (At(op, e, p), 0)
  }

  lemma {:induction false} QuietStays(op: Op, e: Expr, p: Position, q: Position)
    requires OnSpine(op, e, p) && OnSpine(op, e, q) && Quiet(op, e)
    ensures Dups1(op, e, p, q) == (e, 0)
    decreases SpineSize(op, At(op, e, p)) + SpineSize(op, At(op, e, q))
  {
    if IsOp(op, At(op, e, p)) {
      Extend(op, e, p, false);
      Extend(op, e, p, true);
      QuietStays(op, e, p + [false], q);
      QuietStays(op, e, p + [true], q);
    } else if IsOp(op, At(op, e, q)) {
      Extend(op, e, q, false);
      Extend(op, e, q, true);
      QuietStays(op, e, p, q + [false]);
      QuietStays(op, e, p, q + [true]);
    } else if p != q {
      PutBack(op, e, p);
    }
  }

  /** (FOO || BAR) && !FOO && !BAR */
  function Clash(foo: Symbol, bar: Symbol): Expr {
    And(Or(Sym(foo), Sym(bar)), And(Not(Sym(foo)), Not(Sym(bar))))
  }

  lemma LeavesOfOr(foo: Symbol, bar: Symbol, p: Position)
    requires IsLeaf(OpOr, Or(Sym(foo), Sym(bar)), p)
    ensures p in {[false], [true]}
    ensures At(OpOr, Or(Sym(foo), Sym(bar)), p) == Sym(if p == [true] then bar else foo)
  {
    assert p != [] && p[1..] == [];
    assert p == [p[0]];
  }

  lemma LeavesOfClash(foo: Symbol, bar: Symbol, p: Position)
    requires IsLeaf(OpAnd, Clash(foo, bar), p)
    ensures p in {[false], [true, false], [true, true]}
    ensures At(OpAnd, Clash(foo, bar), p) ==
            if p == [false] then Or(Sym(foo), Sym(bar))
            else if p == [true, false] then Not(Sym(foo)) else Not(Sym(bar))
  {
    var e := Clash(foo, bar);
    assert p != [];
    var rest := p[1..];
    assert OnSpine(OpAnd, Child(e, p[0]), rest) && At(OpAnd, e, p) == At(OpAnd, Child(e, p[0]), rest);
    if p[0] {
      assert rest != [];
      assert OnSpine(OpAnd, Child(Child(e, true), rest[0]), rest[1..]);
      assert rest[1..] == [];
      assert p == [true, rest[0]];
    } else {
      assert rest == [];
      assert p == [false];
    }
  }

  lemma NothingJoins(foo: Symbol, bar: Symbol, a: Expr, b: Expr)
    requires foo.Config? && bar.Config? && foo != bar && a != b
    requires {a, b} <= {Or(Sym(foo), Sym(bar)), Not(Sym(foo)), Not(Sym(bar))}
    ensures JoinAnd(a, b).None?
  {
    assert a in {a, b} && b in {a, b};
    if a.Not? && b.Not? {
      AtomEq(a, b);
    }
    assert !ExprEq(a, b);
  }

  lemma ClashIsQuiet(foo: Symbol, bar: Symbol)
    requires foo.Config? && bar.Config? && foo != bar
    ensures Dups1Tree(Clash(foo, bar)) == (Clash(foo, bar), 0)
  {
    var o, e := Or(Sym(foo), Sym(bar)), Clash(foo, bar);
    forall p, q | IsLeaf(OpOr, o, p) && IsLeaf(OpOr, o, q) && p != q
      ensures Join(OpOr, At(OpOr, o, p), At(OpOr, o, q)).None? && Dups1Tree(At(OpOr, o, p)) == (At(OpOr, o, p), 0)
    {
      LeavesOfOr(foo, bar, p);
      LeavesOfOr(foo, bar, q);
    }
    QuietStays(OpOr, o, [], []);
    forall p, q | IsLeaf(OpAnd, e, p) && IsLeaf(OpAnd, e, q) && p != q
      ensures Join(OpAnd, At(OpAnd, e, p), At(OpAnd, e, q)).None?
      ensures Dups1Tree(At(OpAnd, e, p)) == (At(OpAnd, e, p), 0)
    {
      LeavesOfClash(foo, bar, p);
      LeavesOfClash(foo, bar, q);
      NothingJoins(foo, bar, At(OpAnd, e, p), At(OpAnd, e, q));
    }
    QuietStays(OpAnd, e, [], []);
  }

  /** Atoms contain nothing to walk over. */
  lemma Dups2OfOr(foo: Symbol, bar: Symbol)
    ensures Dups2Tree(Or(Sym(foo), Sym(bar))) == (Or(Sym(foo), Sym(bar)), 0)
  {
    var o := Or(Sym(foo), Sym(bar));
    forall p | IsLeaf(OpOr, o, p) ensures !IsBinary(At(OpOr, o, p)) {
      LeavesOfOr(foo, bar, p);
    }
    Dups2Atoms(OpOr, o, [], []);
  }

  lemma {:induction false} Dups2Atoms(op: Op, e: Expr, p: Position, q: Position)
    requires OnSpine(op, e, p) && OnSpine(op, e, q)
    requires forall s :: IsLeaf(op, e, s) ==> !IsBinary(At(op, e, s))
    ensures Dups2(op, e, p, q) == (e, 0)
    decreases SpineSize(op, At(op, e, p)) + SpineSize(op, At(op, e, q))
  {
    if IsOp(op, At(op, e, p)) {
      Extend(op, e, p, false);
      Extend(op, e, p, true);
      Dups2Atoms(op, e, p + [false], q);
      Dups2Atoms(op, e, p + [true], q);
    } else if p != q {
      if IsOp(op, At(op, e, q)) {
        Extend(op, e, q, false);
        Extend(op, e, q, true);
        Dups2Atoms(op, e, p, q + [false]);
        Dups2Atoms(op, e, p, q + [true]);
      }
      assert Dups2Halves(op, e, p, q) == (e, 0);
      PutBack(op, e, p);
    }
  }

  /** What the second walk does to the OR of a clash: nothing, or it makes the whole `n`. */
  lemma ClashOperand(foo: Symbol, bar: Symbol, q: Position, v: Assignment)
    requires Legal(v) && OnSpine(OpAnd, Clash(foo, bar), q)
    ensures IsLeaf(OpAnd, Clash(foo, bar), [false])
    ensures var e := Clash(foo, bar);
            var r := Dups2Whole(OpAnd, e, [false], q).0;
            && (r == e || Eval(r, v) == NO)
            && (Contradicted(OpAnd, e.l, At(OpAnd, e, q)) ==> Eval(r, v) == NO)
  {
    var e := Clash(foo, bar);
    Extend(OpAnd, e, [], false);
    assert [] + [false] == [false];
    assert At(OpAnd, e, [false]) == e.l;
    Dups2OfOr(foo, bar);
    PutBack(OpAnd, e, [false]);
    assert Dups2Whole(OpAnd, e, [false], q).0 == Contradict(OpAnd, e, [false], q).0;
    PutZeroValue(OpAnd, e, [false], v);
  }

  lemma ClashContradicted(foo: Symbol, bar: Symbol)
    requires foo.Config? && bar.Config? && foo != bar
    ensures Contradicted(OpAnd, Clash(foo, bar).l, Clash(foo, bar).r)
  {
    var na, nb := Not(Sym(foo)), Not(Sym(bar));
    assert Transform(na) == na && Transform(nb) == nb;
    assert Transform(Not(Clash(foo, bar).l)) == And(na, nb);
    AtomEq(na, na);
    AtomEq(nb, nb);
    var b1 := And(Sym(Y), nb);
    assert Extract(OpAnd, Sym(Y), nb) == (Sym(Y), nb, false);
    assert Extract(OpAnd, na, And(na, nb)) == (Sym(Y), b1, true);
    assert Extract(OpAnd, nb, Sym(Y)) == (nb, Sym(Y), false);
    assert Extract(OpAnd, nb, b1) == (Sym(Y), And(Sym(Y), Sym(Y)), true);
    assert Extract(OpAnd, And(na, nb), And(na, nb)).0 == And(Sym(Y), Sym(Y));
  }

  /** The second walk makes a clash `n`. */
  lemma ClashIsRewritten(foo: Symbol, bar: Symbol, v: Assignment)
    requires foo.Config? && bar.Config? && foo != bar && Legal(v)
    ensures Eval(Dups2Tree(Clash(foo, bar)).0, v) == NO
  {
    var e := Clash(foo, bar);
    Extend(OpAnd, e, [], false);
    Extend(OpAnd, e, [], true);
    Extend(OpAnd, e, [true], false);
    Extend(OpAnd, e, [true], true);
    assert [] + [false] == [false] && [] + [true] == [true];
    assert [true] + [false] == [true, false] && [true] + [true] == [true, true];
    ClashAgainstRight(foo, bar, v);
    var r := Dups2(OpAnd, e, [false], [true]).0;
    assert Dups2Halves(OpAnd, e, [false], []).0 == r;
    StillThere(OpAnd, e, r, [false], []);
    Dups2WholeRefines(OpAnd, r, [false], [], v);
    var r1 := Dups2(OpAnd, e, [false], []).0;
    StillThere(OpAnd, e, r1, [true], []);
    Dups2Refines(OpAnd, r1, [true], [], v);
  }

  lemma ClashAgainstRight(foo: Symbol, bar: Symbol, v: Assignment)
    requires foo.Config? && bar.Config? && foo != bar && Legal(v)
    ensures OnSpine(OpAnd, Clash(foo, bar), [false]) && OnSpine(OpAnd, Clash(foo, bar), [true])
    ensures Eval(Dups2(OpAnd, Clash(foo, bar), [false], [true]).0, v) == NO
  {
    var e := Clash(foo, bar);
    Extend(OpAnd, e, [], true);
    Extend(OpAnd, e, [true], false);
    Extend(OpAnd, e, [true], true);
    assert [] + [true] == [true] && [true] + [false] == [true, false] && [true] + [true] == [true, true];
    ClashAgainstLeaf(foo, bar, [true, false], v);
    ClashAgainstLeaf(foo, bar, [true, true], v);
    ClashOperand(foo, bar, [true], v);
    ClashContradicted(foo, bar);
    var r1 := Dups2(OpAnd, e, [false], [true, false]).0;
    StillThere(OpAnd, e, r1, [false], [true, true]);
    Dups2Refines(OpAnd, r1, [false], [true, true], v);
    var r2 := Dups2(OpAnd, r1, [false], [true, true]).0;
    assert r2 == e || Eval(r2, v) == NO;
    assert r2 == Dups2Halves(OpAnd, e, [false], [true]).0;
    StillThere(OpAnd, e, r2, [false], [true]);
    Dups2WholeRefines(OpAnd, r2, [false], [true], v);
  }

  lemma ClashAgainstLeaf(foo: Symbol, bar: Symbol, q: Position, v: Assignment)
    requires foo.Config? && bar.Config? && foo != bar && Legal(v)
    requires OnSpine(OpAnd, Clash(foo, bar), [false])
    requires IsLeaf(OpAnd, Clash(foo, bar), q) && q != [false]
    ensures var r := Dups2(OpAnd, Clash(foo, bar), [false], q).0;
            r == Clash(foo, bar) || Eval(r, v) == NO
  {
    var e := Clash(foo, bar);
    Extend(OpAnd, e, [], false);
    assert [] + [false] == [false];
    ClashOperand(foo, bar, q, v);
    assert Dups2Halves(OpAnd, e, [false], q) == (e, 0);
  }

  /** expr_eliminate_dups does not keep `m`: (FOO || BAR) && !FOO && !BAR becomes `n` for any two
      symbols, although it is `m` wherever the larger of the two is `m`. */
  lemma EliminateDupsLosesMod(foo: Symbol, bar: Symbol, v: Assignment)
    requires foo.IsTristateLike() && bar.IsTristateLike() && foo != bar && Legal(v)
    ensures Eval(EliminateDups(Clash(foo, bar)), v) == NO
    ensures Eval(EliminateDups(Clash(foo, bar)), v) == Eval(Clash(foo, bar), v)
       <==> Max(v.tri(foo), v.tri(bar)) != MOD
  {
    var e := Clash(foo, bar);
    ClashIsQuiet(foo, bar);
    ClashIsRewritten(foo, bar, v);
    var (e1, count) := Round(e);
    assert Eval(e1, v) == NO;
    if count > 0 {
      EliminateYnShape(e1);
      EliminateYnPreserves(e1, v);
      EliminateDupsRefines(EliminateYn(e1), v);
    }
    assert Eval(EliminateDups(e), v) == NO;
    ClashValue(foo, bar, v);
  }

  lemma ClashValue(foo: Symbol, bar: Symbol, v: Assignment)
    requires foo.IsTristateLike() && bar.IsTristateLike()
    ensures Eval(Clash(foo, bar), v) == NO <==> Max(v.tri(foo), v.tri(bar)) != MOD
  {
    var a, b := v.tri(foo), v.tri(bar);
    assert Eval(Sym(foo), v) == a && Eval(Sym(bar), v) == b;
    assert Eval(Not(Sym(foo)), v) == Negate(a) && Eval(Not(Sym(bar)), v) == Negate(b);
    assert Eval(Clash(foo, bar).l, v) == Max(a, b);
    assert Eval(Clash(foo, bar).r, v) == Min(Negate(a), Negate(b));
  }
}
