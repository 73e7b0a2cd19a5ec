/** What expr_eliminate_dups leaves nothing of: repeated operands, and operands that the others
    contradict. And the rewritings that its comments promise. */
module Irredundant {
  import opened Expressions
  import opened Simplification
  import opened Equality
  import opened Spines
  import opened Duplicates

  // ---------------------------------------------------------------- positions

  lemma {:induction false} LeafEnds(op: Op, e: Expr, p: Position, p1: Position)
    requires IsLeaf(op, e, p) && OnSpine(op, e, p1) && p <= p1
    ensures p1 == p
  {
    if p != [] {
      assert p[1..] <= p1[1..];
      LeafEnds(op, Child(e, p[0]), p[1..], p1[1..]);
    }
  }

  lemma {:induction false} NodeGoesOn(op: Op, e: Expr, p: Position, p1: Position)
    requires OnSpine(op, e, p) && IsOp(op, At(op, e, p)) && IsLeaf(op, e, p1) && p <= p1
    ensures p + [false] <= p1 || p + [true] <= p1
  {
    if p != [] {
      assert p[1..] <= p1[1..];
      NodeGoesOn(op, Child(e, p[0]), p[1..], p1[1..]);
    }
  }

  lemma {:induction false} SomeLeaf(op: Op, e: Expr) returns (p: Position)
    ensures IsLeaf(op, e, p)
  {
    if IsOp(op, e) {
      var q := SomeLeaf(op, e.l);
      p := [false] + q;
      assert p[1..] == q;
    } else {
      p := [];
    }
  }

  // ---------------------------------------------------------------- no joins are left

  /** A walk without a rewrite has found nothing to join. */
  lemma {:induction false} NothingJoined(op: Op, e: Expr, p: Position, q: Position, p1: Position, q1: Position)
    requires OnSpine(op, e, p) && OnSpine(op, e, q) && Dups1(op, e, p, q).1 == 0
    requires IsLeaf(op, e, p1) && IsLeaf(op, e, q1) && p <= p1 && q <= q1 && p1 != q1
    ensures Join(op, At(op, e, p1), At(op, e, q1)).None? && Dups1Tree(At(op, e, p1)).1 == 0
    decreases SpineSize(op, At(op, e, p)) + SpineSize(op, At(op, e, q))
  {
    if IsOp(op, At(op, e, p)) {
      Extend(op, e, p, false);
      Extend(op, e, p, true);
      NodeGoesOn(op, e, p, p1);
      NothingJoined(op, e, if p + [false] <= p1 then p + [false] else p + [true], q, p1, q1);
    } else if IsOp(op, At(op, e, q)) {
      Extend(op, e, q, false);
      Extend(op, e, q, true);
      NodeGoesOn(op, e, q, q1);
      NothingJoined(op, e, p, if q + [false] <= q1 then q + [false] else q + [true], p1, q1);
    } else {
      LeafEnds(op, e, p, p1);
      LeafEnds(op, e, q, q1);
      PutBack(op, e, p);
    }
  }

  /** At every depth, no two operands of one operator are equal. */
  ghost predicate NoRepeats(e: Expr)
    decreases Size(e)
  {
    IsBinary(e) ==>
      && (forall p, q :: IsLeaf(OpOf(e), e, p) && IsLeaf(OpOf(e), e, q) && p != q ==>
            !ExprEq(At(OpOf(e), e, p), At(OpOf(e), e, q)))
      && (forall p :: p != [] && IsLeaf(OpOf(e), e, p) ==> NoRepeats(At(OpOf(e), e, p)))
  }

  lemma {:induction false} QuietHasNoRepeats(e: Expr)
    requires Dups1Tree(e).1 == 0
    ensures NoRepeats(e)
    decreases Size(e)
  {
    if IsBinary(e) {
      var op := OpOf(e);
      forall p, q | IsLeaf(op, e, p) && IsLeaf(op, e, q) && p != q ensures !ExprEq(At(op, e, p), At(op, e, q)) {
        NothingJoined(op, e, [], [], p, q);
      }
      forall p | p != [] && IsLeaf(op, e, p) ensures NoRepeats(At(op, e, p)) {
        var q := SomeLeaf(op, Child(e, !p[0]));
        assert ([!p[0]] + q)[1..] == q;
        NothingJoined(op, e, [], [], p, [!p[0]] + q);
        QuietHasNoRepeats(At(op, e, p));
      }
    }
  }

  /** expr_eliminate_dups leaves no operand twice. */
  lemma NoRepeatsLeft(e: Expr)
    ensures NoRepeats(EliminateDups(e))
  {
    EliminateDupsShape(e);
    QuietHasNoRepeats(EliminateDups(e));
  }

  // ---------------------------------------------------------------- no contradictions are left

  lemma {:induction false} NothingContradicted(op: Op, e: Expr, p: Position, q: Position, p1: Position, q1: Position)
    requires OnSpine(op, e, p) && OnSpine(op, e, q) && Dups2(op, e, p, q).1 == 0
    requires IsLeaf(op, e, p1) && OnSpine(op, e, q1) && p <= p1 && q <= q1 && p1 != q1
    ensures !Contradicted(op, At(op, e, p1), At(op, e, q1))
    decreases SpineSize(op, At(op, e, p)) + SpineSize(op, At(op, e, q))
  {
    if IsOp(op, At(op, e, p)) {
      Extend(op, e, p, false);
      Extend(op, e, p, true);
      NodeGoesOn(op, e, p, p1);
      NothingContradicted(op, e, if p + [false] <= p1 then p + [false] else p + [true], q, p1, q1);
    } else {
      LeafEnds(op, e, p, p1);
      if p == q {
        LeafEnds(op, e, q, q1);
        assert false;
      }
      assert p != [];
      if q1 == q {
        PutBack(op, e, p);
      } else {
        DeeperNode(op, e, q, q1);
        Extend(op, e, q, false);
        Extend(op, e, q, true);
        NothingContradicted(op, e, p, if q + [false] <= q1 then q + [false] else q + [true], p1, q1);
      }
    }
  }

  lemma {:induction false} DeeperNode(op: Op, e: Expr, q: Position, q1: Position)
    requires OnSpine(op, e, q) && OnSpine(op, e, q1) && q <= q1 && q != q1
    ensures IsOp(op, At(op, e, q)) && (q + [false] <= q1 || q + [true] <= q1)
  {
    if q != [] {
      assert q[1..] <= q1[1..];
      DeeperNode(op, Child(e, q[0]), q[1..], q1[1..]);
    }
  }

  /** On flat trees the extracting walk computes the multiset differences too. */
  lemma {:induction false} ExtractDifference(op: Op, a: Expr, b: Expr)
    requires FlatWithUnits(op, a) && FlatWithUnits(op, b)
    ensures Differences(op, a, b, Extract(op, a, b).0, Extract(op, a, b).1)
    ensures !Extract(op, a, b).2 ==> Extract(op, a, b).0 == a && Extract(op, a, b).1 == b
    decreases Size(a) + Size(b)
  {
    hide Extract, Differences, FlatWithUnits, Operands;
    if IsOp(op, a) {
      var x := Extract(op, a.l, b);
      var y := Extract(op, a.r, x.1);
      FlatHalves(op, a);
      ExtractDifference(op, a.l, b);
      DifferenceIsFlat(op, a.l, b, x.0, x.1);
      ExtractDifference(op, a.r, x.1);
      ExtractLeft(op, a, b);
      JoinDifferences(op, a, b, x.0, y.0, x.1, y.1);
    } else if IsOp(op, b) {
      var x := Extract(op, a, b.l);
      var y := Extract(op, x.0, b.r);
      FlatHalves(op, b);
      ExtractDifference(op, a, b.l);
      DifferenceIsFlat(op, a, b.l, x.0, x.1);
      ExtractDifference(op, x.0, b.r);
      ExtractRight(op, a, b);
      Swapped(op, b.l, a, x.1, x.0);
      Swapped(op, b.r, x.0, y.1, y.0);
      JoinDifferences(op, b, a, x.1, y.1, x.0, y.0);
      Swapped(op, b, a, Node(op, x.1, y.1), y.0);
    } else {
      FlatAtoms(op, a, b);
      ExtractLeaves(op, a, b);
      LeafDifferences(op, a, b);
    }
  }

  lemma FlatHalves(op: Op, a: Expr)
    requires IsOp(op, a) && FlatWithUnits(op, a)
    ensures FlatWithUnits(op, a.l) && FlatWithUnits(op, a.r) && Node(op, a.l, a.r) == a
  {
  }

  lemma DifferenceIsFlat(op: Op, a: Expr, b: Expr, a1: Expr, b1: Expr)
    requires Differences(op, a, b, a1, b1)
    ensures FlatWithUnits(op, a1) && FlatWithUnits(op, b1)
  {
  }

  lemma FlatAtoms(op: Op, a: Expr, b: Expr)
    requires !IsOp(op, a) && !IsOp(op, b) && FlatWithUnits(op, a) && FlatWithUnits(op, b)
    ensures ExprEq(a, b) <==> a == b
  {
    AtomEq(a, b);
  }

  lemma ExtractLeaves(op: Op, a: Expr, b: Expr)
    requires !IsOp(op, a) && !IsOp(op, b)
    ensures Extract(op, a, b) == if ExprEq(a, b) then (Unit(op), Unit(op), true) else (a, b, false)
  {
  }

  lemma ExtractLeft(op: Op, a: Expr, b: Expr)
    requires IsOp(op, a)
    ensures var x := Extract(op, a.l, b); var y := Extract(op, a.r, x.1);
            Extract(op, a, b) == (Node(op, x.0, y.0), y.1, x.2 || y.2)
  {
  }

  lemma ExtractRight(op: Op, a: Expr, b: Expr)
    requires !IsOp(op, a) && IsOp(op, b)
    ensures var x := Extract(op, a, b.l); var y := Extract(op, x.0, b.r);
            Extract(op, a, b) == (y.0, Node(op, x.1, y.1), x.2 || y.2)
  {
  }

  lemma Swapped(op: Op, a: Expr, b: Expr, a1: Expr, b1: Expr)
    ensures Differences(op, a, b, a1, b1) <==> Differences(op, b, a, b1, a1)
  {
  }

  /** What is left of a flat tree is a unit exactly if the other one has all its operands. */
  lemma ExtractRestIff(op: Op, a: Expr, b: Expr)
    requires Flat(op, a) && FlatWithUnits(op, b)
    ensures ExtractRest(op, a, b) == Unit(op) <==> Operands(op, a) <= Operands(op, b)
  {
    hide *;
    FlatIsFlatWithUnits(op, a);
    FlatHasOperands(op, a);
    ExtractDifference(op, a, b);
    var x := Extract(op, a, b);
    RestIs(op, a, b, x.0, x.1);
    EliminateYnFlat(op, x.0);
    var rest := EliminateYn(x.0);
    if Flat(op, rest) {
      FlatHasOperands(op, rest);
      NotUnit(op, rest);
    }
    SubsetIffNothingLeft(Operands(op, a), Operands(op, b));
    NotUnit(op, a);
    NoOperands(op);
    ExtractRestIs(op, a, b);
  }

  lemma RestIs(op: Op, a: Expr, b: Expr, a1: Expr, b1: Expr)
    requires Differences(op, a, b, a1, b1)
    ensures FlatWithUnits(op, a1) && Operands(op, a1) == Operands(op, a) - Operands(op, b)
  {
  }

  lemma ExtractRestIs(op: Op, a: Expr, b: Expr)
    ensures ExtractRest(op, a, b) == if Extract(op, a, b).2 then EliminateYn(Extract(op, a, b).0) else Extract(op, a, b).0
  {
  }

  lemma NoOperands(op: Op)
    ensures Operands(op, Unit(op)) == multiset{}
  {
  }

  lemma NotUnit(op: Op, a: Expr)
    requires Flat(op, a)
    ensures a != Unit(op)
  {
  }

  /** No operand that is a flat list of the other operator has all its negations among the others. */
  lemma NoContradictionsLeft(e: Expr, p: Position, q: Position)
    ensures var r := EliminateDups(e);
            IsBinary(r) ==>
              var op := OpOf(r);
              IsLeaf(op, r, p) && OnSpine(op, r, q) && p != q && IsBinary(At(op, r, p)) ==>
                var no := Transform(Not(At(op, r, p)));
                Flat(op, no) && Flat(op, At(op, r, q)) ==> !(Operands(op, no) <= Operands(op, At(op, r, q)))
  {
    EliminateDupsShape(e);
    var r := EliminateDups(e);
    if IsBinary(r) && IsLeaf(OpOf(r), r, p) && OnSpine(OpOf(r), r, q) && p != q && IsBinary(At(OpOf(r), r, p)) {
      var op := OpOf(r);
      assert Dups1Tree(r) == (r, 0) && Dups2Tree(r).1 == 0;
      NothingContradicted(op, r, [], [], p, q);
      var no := Transform(Not(At(op, r, p)));
      if Flat(op, no) && Flat(op, At(op, r, q)) {
        FlatIsFlatWithUnits(op, At(op, r, q));
        ExtractRestIff(op, no, At(op, r, q));
      }
    }
  }

  // ---------------------------------------------------------------- promised rewritings

  /** Two operands that are joined to one that is no AND or OR. */
  predicate Joins(op: Op, x: Expr, y: Expr, j: Expr) {
    !IsBinary(x) && !IsBinary(y) && !IsBinary(j) && Join(op, x, y) == Some(j) && Join(op, j, Unit(op)).None?
  }

  /** They are. */
  lemma PairIsJoined(op: Op, x: Expr, y: Expr, j: Expr)
    requires Joins(op, x, y, j)
    ensures EliminateDups(Node(op, x, y)) == j
  {
    hide *;
    var e, e1 := Node(op, x, y), Node(op, Unit(op), j);
    NoneBinary(op, x, y, j);
    PairTree(op, Unit(op), j);
    PairWalked(op, x, y, j);
    PairHasNoneInside(op, e1);
    UnitDropped(op, j);
    OneRound(e, e1);
  }

  lemma OneRound(e: Expr, e1: Expr)
    requires Dups1Tree(e) == (e1, 1) && Dups2Tree(e1) == (e1, 0) && !IsBinary(EliminateYn(e1))
    ensures EliminateDups(e) == EliminateYn(e1)
  {
    assert Round(e) == (e1, 1);
    EliminateYnShape(e1);
    assert Round(EliminateYn(e1)) == (EliminateYn(e1), 0);
  }

  lemma UnitDropped(op: Op, j: Expr)
    requires !IsBinary(j)
    ensures EliminateYn(Node(op, Unit(op), j)) == j
  {
  }

  lemma PairHasNoneInside(op: Op, e: Expr)
    requires IsOp(op, e) && OpOf(e) == op && IsBinary(e) && !IsBinary(e.l) && !IsBinary(e.r)
    ensures Dups2Tree(e) == (e, 0)
  {
    forall s | IsLeaf(op, e, s) ensures !IsBinary(At(op, e, s)) {
      PairLeaves(op, e, s);
    }
    Dups2Atoms(op, e, [], []);
  }

  lemma PairLeaves(op: Op, e: Expr, p: Position)
    requires IsOp(op, e) && !IsBinary(e.l) && !IsBinary(e.r) && IsLeaf(op, e, p)
    ensures p == [false] || p == [true]
    ensures At(op, e, p) == if p == [true] then e.r else e.l
  {
    assert p != [] && OnSpine(op, Child(e, p[0]), p[1..]);
    assert p[1..] == [] && p == [p[0]];
  }

  lemma PairWalked(op: Op, x: Expr, y: Expr, j: Expr)
    requires Joins(op, x, y, j)
    ensures Dups1Tree(Node(op, x, y)) == (Node(op, Unit(op), j), 1)
  {
    hide *;
    var e, e1 := Node(op, x, y), Node(op, Unit(op), j);
    NoneBinary(op, x, y, j);
    PairTree(op, x, y);
    PairTree(op, Unit(op), j);
    PairSpine(op, e);
    PairSpine(op, e1);
    var l, r: Position := [false], [true];
    assert [] + [false] == l && [] + [true] == r;
    PairStep(op, e, l, r);
    PairStep(op, e, l, l);
    PairStep(op, e1, r, l);
    PairStep(op, e1, r, r);
    PairJoined(op, x, y, j);
    AtRoot(op, e);
    AtRoot(op, e1);
    LeafIs(op, e, l);
    LeafIs(op, e1, r);
    RightHalves(op, e, l, []);
    WalkRightIs(op, e, l, [], (e, 0));
    RightHalves(op, e1, r, []);
    WalkRightIs(op, e1, r, [], (e1, 0));
    LeftHalves(op, e, [], []);
    WalkLeftIs(op, e, [], [], (e1, 1));
    TreeIs(op, e);
  }

  lemma LeafIs(op: Op, e: Expr, p: Position)
    requires IsLeaf(op, e, p)
    ensures OnSpine(op, e, p) && !IsOp(op, At(op, e, p))
  {
  }

  lemma NoneBinary(op: Op, x: Expr, y: Expr, j: Expr)
    requires Joins(op, x, y, j)
    ensures !IsBinary(x) && !IsBinary(y) && !IsBinary(j) && !IsBinary(Unit(op))
  {
  }

  lemma PairTree(op: Op, x: Expr, y: Expr)
    requires !IsBinary(x) && !IsBinary(y)
    ensures var e := Node(op, x, y); IsOp(op, e) && IsBinary(e) && OpOf(e) == op && e.l == x && e.r == y
    ensures !IsBinary(Unit(op))
  {
  }

  /** Two operands of a pair, or one with itself. */
  lemma PairStep(op: Op, e: Expr, p: Position, q: Position)
    requires IsLeaf(op, e, p) && IsLeaf(op, e, q) && !IsBinary(At(op, e, p))
    ensures Dups1(op, e, p, q) == if p == q then (e, 0) else JoinAt(op, e, p, q)
  {
    PutBack(op, e, p);
  }

  lemma PairJoined(op: Op, x: Expr, y: Expr, j: Expr)
    requires Joins(op, x, y, j)
    ensures var e, e1 := Node(op, x, y), Node(op, Unit(op), j);
            && IsLeaf(op, e, [false]) && IsLeaf(op, e, [true]) && IsLeaf(op, e1, [false]) && IsLeaf(op, e1, [true])
            && JoinAt(op, e, [false], [true]) == (e1, 1) && JoinAt(op, e1, [true], [false]) == (e1, 0)
  {
    var e, e1 := Node(op, x, y), Node(op, Unit(op), j);
    PairSpine(op, e);
    PairSpine(op, e1);
    PutPair(op, e, j);
    PutPair(op, Node(op, x, j), Unit(op));
    hide Join, IsLeaf, OnSpine, At, Put, IsBinary;
  }

  lemma PutPair(op: Op, e: Expr, x: Expr)
    requires IsOp(op, e)
    ensures OnSpine(op, e, [false]) && Put(op, e, [false], x) == Node(op, x, e.r)
    ensures OnSpine(op, e, [true]) && Put(op, e, [true], x) == Node(op, e.l, x)
  {
    assert [false][1..] == [] && [true][1..] == [];
  }

  lemma AtRoot(op: Op, e: Expr)
    ensures OnSpine(op, e, []) && At(op, e, []) == e
  {
  }

  lemma RightHalves(op: Op, e: Expr, p: Position, q: Position)
    requires OnSpine(op, e, p) && OnSpine(op, e, q) && IsOp(op, At(op, e, q))
    ensures OnSpine(op, e, q + [false]) && OnSpine(op, e, q + [true])
    ensures var r1 := Dups1(op, e, p, q + [false]); OnSpine(op, r1.0, p) && OnSpine(op, r1.0, q + [true])
  {
    Extend(op, e, q, false);
    Extend(op, e, q, true);
    hide Dups1;
    StillThere(op, e, Dups1(op, e, p, q + [false]).0, p, q + [true]);
  }

  lemma WalkRightIs(op: Op, e: Expr, p: Position, q: Position, r1: (Expr, nat))
    requires OnSpine(op, e, p) && !IsOp(op, At(op, e, p)) && OnSpine(op, e, q) && IsOp(op, At(op, e, q))
    requires OnSpine(op, e, q + [false]) && r1 == Dups1(op, e, p, q + [false]) && OnSpine(op, r1.0, p) && OnSpine(op, r1.0, q + [true])
    ensures var r2 := Dups1(op, r1.0, p, q + [true]); Dups1(op, e, p, q) == (r2.0, r1.1 + r2.1)
  {
    hide OnSpine, At, SpineSize, IsOp, Size, IsLeaf, JoinAt, Dups1Tree, Walked, SameSpine, UnitFree, Nnf;
  }

  lemma LeftHalves(op: Op, e: Expr, p: Position, q: Position)
    requires OnSpine(op, e, p) && OnSpine(op, e, q) && IsOp(op, At(op, e, p))
    ensures OnSpine(op, e, p + [false]) && OnSpine(op, e, p + [true])
    ensures var r1 := Dups1(op, e, p + [false], q); OnSpine(op, r1.0, p + [true]) && OnSpine(op, r1.0, q)
  {
    Extend(op, e, p, false);
    Extend(op, e, p, true);
    hide Dups1;
    StillThere(op, e, Dups1(op, e, p + [false], q).0, p + [true], q);
  }

  lemma WalkLeftIs(op: Op, e: Expr, p: Position, q: Position, r1: (Expr, nat))
    requires OnSpine(op, e, p) && OnSpine(op, e, q) && IsOp(op, At(op, e, p))
    requires OnSpine(op, e, p + [false]) && r1 == Dups1(op, e, p + [false], q) && OnSpine(op, r1.0, p + [true]) && OnSpine(op, r1.0, q)
    ensures var r2 := Dups1(op, r1.0, p + [true], q); Dups1(op, e, p, q) == (r2.0, r1.1 + r2.1)
  {
    hide OnSpine, At, SpineSize, IsOp, Size, IsLeaf, JoinAt, Dups1Tree, Walked, SameSpine, UnitFree, Nnf;
  }

  lemma TreeIs(op: Op, e: Expr)
    requires IsOp(op, e) && IsBinary(e) && OpOf(e) == op
    ensures OnSpine(op, e, []) && Dups1Tree(e) == Dups1(op, e, [], [])
  {
  }

  lemma PairSpine(op: Op, e: Expr)
    requires IsOp(op, e) && !IsBinary(e.l) && !IsBinary(e.r)
    ensures IsLeaf(op, e, [false]) && IsLeaf(op, e, [true])
    ensures At(op, e, [false]) == e.l && At(op, e, [true]) == e.r
  {
    assert [false][1..] == [] && [true][1..] == [];
  }

  function ThirdOf(x: Symbol, y: Symbol): Symbol {
    if x != Y && y != Y then Y else if x != M && y != M then M else N
  }

  lemma ComparisonJoins(s: Symbol, x: Symbol, y: Symbol)
    requires s.Config? && s.stype.ThreeState? && IsYmn(x) && IsYmn(y) && x != y
    ensures Joins(OpOr, Equal(s, x), Equal(s, y), Unequal(s, ThirdOf(x, y)))
    ensures Joins(OpAnd, Unequal(s, x), Unequal(s, y), Equal(s, ThirdOf(x, y)))
  {
  }

  /** (a='y') || (a='m') -> (a!='n'), and so on; (a!='y') && (a!='n') -> (a='m'), and so on. */
  lemma ComparisonsAreJoined(s: Symbol, x: Symbol, y: Symbol)
    requires s.Config? && s.stype.ThreeState? && IsYmn(x) && IsYmn(y) && x != y
    ensures EliminateDups(Or(Equal(s, x), Equal(s, y))) == Unequal(s, ThirdOf(x, y))
    ensures EliminateDups(And(Unequal(s, x), Unequal(s, y))) == Equal(s, ThirdOf(x, y))
  {
    hide *;
    ComparisonJoins(s, x, y);
    NodeIs(OpOr, Equal(s, x), Equal(s, y));
    NodeIs(OpAnd, Unequal(s, x), Unequal(s, y));
    PairIsJoined(OpOr, Equal(s, x), Equal(s, y), Unequal(s, ThirdOf(x, y)));
    PairIsJoined(OpAnd, Unequal(s, x), Unequal(s, y), Equal(s, ThirdOf(x, y)));
  }

  lemma UnequalJoins(s: Symbol, b: Symbol, c: Symbol)
    requires s.Config? && s.stype.ThreeState? && b.Constant? && c.Constant?
    ensures var j := if b == c then Sym(N) else Equal(s, b);
            Joins(OpAnd, Equal(s, b), Unequal(s, c), j) && Joins(OpAnd, Unequal(s, c), Equal(s, b), j)
  {
  }

  /** (a='b') && (a!='c') -> 'b'='c' ? 'n' : a='b' */
  lemma EqualAndUnequal(s: Symbol, b: Symbol, c: Symbol)
    requires s.Config? && s.stype.ThreeState? && b.Constant? && c.Constant?
    ensures EliminateDups(And(Equal(s, b), Unequal(s, c))) == if b == c then Sym(N) else Equal(s, b)
    ensures EliminateDups(And(Unequal(s, c), Equal(s, b))) == if b == c then Sym(N) else Equal(s, b)
  {
    hide *;
    var j := if b == c then Sym(N) else Equal(s, b);
    UnequalJoins(s, b, c);
    NodeIs(OpAnd, Equal(s, b), Unequal(s, c));
    NodeIs(OpAnd, Unequal(s, c), Equal(s, b));
    PairIsJoined(OpAnd, Equal(s, b), Unequal(s, c), j);
    PairIsJoined(OpAnd, Unequal(s, c), Equal(s, b), j);
  }

  lemma SymbolJoins(s: Symbol)
    requires s.IsTristateLike()
    ensures Joins(OpAnd, Sym(s), Equal(s, Y), Equal(s, Y)) && Joins(OpAnd, Equal(s, Y), Sym(s), Equal(s, Y))
    ensures Joins(OpAnd, Sym(s), Unequal(s, N), Sym(s)) && Joins(OpAnd, Unequal(s, N), Sym(s), Sym(s))
    ensures Joins(OpAnd, Sym(s), Unequal(s, M), Equal(s, Y)) && Joins(OpAnd, Unequal(s, M), Sym(s), Equal(s, Y))
  {
  }

  lemma NodeIs(op: Op, x: Expr, y: Expr)
    ensures Node(op, x, y) == if op.OpAnd? then And(x, y) else Or(x, y)
  {
  }

  /** (a) && (a='y') -> (a='y'), (a) && (a!='n') -> (a), (a) && (a!='m') -> (a='y') */
  lemma SymbolAndComparison(s: Symbol)
    requires s.IsTristateLike()
    ensures EliminateDups(And(Sym(s), Equal(s, Y))) == EliminateDups(And(Equal(s, Y), Sym(s))) == Equal(s, Y)
    ensures EliminateDups(And(Sym(s), Unequal(s, N))) == EliminateDups(And(Unequal(s, N), Sym(s))) == Sym(s)
    ensures EliminateDups(And(Sym(s), Unequal(s, M))) == EliminateDups(And(Unequal(s, M), Sym(s))) == Equal(s, Y)
  {
    hide *;
    SymbolJoins(s);
    NodeIs(OpAnd, Sym(s), Equal(s, Y));
    NodeIs(OpAnd, Equal(s, Y), Sym(s));
    NodeIs(OpAnd, Sym(s), Unequal(s, N));
    NodeIs(OpAnd, Unequal(s, N), Sym(s));
    NodeIs(OpAnd, Sym(s), Unequal(s, M));
    NodeIs(OpAnd, Unequal(s, M), Sym(s));
    PairIsJoined(OpAnd, Sym(s), Equal(s, Y), Equal(s, Y));
    PairIsJoined(OpAnd, Equal(s, Y), Sym(s), Equal(s, Y));
    PairIsJoined(OpAnd, Sym(s), Unequal(s, N), Sym(s));
    PairIsJoined(OpAnd, Unequal(s, N), Sym(s), Sym(s));
    PairIsJoined(OpAnd, Sym(s), Unequal(s, M), Equal(s, Y));
    PairIsJoined(OpAnd, Unequal(s, M), Sym(s), Equal(s, Y));
  }

  lemma NegationJoins(s: Symbol)
    requires s.Config? && s.stype.Boolean?
    ensures Joins(OpOr, Not(Sym(s)), Sym(s), Sym(Y)) && Joins(OpOr, Sym(s), Not(Sym(s)), Sym(Y))
  {
  }

  /** (!a) || (a) -> y for a bool symbol. */
  lemma SymbolOrNot(s: Symbol)
    requires s.Config? && s.stype.Boolean?
    ensures EliminateDups(Or(Not(Sym(s)), Sym(s))) == EliminateDups(Or(Sym(s), Not(Sym(s)))) == Sym(Y)
  {
    hide *;
    NegationJoins(s);
    NodeIs(OpOr, Not(Sym(s)), Sym(s));
    NodeIs(OpOr, Sym(s), Not(Sym(s)));
    PairIsJoined(OpOr, Not(Sym(s)), Sym(s), Sym(Y));
    PairIsJoined(OpOr, Sym(s), Not(Sym(s)), Sym(Y));
  }
}
