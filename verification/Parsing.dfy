/** The expression parser and printer of kconfiglib.py, on tokens. */
module Parsing {
  import opened Expressions
  import opened Formulas

  datatype Token = OpenParen | CloseParen | NotSign | OrSign | AndSign | EqualSign | UnequalSign | Item(x: Operand)

  // ---------------------------------------------------------------- the grammar

  /** Expressions read one after the other, and the tokens that are left; None on an error. */
  type Reading<T> = Option<(T, seq<Token>)>

  predicate StartsWith(ts: seq<Token>, t: Token) {
    ts != [] && ts[0] == t
  }

  predicate IsRelation(ts: seq<Token>) {
    StartsWith(ts, EqualSign) || StartsWith(ts, UnequalSign)
  }

  /** A list of terms, unless there is only one. */
  function Wrap(op: Op, fs: seq<Formula>): Formula
    requires fs != []
  {
    if |fs| == 1 then fs[0] else if op.OpAnd? then All(fs) else Any(fs)
  }

  /** In a relation the special symbol m stands for its name. */
  function Named(m: Option<nat>, x: Operand): Operand {
    if x.Ref? && m == Some(x.id) then Literal("m") else x
  }

  /** _parse_factor, without the rewriting of m; `m` is the special symbol m. */
  function Factor(ts: seq<Token>, m: Option<nat>): (r: Reading<Formula>)
    ensures r.Some? ==> |r.value.1| < |ts|
    decreases |ts|, 0
  {
    if ts == [] then None
    else if ts[0].OpenParen? then
      var r := OrTerms(ts[1..], m);
      if r.Some? && StartsWith(r.value.1, CloseParen) then Some((Wrap(OpOr, r.value.0), r.value.1[1..])) else None
    else if ts[0].NotSign? then
      var r := Factor(ts[1..], m);
      if r.Some? then Some((Neg(r.value.0), r.value.1)) else None
    else if !ts[0].Item? then None
    else if !IsRelation(ts[1..]) then Some((Leaf(ts[0].x), ts[1..]))
    else if |ts| > 2 && ts[2].Item? then
      Some((Compare(ts[1].EqualSign?, Named(m, ts[0].x), Named(m, ts[2].x)), ts[3..]))
    else None
  }

  /** The factors of _parse_or_term. */
  function AndTerms(ts: seq<Token>, m: Option<nat>): (r: Reading<seq<Formula>>)
    ensures r.Some? ==> r.value.0 != [] && |r.value.1| < |ts|
    decreases |ts|, 1
  {
    var first := Factor(ts, m);
    if first.None? then None
    else if StartsWith(first.value.1, AndSign) then
      var rest := AndTerms(first.value.1[1..], m);
      if rest.None? then None else Some(([first.value.0] + rest.value.0, rest.value.1))
    else Some(([first.value.0], first.value.1))
  }

  /** The terms of _parse_expr_2. */
  function OrTerms(ts: seq<Token>, m: Option<nat>): (r: Reading<seq<Formula>>)
    ensures r.Some? ==> r.value.0 != [] && |r.value.1| < |ts|
    decreases |ts|, 2
  {
    var first := AndTerms(ts, m);
    if first.None? then None
    else
      var f := Wrap(OpAnd, first.value.0);
      if StartsWith(first.value.1, OrSign) then
        var rest := OrTerms(first.value.1[1..], m);
        if rest.None? then None else Some(([f] + rest.value.0, rest.value.1))
      else Some(([f], first.value.1))
  }

  /** _parse_expr_2 */
  function Parse(ts: seq<Token>, m: Option<nat>): Reading<Formula> {
    var r := OrTerms(ts, m);
    if r.None? then None else Some((Wrap(OpOr, r.value.0), r.value.1))
  }

  // ---------------------------------------------------------------- the parser

  function Joined(fs: seq<Formula>, r: Reading<seq<Formula>>): Reading<seq<Formula>> {
    if r.None? then None else Some((fs + r.value.0, r.value.1))
  }

  /** The outcome of reading a list of which `fs` has been read, with `rest` to come. */
  function AfterAnd(fs: seq<Formula>, rest: seq<Token>, m: Option<nat>): Reading<seq<Formula>> {
    if StartsWith(rest, AndSign) then Joined(fs, AndTerms(rest[1..], m)) else Some((fs, rest))
  }

  function AfterOr(fs: seq<Formula>, rest: seq<Token>, m: Option<nat>): Reading<seq<Formula>> {
    if StartsWith(rest, OrSign) then Joined(fs, OrTerms(rest[1..], m)) else Some((fs, rest))
  }

  lemma OneMoreAnd(fs: seq<Formula>, rest: seq<Token>, m: Option<nat>)
    ensures var next := Factor(rest, m);
            Joined(fs, AndTerms(rest, m)) == if next.None? then None else AfterAnd(fs + [next.value.0], next.value.1, m)
  {
    var next := Factor(rest, m);
    if next.Some? && StartsWith(next.value.1, AndSign) {
      var more := AndTerms(next.value.1[1..], m);
      if more.Some? {
        assert fs + ([next.value.0] + more.value.0) == fs + [next.value.0] + more.value.0;
      }
    }
  }

  lemma OneMoreOr(fs: seq<Formula>, rest: seq<Token>, m: Option<nat>)
    ensures var next := AndTerms(rest, m);
            Joined(fs, OrTerms(rest, m)) ==
            if next.None? then None else AfterOr(fs + [Wrap(OpAnd, next.value.0)], next.value.1, m)
  {
    var next := AndTerms(rest, m);
    if next.Some? && StartsWith(next.value.1, OrSign) {
      var more := OrTerms(next.value.1[1..], m);
      if more.Some? {
        assert fs + ([Wrap(OpAnd, next.value.0)] + more.value.0) == fs + [Wrap(OpAnd, next.value.0)] + more.value.0;
      }
    }
  }

  datatype Result = Parsed(f: Formula) | SyntaxError

  function ResultOf(r: Reading<Formula>): Result {
    if r.Some? then Parsed(r.value.0) else SyntaxError
  }

  /** class _Feed over tokens, with the recursive descent of class Config. */
  class Feed {
    const items: seq<Token>
    const m: Option<nat>
    var i: nat

    constructor (items: seq<Token>, m: Option<nat>)
      ensures this.items == items && this.m == m && i == 0 && Rest() == items
    {
      this.items, this.m, i := items, m, 0;
    }

    /** The tokens that have not been read. */
    function Rest(): seq<Token>
      reads this
    {
      if i <= |items| then items[i..] else []
    }

    /** check: step over the token if it is the next one. */
    method Check(t: Token) returns (found: bool)
      requires i <= |items|
      modifies this
      ensures i <= |items| && found == StartsWith(old(Rest()), t)
      ensures Rest() == if found then old(Rest())[1..] else old(Rest())
    {
      found := i < |items| && items[i] == t;
      if found {
        i := i + 1;
      }
    }

    /** _parse_expr_2 */
    method ParseExpr() returns (r: Result)
      requires i <= |items|
      modifies this
      ensures i <= |items| && r == ResultOf(Parse(old(Rest()), m))
      ensures r.Parsed? ==> Rest() == Parse(old(Rest()), m).value.1
      decreases |items| - i, 2
    {
      ghost var start := Rest();
      var first := ParseOrTerm();
      if first.SyntaxError? {
        return SyntaxError;
      }
      var terms := [first.f];
      ghost var goal := OrTerms(start, m);
      while true
        invariant i <= |items| && |Rest()| < |start| && terms != []
        invariant goal == AfterOr(terms, Rest(), m)
        decreases |Rest()|
      {
        var more := Check(OrSign);
        if !more {
          break;
        }
        OneMoreOr(terms, Rest(), m);
        var next := ParseOrTerm();
        if next.SyntaxError? {
          return SyntaxError;
        }
        terms := terms + [next.f];
      }
      r := Parsed(Wrap(OpOr, terms));
    }

    /** _parse_or_term */
    method ParseOrTerm() returns (r: Result)
      requires i <= |items|
      modifies this
      ensures i <= |items|
      ensures var p := AndTerms(old(Rest()), m);
              if p.Some? then r == Parsed(Wrap(OpAnd, p.value.0)) && Rest() == p.value.1 else r.SyntaxError?
      decreases |items| - i, 1
    {
      ghost var start := Rest();
      var first := ParseFactor();
      if first.SyntaxError? {
        return SyntaxError;
      }
      var terms := [first.f];
      ghost var goal := AndTerms(start, m);
      while true
        invariant i <= |items| && |Rest()| < |start| && terms != []
        invariant goal == AfterAnd(terms, Rest(), m)
        decreases |Rest()|
      {
        var more := Check(AndSign);
        if !more {
          break;
        }
        OneMoreAnd(terms, Rest(), m);
        var next := ParseFactor();
        if next.SyntaxError? {
          return SyntaxError;
        }
        terms := terms + [next.f];
      }
      r := Parsed(Wrap(OpAnd, terms));
    }

    /** _parse_factor */
    method ParseFactor() returns (r: Result)
      requires i <= |items|
      modifies this
      ensures i <= |items| && r == ResultOf(Factor(old(Rest()), m))
      ensures r.Parsed? ==> Rest() == Factor(old(Rest()), m).value.1
      decreases |items| - i, 0
    {
      var open := Check(OpenParen);
      if open {
        r := ParseExpr();
        if r.Parsed? {
          var close := Check(CloseParen);
          if !close {
            r := SyntaxError;
          }
        }
        return;
      }
      var not := Check(NotSign);
      if not {
        r := ParseFactor();
        if r.Parsed? {
          r := Parsed(Neg(r.f));
        }
        return;
      }
      r := ParseOperand();
    }

    /** A name, or a relation between two names. */
    method ParseOperand() returns (r: Result)
      requires i <= |items| && !StartsWith(Rest(), OpenParen) && !StartsWith(Rest(), NotSign)
      modifies this
      ensures i <= |items| && r == ResultOf(Factor(old(Rest()), m))
      ensures r.Parsed? ==> Rest() == Factor(old(Rest()), m).value.1
    {
      if i == |items| || !items[i].Item? {
        return SyntaxError;
      }
      var x := items[i].x;
      i := i + 1;
      if i == |items| || !(items[i].EqualSign? || items[i].UnequalSign?) {
        return Parsed(Leaf(x));
      }
      var equal := items[i].EqualSign?;
      i := i + 1;
      if i == |items| || !items[i].Item? {
        return SyntaxError;
      }
      var y := items[i].x;
      i := i + 1;
      r := Parsed(Compare(equal, Named(m, x), Named(m, y)));
    }
  }

  // ---------------------------------------------------------------- the printer

  function Sign(op: Op): Token {
    if op.OpAnd? then AndSign else OrSign
  }

  /** precedence[op] <= precedence[expr[0]], and no parentheses around names and relations */
  predicate NoParens(op: Op, f: Formula) {
    op.OpOr? || !f.Any?
  }

  /** _expr_to_str_rec */
  function Print(f: Formula): seq<Token>
    decreases f
  {
    match f
    case Leaf(x) => [Item(x)]
    case All(terms) => Intersperse(OpAnd, terms)
    case Any(terms) => Intersperse(OpOr, terms)
    case Neg(g) => if g.Leaf? then [NotSign] + Print(g) else [NotSign, OpenParen] + Print(g) + [CloseParen]
    case Compare(eq, a, b) => [Item(a), if eq then EqualSign else UnequalSign, Item(b)]
  }

  /** _intersperse */
  function Intersperse(op: Op, terms: seq<Formula>): seq<Token>
    decreases terms
  {
    if terms == [] then []
    else
      (if NoParens(op, terms[0]) then Print(terms[0]) else [OpenParen] + Print(terms[0]) + [CloseParen]) +
      (if |terms| == 1 then [] else [Sign(op)] + Intersperse(op, terms[1..]))
  }

  // ---------------------------------------------------------------- what comes back

  /** An expression with the terms of nested lists of the same operator moved up. */
  function Flat(f: Formula): Formula
    decreases f
  {
    match f
    case Leaf(_) => f
    case Compare(_, _, _) => f
    case Neg(g) => Neg(Flat(g))
    case All(terms) => All(FlatTerms(OpAnd, terms))
    case Any(terms) => Any(FlatTerms(OpOr, terms))
  }

  function FlatTerms(op: Op, terms: seq<Formula>): seq<Formula>
    decreases terms
  {
    if terms == [] then []
    else Spread(op, Flat(terms[0])) + FlatTerms(op, terms[1..])
  }

  /** The terms that a flattened expression contributes to a list of `op`. */
  function Spread(op: Op, f: Formula): seq<Formula> {
    if op.OpAnd? && f.All? then f.terms else if op.OpOr? && f.Any? then f.terms else [f]
  }

  /** Every AND and OR has at least two terms, and no relation names the special symbol m. */
  predicate Proper(f: Formula, m: Option<nat>) {
    match f
    case Leaf(_) => true
    case Compare(_, a, b) => Named(m, a) == a && Named(m, b) == b
    case Neg(g) => Proper(g, m)
    case All(terms) => |terms| >= 2 && forall k :: 0 <= k < |terms| ==> Proper(terms[k], m)
    case Any(terms) => |terms| >= 2 && forall k :: 0 <= k < |terms| ==> Proper(terms[k], m)
  }

  lemma {:induction false} FlatTermsMany(op: Op, terms: seq<Formula>, m: Option<nat>)
    requires forall k :: 0 <= k < |terms| ==> Proper(terms[k], m)
    ensures |FlatTerms(op, terms)| >= |terms|
    decreases terms
  {
    if terms != [] {
      SpreadSome(op, terms[0], m);
      FlatTermsMany(op, terms[1..], m);
    }
  }

  lemma SpreadSome(op: Op, f: Formula, m: Option<nat>)
    requires Proper(f, m)
    ensures |Spread(op, Flat(f))| >= 1
    ensures f.All? || f.Any? ==> |Spread(if f.All? then OpAnd else OpOr, Flat(f))| >= 2
    decreases f
  {
    match f
    case All(terms) => FlatTermsMany(OpAnd, terms, m);
    case Any(terms) => FlatTermsMany(OpOr, terms, m);
    case _ =>
  }

  // ---------------------------------------------------------------- parsing what was printed

  lemma JoinAfterAnd(xs: seq<Formula>, ys: seq<Formula>, rest: seq<Token>, m: Option<nat>)
    ensures Joined(xs, AfterAnd(ys, rest, m)) == AfterAnd(xs + ys, rest, m)
  {
    if StartsWith(rest, AndSign) {
      var more := AndTerms(rest[1..], m);
      if more.Some? {
        assert xs + (ys + more.value.0) == xs + ys + more.value.0;
      }
    }
  }

  lemma JoinAfterOr(xs: seq<Formula>, ys: seq<Formula>, rest: seq<Token>, m: Option<nat>)
    ensures Joined(xs, AfterOr(ys, rest, m)) == AfterOr(xs + ys, rest, m)
  {
    if StartsWith(rest, OrSign) {
      var more := OrTerms(rest[1..], m);
      if more.Some? {
        assert xs + (ys + more.value.0) == xs + ys + more.value.0;
      }
    }
  }

  predicate IsFactor(f: Formula) {
    f.Leaf? || f.Neg? || f.Compare?
  }

  lemma {:induction false} FactorBack(f: Formula, rest: seq<Token>, m: Option<nat>)
    requires Proper(f, m) && IsFactor(f) && !IsRelation(rest)
    ensures Factor(Print(f) + rest, m) == Some((Flat(f), rest))
    decreases f, 0
  {
    var ts := Print(f) + rest;
    match f
    case Leaf(x) =>
      assert ts[0] == Item(x) && ts[1..] == rest;
    case Compare(eq, a, b) =>
      assert ts[0] == Item(a) && ts[1..][0] == ts[1] && ts[2] == Item(b) && ts[3..] == rest;
    case Neg(g) =>
      if g.Leaf? {
        assert ts[0] == NotSign && ts[1..] == Print(g) + rest;
        FactorBack(g, rest, m);
      } else {
        assert ts[0] == NotSign && ts[1..] == [OpenParen] + Print(g) + [CloseParen] + rest;
        ParenBack(g, rest, m);
      }
  }

  lemma {:induction false} ParenBack(f: Formula, rest: seq<Token>, m: Option<nat>)
    requires Proper(f, m)
    ensures Factor([OpenParen] + Print(f) + [CloseParen] + rest, m) == Some((Flat(f), rest))
    decreases f, 3
  {
    var ts, close := [OpenParen] + Print(f) + [CloseParen] + rest, [CloseParen] + rest;
    assert ts[0] == OpenParen && ts[1..] == Print(f) + close;
    OrBack(f, close, m);
    WrapSpread(OpOr, f, m);
    assert close[1..] == rest;
  }

  /** A flattened expression is the list of what it contributes, wrapped again. */
  lemma WrapSpread(op: Op, f: Formula, m: Option<nat>)
    requires Proper(f, m)
    ensures Spread(op, Flat(f)) != [] && Wrap(op, Spread(op, Flat(f))) == Flat(f)
  {
    SpreadSome(op, f, m);
  }

  lemma {:induction false} AndBack(f: Formula, rest: seq<Token>, m: Option<nat>)
    requires Proper(f, m) && !f.Any? && !IsRelation(rest)
    ensures AndTerms(Print(f) + rest, m) == AfterAnd(Spread(OpAnd, Flat(f)), rest, m)
    decreases f, 1
  {
    if f.All? {
      AndTermsBack(f.terms, rest, m);
    } else {
      FactorBack(f, rest, m);
      SingleAnd(Print(f) + rest, Flat(f), rest, m);
    }
  }

  lemma SingleAnd(ts: seq<Token>, f: Formula, rest: seq<Token>, m: Option<nat>)
    requires Factor(ts, m) == Some((f, rest))
    ensures AndTerms(ts, m) == AfterAnd([f], rest, m)
  {
  }

  /** A term with its parentheses, if it has any. */
  function Piece(op: Op, f: Formula): seq<Token> {
    if NoParens(op, f) then Print(f) else [OpenParen] + Print(f) + [CloseParen]
  }

  lemma {:induction false} PieceBack(f: Formula, rest: seq<Token>, m: Option<nat>)
    requires Proper(f, m) && !IsRelation(rest)
    ensures AndTerms(Piece(OpAnd, f) + rest, m) == AfterAnd(Spread(OpAnd, Flat(f)), rest, m)
    decreases f, 4
  {
    if f.Any? {
      ParenBack(f, rest, m);
      SingleAnd(Piece(OpAnd, f) + rest, Flat(f), rest, m);
    } else {
      AndBack(f, rest, m);
    }
  }

  lemma IntersperseStep(op: Op, terms: seq<Formula>, rest: seq<Token>)
    requires terms != []
    ensures Intersperse(op, terms) + rest ==
            Piece(op, terms[0]) + if |terms| == 1 then rest else [Sign(op)] + (Intersperse(op, terms[1..]) + rest)
  {
    if |terms| > 1 {
      assert Piece(op, terms[0]) + ([Sign(op)] + Intersperse(op, terms[1..])) + rest
          == Piece(op, terms[0]) + ([Sign(op)] + (Intersperse(op, terms[1..]) + rest));
    }
  }

  lemma {:induction false} AndTermsBack(terms: seq<Formula>, rest: seq<Token>, m: Option<nat>)
    requires terms != [] && (forall k :: 0 <= k < |terms| ==> Proper(terms[k], m)) && !IsRelation(rest)
    ensures AndTerms(Intersperse(OpAnd, terms) + rest, m) == AfterAnd(FlatTerms(OpAnd, terms), rest, m)
    decreases terms
  {
    IntersperseStep(OpAnd, terms, rest);
    var s := Spread(OpAnd, Flat(terms[0]));
    if |terms| == 1 {
      PieceBack(terms[0], rest, m);
      assert FlatTerms(OpAnd, terms) == s + [] == s;
    } else {
      var more := Intersperse(OpAnd, terms[1..]) + rest;
      PieceBack(terms[0], [AndSign] + more, m);
      assert ([AndSign] + more)[1..] == more;
      AndTermsBack(terms[1..], rest, m);
      JoinAfterAnd(s, FlatTerms(OpAnd, terms[1..]), rest, m);
    }
  }

  lemma {:induction false} OrBack(f: Formula, rest: seq<Token>, m: Option<nat>)
    requires Proper(f, m) && !IsRelation(rest) && !StartsWith(rest, AndSign)
    ensures OrTerms(Print(f) + rest, m) == AfterOr(Spread(OpOr, Flat(f)), rest, m)
    decreases f, 2
  {
    if f.Any? {
      OrTermsBack(f.terms, rest, m);
    } else {
      AndBack(f, rest, m);
      WrapSpread(OpAnd, f, m);
      SingleOr(Print(f) + rest, Spread(OpAnd, Flat(f)), rest, m);
    }
  }

  lemma SingleOr(ts: seq<Token>, fs: seq<Formula>, rest: seq<Token>, m: Option<nat>)
    requires fs != [] && AndTerms(ts, m) == Some((fs, rest))
    ensures OrTerms(ts, m) == AfterOr([Wrap(OpAnd, fs)], rest, m)
  {
  }

  lemma {:induction false} OrTermsBack(terms: seq<Formula>, rest: seq<Token>, m: Option<nat>)
    requires terms != [] && (forall k :: 0 <= k < |terms| ==> Proper(terms[k], m))
    requires !IsRelation(rest) && !StartsWith(rest, AndSign)
    ensures OrTerms(Intersperse(OpOr, terms) + rest, m) == AfterOr(FlatTerms(OpOr, terms), rest, m)
    decreases terms
  {
    IntersperseStep(OpOr, terms, rest);
    var s := Spread(OpOr, Flat(terms[0]));
    if |terms| == 1 {
      OrBack(terms[0], rest, m);
      assert FlatTerms(OpOr, terms) == s + [] == s;
    } else {
      var more := Intersperse(OpOr, terms[1..]) + rest;
      OrBack(terms[0], [OrSign] + more, m);
      assert ([OrSign] + more)[1..] == more;
      OrTermsBack(terms[1..], rest, m);
      JoinAfterOr(s, FlatTerms(OpOr, terms[1..]), rest, m);
    }
  }

  /** Parsing what was printed gives the expression back with nested lists of the same operator
      flattened, and stops at the first token that was not printed. */
  lemma PrintParseRoundTrip(f: Formula, rest: seq<Token>, m: Option<nat>)
    requires Proper(f, m)
    requires !IsRelation(rest) && !StartsWith(rest, AndSign) && !StartsWith(rest, OrSign)
    ensures Parse(Print(f) + rest, m) == Some((Flat(f), rest))
  {
    OrBack(f, rest, m);
    WrapSpread(OpOr, f, m);
  }

  // ---------------------------------------------------------------- flattening

  /** Flattening keeps the value. */
  lemma {:induction false} FlatKeepsValue(f: Formula, v: seq<Value>)
    ensures Holds(Flat(f), v) == Holds(f, v)
    decreases f
  {
    match f
    case All(terms) => FlatTermsKeepValue(OpAnd, terms, v);
    case Any(terms) => FlatTermsKeepValue(OpOr, terms, v);
    case Neg(g) => FlatKeepsValue(g, v);
    case _ =>
  }

  lemma {:induction false} FlatTermsKeepValue(op: Op, terms: seq<Formula>, v: seq<Value>)
    ensures op.OpAnd? ==> HoldAll(FlatTerms(op, terms), v) == HoldAll(terms, v)
    ensures op.OpOr? ==> HoldAny(FlatTerms(op, terms), v) == HoldAny(terms, v)
    decreases terms
  {
    if terms != [] {
      FlatKeepsValue(terms[0], v);
      FlatTermsKeepValue(op, terms[1..], v);
      HoldsAppend(Spread(op, Flat(terms[0])), FlatTerms(op, terms[1..]), v);
      SpreadKeepsValue(op, Flat(terms[0]), v);
    }
  }

  lemma SpreadKeepsValue(op: Op, f: Formula, v: seq<Value>)
    ensures op.OpAnd? ==> HoldAll(Spread(op, f), v) == Holds(f, v)
    ensures op.OpOr? ==> HoldAny(Spread(op, f), v) == Holds(f, v)
  {
  }

  lemma IntersperseOne(op: Op, terms: seq<Formula>)
    requires |terms| == 1
    ensures Intersperse(op, terms) == Piece(op, terms[0])
  {
  }

  lemma IntersperseMany(op: Op, terms: seq<Formula>)
    requires |terms| > 1
    ensures Intersperse(op, terms) == Piece(op, terms[0]) + [Sign(op)] + Intersperse(op, terms[1..])
  {
    var p, rest := Piece(op, terms[0]), Intersperse(op, terms[1..]);
    assert p + ([Sign(op)] + rest) == p + [Sign(op)] + rest;
  }

  lemma {:induction false} IntersperseAppend(op: Op, xs: seq<Formula>, ys: seq<Formula>)
    requires xs != [] && ys != []
    ensures Intersperse(op, xs + ys) == Intersperse(op, xs) + [Sign(op)] + Intersperse(op, ys)
  {
    hide *;
    IntersperseMany(op, xs + ys);
    assert (xs + ys)[0] == xs[0];
    if |xs| > 1 {
      assert (xs + ys)[1..] == xs[1..] + ys;
      IntersperseMany(op, xs);
      IntersperseAppend(op, xs[1..], ys);
      var p, s, t, u := Piece(op, xs[0]), [Sign(op)], Intersperse(op, xs[1..]), Intersperse(op, ys);
      assert p + s + (t + s + u) == p + s + t + s + u;
    } else {
      assert (xs + ys)[1..] == ys;
      IntersperseOne(op, xs);
    }
  }

  /** A flattened expression prints the same. */
  lemma {:induction false} FlatPrintsAlike(f: Formula, m: Option<nat>)
    requires Proper(f, m)
    ensures Print(Flat(f)) == Print(f)
    decreases f
  {
    match f
    case All(terms) => FlatTermsPrintAlike(OpAnd, terms, m);
    case Any(terms) => FlatTermsPrintAlike(OpOr, terms, m);
    case Neg(g) => FlatPrintsAlike(g, m);
    case _ =>
  }

  lemma SpreadPrints(op: Op, f: Formula)
    requires Print(Flat(f)) == Print(f)
    ensures Intersperse(op, Spread(op, Flat(f))) == Piece(op, f)
  {
    var g := Flat(f);
    if Spread(op, g) == [g] {
      assert Piece(op, g) + [] == Piece(op, g);
    }
  }

  lemma {:induction false} FlatTermsPrintAlike(op: Op, terms: seq<Formula>, m: Option<nat>)
    requires forall k :: 0 <= k < |terms| ==> Proper(terms[k], m)
    ensures Intersperse(op, FlatTerms(op, terms)) == Intersperse(op, terms)
    decreases terms
  {
    if terms != [] {
      hide *;
      var s, rest := Spread(op, Flat(terms[0])), FlatTerms(op, terms[1..]);
      FlatPrintsAlike(terms[0], m);
      WrapSpread(op, terms[0], m);
      SpreadPrints(op, terms[0]);
      FlatTermsStep(op, terms);
      if |terms| == 1 {
        NoFlatTerms(op, terms[1..]);
        assert s + rest == s;
        IntersperseOne(op, terms);
      } else {
        FlatTermsMany(op, terms[1..], m);
        FlatTermsPrintAlike(op, terms[1..], m);
        IntersperseAppend(op, s, rest);
        IntersperseMany(op, terms);
      }
    } else {
      NoFlatTerms(op, terms);
    }
  }

  lemma FlatTermsStep(op: Op, terms: seq<Formula>)
    requires terms != []
    ensures FlatTerms(op, terms) == Spread(op, Flat(terms[0])) + FlatTerms(op, terms[1..])
  {
  }

  lemma NoFlatTerms(op: Op, terms: seq<Formula>)
    requires terms == []
    ensures FlatTerms(op, terms) == []
  {
  }

  /** Two expressions are printed alike exactly if they differ only in nesting. */
  lemma PrintedAlikeIffFlatAlike(f: Formula, g: Formula, m: Option<nat>)
    requires Proper(f, m) && Proper(g, m)
    ensures Print(f) == Print(g) <==> Flat(f) == Flat(g)
  {
    FlatPrintsAlike(f, m);
    FlatPrintsAlike(g, m);
    PrintParseRoundTrip(f, [], m);
    PrintParseRoundTrip(g, [], m);
  }
}
