/** The grammar of expressions, and that the parser of kconfiglib.py accepts exactly what it derives. */
module Grammar {
  import opened Expressions
  import opened Formulas
  import opened Parsing

  /** A name, a relation between two names, a negated factor, or an expression in parentheses. */
  ghost predicate DerivesFactor(ts: seq<Token>, f: Formula, m: Option<nat>)
    decreases |ts|, 0
  {
    || (|ts| == 1 && ts[0].Item? && f == Leaf(ts[0].x))
    || (|ts| == 3 && ts[0].Item? && IsRelation(ts[1..]) && ts[2].Item? &&
        f == Compare(ts[1].EqualSign?, Named(m, ts[0].x), Named(m, ts[2].x)))
    || (|ts| > 1 && ts[0] == NotSign && f.Neg? && DerivesFactor(ts[1..], f.f, m))
    || (|ts| > 2 && ts[0] == OpenParen && ts[|ts| - 1] == CloseParen && Derives(ts[1..|ts| - 1], f, m))
  }

  /** Terms with signs of `op` between them. */
  ghost predicate DerivesTerms(op: Op, ts: seq<Token>, fs: seq<Formula>, m: Option<nat>)
    decreases |ts|, if op.OpAnd? then 2 else 4
  {
    && fs != []
    && if |fs| == 1 then DerivesTerm(op, ts, fs[0], m)
       else exists n: nat :: SplitsAt(op, ts, n) && DerivesTerm(op, ts[..n], fs[0], m) && DerivesTerms(op, ts[n + 1..], fs[1..], m)
  }

  predicate SplitsAt(op: Op, ts: seq<Token>, n: nat) {
    n < |ts| && ts[n] == Sign(op)
  }

  /** A term of an OR is a list of factors, and a term of an AND is a factor. */
  ghost predicate DerivesTerm(op: Op, ts: seq<Token>, f: Formula, m: Option<nat>)
    decreases |ts|, if op.OpAnd? then 1 else 3
  {
    if op.OpAnd? then DerivesFactor(ts, f, m)
    else exists fs :: DerivesTerms(OpAnd, ts, fs, m) && f == Wrap(OpAnd, fs)
  }

  ghost predicate Derives(ts: seq<Token>, f: Formula, m: Option<nat>)
    decreases |ts|, 5
  {
    exists fs :: DerivesTerms(OpOr, ts, fs, m) && f == Wrap(OpOr, fs)
  }

  // ---------------------------------------------------------------- what is accepted is derived

  /** What has been read of `ts` when `rest` is left. */
  function Used(ts: seq<Token>, rest: seq<Token>): seq<Token>
    requires |rest| <= |ts|
  {
    ts[..|ts| - |rest|]
  }

  predicate Leaves(ts: seq<Token>, rest: seq<Token>) {
    |rest| < |ts| && ts == Used(ts, rest) + rest
  }

  lemma {:induction false} FactorSound(ts: seq<Token>, m: Option<nat>)
    ensures var r := Factor(ts, m);
            r.Some? ==> Leaves(ts, r.value.1) && DerivesFactor(Used(ts, r.value.1), r.value.0, m)
    decreases |ts|, 0
  {
    var r := Factor(ts, m);
    if r.Some? {
      var used := Used(ts, r.value.1);
      if ts[0].OpenParen? {
        OrSound(ts[1..], m);
        var inner := OrTerms(ts[1..], m).value;
        ParenSound(ts, inner.0, inner.1, m);
      } else if ts[0].NotSign? {
        FactorSound(ts[1..], m);
        assert used[1..] == Used(ts[1..], r.value.1);
      } else if !IsRelation(ts[1..]) {
        assert used == [ts[0]];
      } else {
        assert used == ts[..3] && used[1..][0] == ts[1];
      }
    }
  }

  lemma ParenSound(ts: seq<Token>, fs: seq<Formula>, rest: seq<Token>, m: Option<nat>)
    requires ts != [] && ts[0] == OpenParen && fs != [] && Leaves(ts[1..], rest) && StartsWith(rest, CloseParen)
    requires DerivesTerms(OpOr, Used(ts[1..], rest), fs, m)
    ensures Leaves(ts, rest[1..]) && DerivesFactor(Used(ts, rest[1..]), Wrap(OpOr, fs), m)
  {
    var used, inner := Used(ts, rest[1..]), Used(ts[1..], rest);
    ParenParts(ts, inner, rest);
    hide Used, Leaves;
    SomeTokens(OpOr, inner, fs, m);
    assert Derives(inner, Wrap(OpOr, fs), m);
    hide *;
    ParenDerives(used, inner, Wrap(OpOr, fs), m);
  }

  lemma ParenDerives(used: seq<Token>, inner: seq<Token>, f: Formula, m: Option<nat>)
    requires |used| == |inner| + 2 && inner != [] && used[0] == OpenParen && used[|used| - 1] == CloseParen && used[1..|used| - 1] == inner
    requires Derives(inner, f, m)
    ensures DerivesFactor(used, f, m)
  {
    hide Derives;
  }

  lemma UsedIs(ts: seq<Token>, used: seq<Token>, rest: seq<Token>)
    requires ts == used + rest && used != []
    ensures Leaves(ts, rest) && Used(ts, rest) == used
  {
  }

  lemma Enclosed(inner: seq<Token>)
    ensures var used := [OpenParen] + inner + [CloseParen];
            |used| == |inner| + 2 && used[0] == OpenParen && used[|used| - 1] == CloseParen && used[1..|used| - 1] == inner
  {
  }

  lemma ParenParts(ts: seq<Token>, inner: seq<Token>, rest: seq<Token>)
    requires ts != [] && ts[0] == OpenParen && Leaves(ts[1..], rest) && inner == Used(ts[1..], rest) && StartsWith(rest, CloseParen)
    ensures Leaves(ts, rest[1..])
    ensures var used := Used(ts, rest[1..]);
            |used| == |inner| + 2 && used[0] == OpenParen && used[|used| - 1] == CloseParen && used[1..|used| - 1] == inner
  {
    assert ts[1..] == inner + rest && rest != [] && rest[0] == CloseParen;
    hide *;
    var used := [OpenParen] + inner + [CloseParen];
    Enclosed(inner);
    Regrouped(ts, inner, rest);
    UsedIs(ts, used, rest[1..]);
  }

  lemma Regrouped(ts: seq<Token>, inner: seq<Token>, rest: seq<Token>)
    requires ts != [] && ts[0] == OpenParen && ts[1..] == inner + rest && rest != [] && rest[0] == CloseParen
    ensures ts == [OpenParen] + inner + [CloseParen] + rest[1..]
  {
    var open, close, r := [OpenParen], [CloseParen], rest[1..];
    assert ts == open + ts[1..] && rest == close + r;
    assert open + (inner + (close + r)) == open + inner + close + r;
  }

  lemma {:induction false} SomeTokens(op: Op, ts: seq<Token>, fs: seq<Formula>, m: Option<nat>)
    requires DerivesTerms(op, ts, fs, m)
    ensures ts != []
    decreases op.OpOr?
  {
    if |fs| == 1 && op.OpAnd? {
      assert DerivesTerm(op, ts, fs[0], m) && DerivesFactor(ts, fs[0], m);
    } else if |fs| == 1 {
      var gs :| DerivesTerms(OpAnd, ts, gs, m) && fs[0] == Wrap(OpAnd, gs);
      SomeTokens(OpAnd, ts, gs, m);
    }
  }

  lemma {:induction false} AndSound(ts: seq<Token>, m: Option<nat>)
    ensures var r := AndTerms(ts, m);
            r.Some? ==> Leaves(ts, r.value.1) && DerivesTerms(OpAnd, Used(ts, r.value.1), r.value.0, m)
    decreases |ts|, 1
  {
    var r, first := AndTerms(ts, m), Factor(ts, m);
    if r.Some? {
      FactorSound(ts, m);
      if StartsWith(first.value.1, AndSign) {
        AndSound(first.value.1[1..], m);
        MoreSound(OpAnd, ts, first.value.0, first.value.1, r.value.0[1..], r.value.1, m);
        assert r.value.0 == [first.value.0] + r.value.0[1..];
      }
    }
  }

  /** One term, a sign, and more terms. */
  lemma MoreSound(op: Op, ts: seq<Token>, f: Formula, next: seq<Token>, fs: seq<Formula>, rest: seq<Token>, m: Option<nat>)
    requires Leaves(ts, next) && StartsWith(next, Sign(op)) && Leaves(next[1..], rest)
    requires DerivesTerm(op, Used(ts, next), f, m) && DerivesTerms(op, Used(next[1..], rest), fs, m)
    ensures Leaves(ts, rest) && DerivesTerms(op, Used(ts, rest), [f] + fs, m)
  {
    MoreParts(op, ts, next, rest);
    assert ([f] + fs)[1..] == fs;
    hide *;
    MoreDerives(op, Used(ts, rest), |Used(ts, next)|, Used(ts, next), Used(next[1..], rest), f, fs, m);
  }

  lemma MoreDerives(op: Op, used: seq<Token>, n: nat, a: seq<Token>, b: seq<Token>, f: Formula, fs: seq<Formula>, m: Option<nat>)
    requires SplitsAt(op, used, n) && used[..n] == a && used[n + 1..] == b
    requires DerivesTerm(op, a, f, m) && DerivesTerms(op, b, fs, m)
    ensures DerivesTerms(op, used, [f] + fs, m)
  {
    assert fs != [] && ([f] + fs)[1..] == fs;
    hide DerivesTerm;
  }

  lemma MoreParts(op: Op, ts: seq<Token>, next: seq<Token>, rest: seq<Token>)
    requires Leaves(ts, next) && StartsWith(next, Sign(op)) && Leaves(next[1..], rest)
    ensures var a, b, used := Used(ts, next), Used(next[1..], rest), Used(ts, rest);
            Leaves(ts, rest) && SplitsAt(op, used, |a|) && used[..|a|] == a && used[|a| + 1..] == b
  {
    var a, b, sign := Used(ts, next), Used(next[1..], rest), [Sign(op)];
    assert ts == a + next && next == sign + next[1..] && next[1..] == b + rest;
    hide Used, Leaves;
    SignedParts(op, a, b);
    assert ts == a + sign + b + rest;
    UsedIs(ts, a + sign + b, rest);
  }

  lemma SignedParts(op: Op, a: seq<Token>, b: seq<Token>)
    ensures var used := a + [Sign(op)] + b; SplitsAt(op, used, |a|) && used[..|a|] == a && used[|a| + 1..] == b
  {
  }

  lemma {:induction false} OrSound(ts: seq<Token>, m: Option<nat>)
    ensures var r := OrTerms(ts, m);
            r.Some? ==> Leaves(ts, r.value.1) && DerivesTerms(OpOr, Used(ts, r.value.1), r.value.0, m)
    decreases |ts|, 2
  {
    var r, first := OrTerms(ts, m), AndTerms(ts, m);
    if r.Some? {
      AndSound(ts, m);
      assert DerivesTerm(OpOr, Used(ts, first.value.1), Wrap(OpAnd, first.value.0), m);
      if StartsWith(first.value.1, OrSign) {
        OrSound(first.value.1[1..], m);
        MoreSound(OpOr, ts, Wrap(OpAnd, first.value.0), first.value.1, r.value.0[1..], r.value.1, m);
        assert r.value.0 == [Wrap(OpAnd, first.value.0)] + r.value.0[1..];
      }
    }
  }

  // ---------------------------------------------------------------- what is derived is accepted

  /** Nothing that an expression could go on with. */
  predicate Stops(op: Op, rest: seq<Token>) {
    !IsRelation(rest) && !StartsWith(rest, AndSign) && (op.OpOr? ==> !StartsWith(rest, OrSign))
  }

  lemma {:induction false} FactorComplete(ts: seq<Token>, f: Formula, rest: seq<Token>, m: Option<nat>)
    requires DerivesFactor(ts, f, m) && !IsRelation(rest)
    ensures Factor(ts + rest, m) == Some((f, rest))
    decreases |ts|, 0
  {
    var all := ts + rest;
    if |ts| == 1 && ts[0].Item? && f == Leaf(ts[0].x) {
      assert all[1..] == rest;
    } else if |ts| == 3 && ts[0].Item? {
      assert all[1..][0] == ts[1] == ts[1..][0] && all[2] == ts[2] && all[3..] == rest;
    } else if ts[0] == NotSign {
      FactorComplete(ts[1..], f.f, rest, m);
      assert all[1..] == ts[1..] + rest;
    } else {
      var inner, close := ts[1..|ts| - 1], [CloseParen] + rest;
      var fs :| DerivesTerms(OpOr, inner, fs, m) && f == Wrap(OpOr, fs);
      TermsComplete(OpOr, inner, fs, close, m);
      assert ts == [OpenParen] + inner + [CloseParen];
      assert all[1..] == inner + close && close[1..] == rest;
    }
  }

  function Terms(op: Op, ts: seq<Token>, m: Option<nat>): Reading<seq<Formula>> {
    if op.OpAnd? then AndTerms(ts, m) else OrTerms(ts, m)
  }

  lemma {:induction false} TermsComplete(op: Op, ts: seq<Token>, fs: seq<Formula>, rest: seq<Token>, m: Option<nat>)
    requires DerivesTerms(op, ts, fs, m) && Stops(op, rest)
    ensures Terms(op, ts + rest, m) == Some((fs, rest))
    decreases |ts|, if op.OpAnd? then 2 else 4
  {
    if |fs| == 1 {
      TermComplete(op, ts, fs[0], rest, m);
      assert fs == [fs[0]];
    } else {
      var n: nat :| SplitsAt(op, ts, n) && DerivesTerm(op, ts[..n], fs[0], m) && DerivesTerms(op, ts[n + 1..], fs[1..], m);
      var more := ts[n + 1..] + rest;
      assert ts + rest == ts[..n] + ([Sign(op)] + more) && ([Sign(op)] + more)[1..] == more;
      TermsComplete(op, ts[n + 1..], fs[1..], rest, m);
      TermComplete(op, ts[..n], fs[0], [Sign(op)] + more, m);
      assert fs == [fs[0]] + fs[1..];
    }
  }

  /** The first term is read up to a sign, after which the others are read, or up to where all stops. */
  lemma {:induction false} TermComplete(op: Op, ts: seq<Token>, f: Formula, rest: seq<Token>, m: Option<nat>)
    requires DerivesTerm(op, ts, f, m) && (Stops(op, rest) || StartsWith(rest, Sign(op)))
    ensures Terms(op, ts + rest, m) == if StartsWith(rest, Sign(op)) then Joined([f], Terms(op, rest[1..], m)) else Some(([f], rest))
    decreases |ts|, if op.OpAnd? then 1 else 3
  {
    if op.OpAnd? {
      FactorComplete(ts, f, rest, m);
    } else {
      var fs :| DerivesTerms(OpAnd, ts, fs, m) && f == Wrap(OpAnd, fs);
      TermsComplete(OpAnd, ts, fs, rest, m);
    }
  }

  /** The parser accepts exactly the grammar, and reads every text in one way only. */
  lemma ParsesIffDerived(ts: seq<Token>, f: Formula, m: Option<nat>)
    ensures Parse(ts, m) == Some((f, [])) <==> Derives(ts, f, m)
  {
    if Parse(ts, m) == Some((f, [])) {
      OrSound(ts, m);
      assert Used(ts, []) == ts;
    }
    if Derives(ts, f, m) {
      var fs :| DerivesTerms(OpOr, ts, fs, m) && f == Wrap(OpOr, fs);
      var none: seq<Token> := [];
      TermsComplete(OpOr, ts, fs, none, m);
      assert ts + none == ts;
    }
  }

  /** In front of other tokens it reads what the grammar derives, and never anything else. */
  lemma ParsesAPrefix(ts: seq<Token>, m: Option<nat>)
    ensures Parse(ts, m).Some? ==> var (f, rest) := Parse(ts, m).value; Leaves(ts, rest) && Derives(Used(ts, rest), f, m)
  {
    if Parse(ts, m).Some? {
      OrSound(ts, m);
    }
  }
}
