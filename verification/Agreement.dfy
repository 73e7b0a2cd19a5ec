/** The configurator in C and kconfiglib.py are two implementations of one language. Given the same
    declarations and the same entries they give the same values, although they turn `m` into `y`
    at different points. */
module Agreement {
  import opened Tristates
  import opened RankNumbers
  import opened Expressions
  import opened Formulas
  import C = Semantics
  import R = Ranking
  import P = Kconfiglib

  // ---------------------------------------------------------------- one Kconfig, two representations

  predicate SpecialTruth(d: P.SymDecl) {
    d.special.Some? && d.special.value.Truth?
  }

  /** The symbol that an operand stands for. The special symbols n, m and y are constants in C. */
  function SymbolOf(s: P.Setup, x: Operand): Symbol {
    match x
    case Literal(text) => Constant(text)
    case Ref(i) =>
      if i >= |s.syms| then Constant("")
      else if SpecialTruth(s.syms[i]) then Constant(TruthText(s.syms[i].special.value.t))
      else Config(i, s.syms[i].stype)
  }

  /** The binary tree of an n-ary expression, grouped from the left. */
  function ExprOf(s: P.Setup, f: Formula): Expr {
    match f
    case Leaf(x) => Sym(SymbolOf(s, x))
    case All(terms) => AllOf(s, terms)
    case Any(terms) => AnyOf(s, terms)
    case Neg(g) => Not(ExprOf(s, g))
    case Compare(eq, a, b) => if eq then Equal(SymbolOf(s, a), SymbolOf(s, b)) else Unequal(SymbolOf(s, a), SymbolOf(s, b))
  }

  function AllOf(s: P.Setup, terms: seq<Formula>): Expr {
    if terms == [] then Sym(Y)
    else if |terms| == 1 then ExprOf(s, terms[0])
    else And(AllOf(s, terms[..|terms| - 1]), ExprOf(s, terms[|terms| - 1]))
  }

  function AnyOf(s: P.Setup, terms: seq<Formula>): Expr {
    if terms == [] then Sym(N)
    else if |terms| == 1 then ExprOf(s, terms[0])
    else Or(AnyOf(s, terms[..|terms| - 1]), ExprOf(s, terms[|terms| - 1]))
  }

  function OptExprOf(s: P.Setup, f: Option<Formula>): Option<Expr> {
    if f.None? then None else Some(ExprOf(s, f.value))
  }

  function DeclOf(s: P.Setup, d: P.SymDecl): C.Decl {
    if d.special.Some? then C.Decl(d.name, Unknown, C.Plain, true, [], [], [], None, None)
    else
      C.Decl(d.name, d.stype, C.Plain, false,
             seq(|d.prompts|, k requires 0 <= k < |d.prompts| => OptExprOf(s, d.prompts[k])),
             seq(|d.defaults|, k requires 0 <= k < |d.defaults| =>
               C.Default(ExprOf(s, d.defaults[k].value), OptExprOf(s, d.defaults[k].cond))),
             [], None, Some(ExprOf(s, d.revDep)))
  }

  function TableOf(s: P.Setup): C.Table {
    seq(|s.syms|, i requires 0 <= i < |s.syms| => DeclOf(s, s.syms[i]))
  }

  function UserOf(entry: Option<string>): C.User {
    if entry.None? then C.User(false, NO, "", None) else C.User(true, TextTruth(entry.value), entry.value, None)
  }

  function UsersOf(s: P.Setup, u: P.Entries): C.Users
    requires P.KnownEntries(s, u)
  {
    seq(|s.syms|, i requires 0 <= i < |s.syms| => UserOf(u.vals[i]))
  }

  /** kconfiglib's values as an assignment to the symbols of the table. */
  function AssignmentOf(s: P.Setup, v: seq<Value>): Assignment
    requires |v| == |s.syms|
  {
    Assignment(FromBool(s.modules),
               (x: Symbol) => if x.Config? && x.id < |v| && v[x.id].Truth? then v[x.id].t else NO,
               (x: Symbol) => if x.Config? && x.id < |v| && v[x.id].Text? then v[x.id].s else "")
  }

  /** The common ground: no choices, and no numbers, whose ranges are treated differently. */
  predicate CommonSym(s: P.Setup, i: nat)
    requires i < |s.syms|
  {
    var d := s.syms[i];
    d.choice.None? && !d.stype.Int? && !d.stype.Hex? && (d.special.Some? ==> d.special.value.Truth?)
  }

  predicate Common(s: P.Setup) {
    P.Known(s) && forall i :: 0 <= i < |s.syms| ==> CommonSym(s, i)
  }

  predicate NamesTruth(s: P.Setup, f: Formula) {
    f.Leaf? && f.x.Ref? && f.x.id < |s.syms| && P.IsTri(s.syms[f.x.id].stype)
  }

  /** And no string default that names a bool or tristate symbol: its text is always `n` in C. */
  predicate Comparable(s: P.Setup) {
    && Common(s)
    && forall i, k :: 0 <= i < |s.syms| && s.syms[i].stype.Str? && 0 <= k < |s.syms[i].defaults| ==>
         !NamesTruth(s, s.syms[i].defaults[k].value)
  }

  // ---------------------------------------------------------------- expressions

  /** Without modules nothing is `m` but the special symbol. */
  predicate Settled(s: P.Setup, v: seq<Value>) {
    && |v| == |s.syms|
    && (forall i :: 0 <= i < |v| ==> (v[i].Truth? <==> P.IsTri(s.syms[i].stype)))
    && (forall i :: 0 <= i < |v| && s.syms[i].special.Some? ==> v[i] == s.syms[i].special.value)
    && (forall i :: 0 <= i < |v| && s.syms[i].special.None? && v[i].Truth? && !s.modules ==> v[i].t != MOD)
  }

  lemma OperandsAgree(s: P.Setup, v: seq<Value>, x: Operand)
    requires Common(s) && Settled(s, v)
    ensures TriOf(SymbolOf(s, x), AssignmentOf(s, v)) == OperandTruth(x, v)
    ensures StrOf(SymbolOf(s, x), AssignmentOf(s, v)) == OperandText(x, v)
  {
    TextsDiffer();
    if x.Ref? && x.id < |s.syms| {
      assert CommonSym(s, x.id);
    }
  }

  lemma {:induction false} FormulasAgree(s: P.Setup, v: seq<Value>, f: Formula)
    requires Common(s) && Settled(s, v)
    ensures Eval(ExprOf(s, f), AssignmentOf(s, v)) == Holds(f, v)
  {
    match f
    case Leaf(x) => OperandsAgree(s, v, x);
    case All(terms) => AllAgree(s, v, terms);
    case Any(terms) => AnyAgree(s, v, terms);
    case Neg(g) => FormulasAgree(s, v, g);
    case Compare(_, a, b) => OperandsAgree(s, v, a); OperandsAgree(s, v, b);
  }

  lemma {:induction false} AllAgree(s: P.Setup, v: seq<Value>, terms: seq<Formula>)
    requires Common(s) && Settled(s, v)
    ensures Eval(AllOf(s, terms), AssignmentOf(s, v)) == HoldAll(terms, v)
  {
    if |terms| > 0 {
      FormulasAgree(s, v, terms[|terms| - 1]);
      if |terms| > 1 {
        AllAgree(s, v, terms[..|terms| - 1]);
      }
      HoldAllLast(terms, v);
    }
  }

  lemma {:induction false} AnyAgree(s: P.Setup, v: seq<Value>, terms: seq<Formula>)
    requires Common(s) && Settled(s, v)
    ensures Eval(AnyOf(s, terms), AssignmentOf(s, v)) == HoldAny(terms, v)
  {
    if |terms| > 0 {
      FormulasAgree(s, v, terms[|terms| - 1]);
      if |terms| > 1 {
        AnyAgree(s, v, terms[..|terms| - 1]);
      }
      HoldAllLast(terms, v);
    }
  }

  lemma {:induction false} HoldAllLast(terms: seq<Formula>, v: seq<Value>)
    requires terms != []
    ensures HoldAll(terms, v) == Min(HoldAll(terms[..|terms| - 1], v), Holds(terms[|terms| - 1], v))
    ensures HoldAny(terms, v) == Max(HoldAny(terms[..|terms| - 1], v), Holds(terms[|terms| - 1], v))
  {
    if |terms| > 1 {
      HoldAllLast(terms[1..], v);
      assert terms[1..][..|terms| - 2] == terms[..|terms| - 1][1..];
    }
  }

  lemma OptAgree(s: P.Setup, v: seq<Value>, f: Option<Formula>)
    requires Common(s) && Settled(s, v)
    ensures Raise(EvalOpt(OptExprOf(s, f), AssignmentOf(s, v)), s.modules) == Condition(f, s.modules, v)
  {
    if f.Some? {
      FormulasAgree(s, v, f.value);
    }
  }

  // ---------------------------------------------------------------- values

  lemma {:induction false} PromptsAgree(s: P.Setup, v: seq<Value>, d: P.SymDecl, k: nat)
    requires Common(s) && Settled(s, v) && d.special.None? && k <= |d.prompts|
    ensures Raise(C.PromptValue(DeclOf(s, d).prompts, AssignmentOf(s, v), k), s.modules) == P.PromptMax(d.prompts, s.modules, v, k)
    decreases |d.prompts| - k
  {
    if k < |d.prompts| {
      OptAgree(s, v, d.prompts[k]);
      PromptsAgree(s, v, d, k + 1);
    }
  }

  lemma VisibilityAgrees(s: P.Setup, v: seq<Value>, i: nat)
    requires Common(s) && Settled(s, v) && i < |s.syms| && s.syms[i].special.None?
    ensures C.Visibility(TableOf(s)[i], AssignmentOf(s, v)) == P.Visibility(s, i, v)
  {
    assert CommonSym(s, i) && P.KnownSym(s, i);
    PromptsAgree(s, v, s.syms[i], 0);
  }

  lemma {:induction false} DefaultsAgree(s: P.Setup, v: seq<Value>, d: P.SymDecl, k: nat)
    requires Common(s) && Settled(s, v) && d.special.None? && k <= |d.defaults|
    ensures var c, p := C.FirstDefault(DeclOf(s, d).defaults, AssignmentOf(s, v), k), P.FirstDefault(d.defaults, s.modules, v, k);
            && c.Some? == p.Some?
            && (p.Some? ==> c.value.0 == ExprOf(s, p.value.0) && Raise(c.value.1, s.modules) == p.value.1)
            && (p.Some? ==> exists j :: 0 <= j < |d.defaults| && p.value.0 == d.defaults[j].value)
    decreases |d.defaults| - k
  {
    if k < |d.defaults| {
      OptAgree(s, v, d.defaults[k].cond);
      DefaultsAgree(s, v, d, k + 1);
    }
  }

  /** The value before selects. */
  lemma BaseAgrees(s: P.Setup, u: P.Entries, v: seq<Value>, i: nat)
    requires Common(s) && P.KnownEntries(s, u) && Settled(s, v) && i < |s.syms|
    requires s.syms[i].special.None? && P.IsTri(s.syms[i].stype)
    ensures var t, user, a := TableOf(s)[i], UserOf(u.vals[i]), AssignmentOf(s, v);
            var base := if C.Visibility(t, a) != NO && user.isSet then Min(user.tri, C.Visibility(t, a)) else C.DefaultTri(t, a);
            Raise(base, s.modules) == P.PlainBase(s, u, i, v).0
  {
    assert CommonSym(s, i) && P.KnownSym(s, i);
    var d := s.syms[i];
    VisibilityAgrees(s, v, i);
    DefaultsAgree(s, v, d, 0);
    var p := P.FirstDefault(d.defaults, s.modules, v, 0);
    if p.Some? {
      FormulasAgree(s, v, p.value.0);
    }
    hide Common, CommonSym, Settled, P.Known, P.KnownSym, P.Visibility, C.Visibility, P.FirstDefault, C.FirstDefault, Eval, Holds, Comparable;
  }

  lemma TruthAgrees(s: P.Setup, u: P.Entries, v: seq<Value>, i: nat)
    requires Common(s) && P.KnownEntries(s, u) && Settled(s, v) && i < |s.syms|
    requires s.syms[i].special.None? && P.IsTri(s.syms[i].stype)
    ensures Truth(C.OwnTri(TableOf(s)[i], UserOf(u.vals[i]), AssignmentOf(s, v))) == P.ValueOf(s, u, i, v).0
  {
    assert CommonSym(s, i) && P.KnownSym(s, i);
    VisibilityAgrees(s, v, i);
    BaseAgrees(s, u, v, i);
    FormulasAgree(s, v, s.syms[i].revDep);
    hide Common, CommonSym, Settled, P.Known, P.KnownSym, P.Visibility, C.Visibility, C.DefaultTri, P.PlainBase, Eval, Holds, Comparable;
  }

  lemma TextAgrees(s: P.Setup, u: P.Entries, v: seq<Value>, i: nat)
    requires Comparable(s) && P.KnownEntries(s, u) && Settled(s, v) && i < |s.syms|
    requires s.syms[i].special.None? && !P.IsTri(s.syms[i].stype)
    ensures Text(C.TextValue(TableOf(s)[i], UserOf(u.vals[i]), AssignmentOf(s, v))) == P.ValueOf(s, u, i, v).0
  {
    assert CommonSym(s, i) && P.KnownSym(s, i);
    var d := s.syms[i];
    VisibilityAgrees(s, v, i);
    DefaultsAgree(s, v, d, 0);
    var p := P.FirstDefault(d.defaults, s.modules, v, 0);
    if d.stype.Str? && p.Some? {
      var j :| 0 <= j < |d.defaults| && p.value.0 == d.defaults[j].value;
      OperandsAgree(s, v, p.value.0.x);
    }
  }

  /** Where a string default does name a bool or tristate symbol, the two agree only if that
      symbol is off. */
  lemma StringDefaultsDiffer(s: P.Setup, u: P.Entries, v: seq<Value>, i: nat)
    requires Common(s) && P.KnownEntries(s, u) && Settled(s, v) && i < |s.syms| && s.syms[i].stype.Str? && s.syms[i].special.None?
    requires P.Visibility(s, i, v) == NO || u.vals[i].None?
    requires var p := P.FirstDefault(s.syms[i].defaults, s.modules, v, 0); p.Some? && NamesTruth(s, p.value.0) && !SpecialTruth(s.syms[p.value.0.x.id])
    ensures Text(C.TextValue(TableOf(s)[i], UserOf(u.vals[i]), AssignmentOf(s, v))) == P.ValueOf(s, u, i, v).0 <==>
            v[P.FirstDefault(s.syms[i].defaults, s.modules, v, 0).value.0.x.id] == Truth(NO)
  {
    assert CommonSym(s, i) && P.KnownSym(s, i);
    VisibilityAgrees(s, v, i);
    DefaultsAgree(s, v, s.syms[i], 0);
    TextsDiffer();
  }

  // ---------------------------------------------------------------- the table is a proper one

  lemma {:induction false} SymbolsOf(s: P.Setup, f: Formula)
    ensures forall x :: x in Symbols(ExprOf(s, f)) && x.Config? ==>
              x.id in Refs(f) && x.id < |s.syms| && x.stype == s.syms[x.id].stype && !SpecialTruth(s.syms[x.id])
  {
    match f
    case All(terms) => SymbolsOfTerms(s, terms);
    case Any(terms) => SymbolsOfTerms(s, terms);
    case Neg(g) => SymbolsOf(s, g);
    case Leaf(x) =>
    case Compare(_, a, b) =>
  }

  lemma {:induction false} SymbolsOfTerms(s: P.Setup, terms: seq<Formula>)
    ensures forall x :: x in Symbols(AllOf(s, terms)) + Symbols(AnyOf(s, terms)) && x.Config? ==>
              x.id in RefsOf(terms) && x.id < |s.syms| && x.stype == s.syms[x.id].stype && !SpecialTruth(s.syms[x.id])
  {
    if terms != [] {
      SymbolsOf(s, terms[|terms| - 1]);
      TermRefs(terms, |terms| - 1);
      if |terms| > 1 {
        SymbolsOfTerms(s, terms[..|terms| - 1]);
        InitRefs(terms, |terms| - 1);
      }
    }
  }

  lemma {:induction false} InitRefs(terms: seq<Formula>, k: nat)
    requires k <= |terms|
    ensures RefsOf(terms[..k]) <= RefsOf(terms)
  {
    if k > 0 {
      assert terms[..k][1..] == terms[1..][..k - 1];
      InitRefs(terms[1..], k - 1);
    }
  }

  predicate Proper(s: P.Setup, refs: set<nat>, x: Symbol) {
    x.Config? ==> x.id in refs && x.id < |s.syms| && x.stype == s.syms[x.id].stype && !SpecialTruth(s.syms[x.id])
  }

  lemma PromptSymbolsOf(s: P.Setup, d: P.SymDecl, x: Symbol)
    requires x in C.PromptSymbols(DeclOf(s, d))
    ensures Proper(s, P.PromptRefs(d.prompts), x)
  {
    var t := DeclOf(s, d);
    var k :| 0 <= k < |t.prompts| && x in OptSymbols(t.prompts[k]);
    SymbolsOf(s, d.prompts[k].value);
    assert x.Config? ==> x.id in OptRefs(d.prompts[k]);
  }

  lemma DefaultSymbolsOf(s: P.Setup, d: P.SymDecl, x: Symbol)
    requires x in C.DefaultSymbols(DeclOf(s, d)) + C.ConditionSymbols(DeclOf(s, d))
    ensures Proper(s, P.DefaultRefs(d.defaults), x)
  {
    var t := DeclOf(s, d);
    if x in C.DefaultSymbols(t) {
      var k :| 0 <= k < |t.defaults| && x in Symbols(t.defaults[k].value);
      SymbolsOf(s, d.defaults[k].value);
      assert x.Config? ==> x.id in Refs(d.defaults[k].value) + OptRefs(d.defaults[k].cond);
    } else {
      var k :| 0 <= k < |t.defaults| && x in OptSymbols(t.defaults[k].cond);
      SymbolsOf(s, d.defaults[k].cond.value);
      assert x.Config? ==> x.id in Refs(d.defaults[k].value) + OptRefs(d.defaults[k].cond);
    }
  }

  lemma DeclSymbolsOf(s: P.Setup, i: nat, x: Symbol)
    requires i < |s.syms| && x in C.DeclSymbols(TableOf(s)[i])
    ensures Proper(s, P.Reads(s, i), x)
  {
    var d := s.syms[i];
    var t := TableOf(s)[i];
    if x in C.PromptSymbols(t) {
      PromptSymbolsOf(s, d, x);
    } else if x in C.DefaultSymbols(t) + C.ConditionSymbols(t) {
      DefaultSymbolsOf(s, d, x);
    } else {
      assert C.RangeSymbols(t) == {} && OptSymbols(t.dirDep) == {};
      SymbolsOf(s, d.revDep);
    }
  }

  lemma TableIsWellFormed(s: P.Setup, rank: Ranks)
    requires Common(s) && P.Ranked(s, rank)
    ensures C.WellFormed(TableOf(s)) && R.Ranked(TableOf(s), rank)
  {
    var t := TableOf(s);
    forall i | 0 <= i < |t| ensures C.KnownDecl(t, i) {
      assert CommonSym(s, i);
      forall x | x in C.DeclSymbols(t[i]) ensures C.KnownSymbol(t, x) {
        DeclSymbolsOf(s, i, x);
        assert x.Config? ==> CommonSym(s, x.id);
      }
    }
    forall i | 0 <= i < |t| ensures R.RankedDecl(t, rank, i) {
      assert P.RankedSym(s, rank, i);
      forall x | x in C.DeclSymbols(t[i]) && x.Config? ensures x.id < |rank| && rank[x.id] < rank[i] {
        DeclSymbolsOf(s, i, x);
      }
    }
  }

  // ---------------------------------------------------------------- the two evaluations

  lemma ValuesAreSettled(s: P.Setup, u: P.Entries, v: seq<Value>)
    requires Common(s) && P.KnownEntries(s, u) && P.Solves(s, u, v)
    ensures Settled(s, v)
  {
    forall i | 0 <= i < |v|
      ensures v[i].Truth? <==> P.IsTri(s.syms[i].stype)
      ensures s.syms[i].special.Some? ==> v[i] == s.syms[i].special.value
      ensures s.syms[i].special.None? && v[i].Truth? && !s.modules ==> v[i].t != MOD
    {
      assert CommonSym(s, i) && P.KnownSym(s, i);
      assert v[i] == P.ValueOf(s, u, i, v).0;
    }
  }

  /** What kconfiglib.py computes is a solution of the table that the C code evaluates. */
  lemma SolvesIsSolution(s: P.Setup, u: P.Entries, rank: Ranks, v: seq<Value>)
    requires Comparable(s) && P.Ranked(s, rank) && P.KnownEntries(s, u) && P.Solves(s, u, v)
    ensures C.WellFormed(TableOf(s)) && C.KnownUsers(TableOf(s), UsersOf(s, u))
    ensures forall i :: 0 <= i < |s.syms| && !SpecialTruth(s.syms[i]) ==> C.SolvedAt(TableOf(s), UsersOf(s, u), i, AssignmentOf(s, v))
  {
    TableIsWellFormed(s, rank);
    ValuesAreSettled(s, u, v);
    forall i | 0 <= i < |s.syms| && !SpecialTruth(s.syms[i]) ensures C.SolvedAt(TableOf(s), UsersOf(s, u), i, AssignmentOf(s, v)) {
      assert CommonSym(s, i);
      assert v[i] == P.ValueOf(s, u, i, v).0;
      if P.IsTri(s.syms[i].stype) {
        TruthAgrees(s, u, v, i);
      } else {
        TextAgrees(s, u, v, i);
      }
    }
  }

  /** The value of a symbol by the recursive evaluation of the C code, and by the one of
      kconfiglib.py. */
  lemma EvaluatorsAgree(s: P.Setup, u: P.Entries, rank: Ranks, i: nat)
    requires Comparable(s) && P.Ranked(s, rank) && P.KnownEntries(s, u) && i < |s.syms| && s.syms[i].special.None?
    ensures C.WellFormed(TableOf(s)) && C.KnownUsers(TableOf(s), UsersOf(s, u))
    ensures var w := R.Meaning(TableOf(s), UsersOf(s, u), rank, FromBool(s.modules));
            P.FromScratch(s, u, rank)[i] ==
            if P.IsTri(s.syms[i].stype) then Truth(w.tri(C.SymbolAt(TableOf(s), i))) else Text(w.str(C.SymbolAt(TableOf(s), i)))
  {
    var v := P.FromScratch(s, u, rank);
    P.FromScratchSolves(s, u, rank);
    TableIsWellFormed(s, rank);
    SolvesIsSolution(s, u, rank, v);
    var a := WithNames(s, AssignmentOf(s, v));
    var t, us := TableOf(s), UsersOf(s, u);
    forall j | 0 <= j < |t| ensures C.SolvedAt(t, us, j, a) {
      if !SpecialTruth(s.syms[j]) {
        assert C.SolvedAt(t, us, j, AssignmentOf(s, v));
      }
      NamesUnread(s, us, rank, j, AssignmentOf(s, v));
    }
    R.SolutionExists(t, us, rank, FromBool(s.modules));
    R.SolutionUnique(t, us, rank, a, R.Meaning(t, us, rank, FromBool(s.modules)), i);
    ValuesAreSettled(s, u, v);
  }

  /** The entries of the table that stand for the special symbols, which no expression mentions,
      have their name as text. */
  function WithNames(s: P.Setup, a: Assignment): Assignment {
    a.(str := (x: Symbol) =>
      if x.Config? && x.id < |s.syms| && SpecialTruth(s.syms[x.id]) && x.stype.Unknown? then s.syms[x.id].name else a.str(x))
  }

  lemma NamesUnread(s: P.Setup, us: C.Users, rank: Ranks, j: nat, a: Assignment)
    requires Comparable(s) && P.Ranked(s, rank) && C.WellFormed(TableOf(s)) && C.KnownUsers(TableOf(s), us) && j < |s.syms|
    requires !SpecialTruth(s.syms[j]) ==> C.SolvedAt(TableOf(s), us, j, a)
    ensures C.SolvedAt(TableOf(s), us, j, WithNames(s, a))
  {
    var t, b := TableOf(s), WithNames(s, a);
    assert CommonSym(s, j);
    if !SpecialTruth(s.syms[j]) {
      forall x | x in C.DeclSymbols(t[j]) && x.Config? ensures SameAt(x, a, b) {
        DeclSymbolsOf(s, j, x);
      }
      R.OwnTriAgrees(t[j], us[j], a, b);
      R.TextAgrees(t[j], us[j], a, b);
    }
  }
}
