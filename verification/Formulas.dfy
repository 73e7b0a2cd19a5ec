/** Expressions as kconfiglib.py builds them: n-ary AND and OR over symbols and string literals,
    and what _eval_expr_2 makes of them under given symbol values. */
module Formulas {
  import opened Tristates
  import opened Expressions

  /** A symbol, by its index, or a quoted constant. */
  datatype Operand = Ref(id: nat) | Literal(text: string)

  datatype Formula =
    | Leaf(x: Operand)
    | All(terms: seq<Formula>)
    | Any(terms: seq<Formula>)
    | Neg(f: Formula)
    | Compare(equal: bool, a: Operand, b: Operand)

  /** Symbol.get_value(): "n", "m" and "y" of bool and tristate symbols are kept as truth values. */
  datatype Value = Truth(t: Tristate) | Text(s: string)

  function TruthText(t: Tristate): string {
    if t == NO then "n" else if t == MOD then "m" else "y"
  }

  function TextTruth(s: string): Tristate {
    if s == "y" then YES else if s == "m" then MOD else NO
  }

  lemma TruthTextRoundTrip(t: Tristate)
    ensures TextTruth(TruthText(t)) == t
  {
    TextsDiffer();
  }

  /** _str_val */
  function OperandText(x: Operand, v: seq<Value>): string {
    match x
    case Literal(text) => text
    case Ref(i) => if i >= |v| then "" else if v[i].Truth? then TruthText(v[i].t) else v[i].s
  }

  function OperandTruth(x: Operand, v: seq<Value>): Tristate {
    match x
    case Literal(text) => TextTruth(text)
    case Ref(i) => if i < |v| && v[i].Truth? then v[i].t else NO
  }

  /** _eval_expr_2 */
  function Holds(f: Formula, v: seq<Value>): Tristate {
    match f
    case Leaf(x) => OperandTruth(x, v)
    case All(terms) => HoldAll(terms, v)
    case Any(terms) => HoldAny(terms, v)
    case Neg(g) => Negate(Holds(g, v))
    case Compare(eq, a, b) => FromBool(eq == (OperandText(a, v) == OperandText(b, v)))
  }

  function HoldAll(terms: seq<Formula>, v: seq<Value>): Tristate {
    if terms == [] then YES else Min(Holds(terms[0], v), HoldAll(terms[1..], v))
  }

  function HoldAny(terms: seq<Formula>, v: seq<Value>): Tristate {
    if terms == [] then NO else Max(Holds(terms[0], v), HoldAny(terms[1..], v))
  }

  /** _get_expr_syms */
  function Refs(f: Formula): set<nat> {
    match f
    case Leaf(x) => OperandRefs(x)
    case All(terms) => RefsOf(terms)
    case Any(terms) => RefsOf(terms)
    case Neg(g) => Refs(g)
    case Compare(_, a, b) => OperandRefs(a) + OperandRefs(b)
  }

  function RefsOf(terms: seq<Formula>): set<nat> {
    if terms == [] then {} else Refs(terms[0]) + RefsOf(terms[1..])
  }

  function OperandRefs(x: Operand): set<nat> {
    if x.Ref? then {x.id} else {}
  }

  function OptRefs(f: Option<Formula>): set<nat> {
    if f.Some? then Refs(f.value) else {}
  }

  predicate SameOn(ids: set<nat>, v: seq<Value>, w: seq<Value>) {
    |v| == |w| && forall i :: i in ids && i < |v| ==> v[i] == w[i]
  }

  /** A formula looks at nothing but the symbols it mentions. */
  lemma {:induction false} HoldsAgrees(f: Formula, v: seq<Value>, w: seq<Value>)
    requires SameOn(Refs(f), v, w)
    ensures Holds(f, v) == Holds(f, w)
  {
    match f
    case Leaf(x) =>
    case All(terms) => TermsAgree(terms, v, w);
    case Any(terms) => TermsAgree(terms, v, w);
    case Neg(g) => HoldsAgrees(g, v, w);
    case Compare(_, a, b) =>
      assert OperandText(a, v) == OperandText(a, w);
      assert OperandText(b, v) == OperandText(b, w);
  }

  lemma {:induction false} TermsAgree(terms: seq<Formula>, v: seq<Value>, w: seq<Value>)
    requires SameOn(RefsOf(terms), v, w)
    ensures HoldAll(terms, v) == HoldAll(terms, w)
    ensures HoldAny(terms, v) == HoldAny(terms, w)
  {
    if terms != [] {
      HoldsAgrees(terms[0], v, w);
      TermsAgree(terms[1..], v, w);
    }
  }

  lemma {:induction false} TermRefs(terms: seq<Formula>, k: nat)
    requires k < |terms|
    ensures Refs(terms[k]) <= RefsOf(terms)
  {
    if k > 0 {
      TermRefs(terms[1..], k - 1);
    }
  }

  lemma {:induction false} HoldsAppend(xs: seq<Formula>, ys: seq<Formula>, v: seq<Value>)
    ensures HoldAll(xs + ys, v) == Min(HoldAll(xs, v), HoldAll(ys, v))
    ensures HoldAny(xs + ys, v) == Max(HoldAny(xs, v), HoldAny(ys, v))
  {
    if xs == [] {
      assert xs + ys == ys;
    } else {
      assert (xs + ys)[1..] == xs[1..] + ys;
      HoldsAppend(xs[1..], ys, v);
    }
  }

  // ---------------------------------------------------------------- building expressions

  const NEVER := Leaf(Literal("n"))
  const ALWAYS := Leaf(Literal("y"))

  function OptHolds(f: Option<Formula>, v: seq<Value>): Tristate {
    if f.None? then YES else Holds(f.value, v)
  }

  /** _make_and: a missing operand counts as `y`; lists of AND are merged. */
  function MakeAnd(a: Option<Formula>, b: Option<Formula>): Option<Formula> {
    if a == Some(NEVER) || b == Some(NEVER) then Some(NEVER)
    else if a.None? || a == Some(ALWAYS) then b
    else if b.None? || b == Some(ALWAYS) then a
    else if a.value.All? then Some(All(a.value.terms + if b.value.All? then b.value.terms else [b.value]))
    else if b.value.All? then Some(All(b.value.terms + [a.value]))
    else Some(All([a.value, b.value]))
  }

  /** _make_or: a missing operand makes the whole `y`; lists of OR are merged. */
  function MakeOr(a: Option<Formula>, b: Option<Formula>): Option<Formula> {
    if a.None? || b.None? || a == Some(ALWAYS) || b == Some(ALWAYS) then Some(ALWAYS)
    else if a == Some(NEVER) then b
    else if b == Some(NEVER) then a
    else if a.value.Any? then Some(Any(a.value.terms + if b.value.Any? then b.value.terms else [b.value]))
    else if b.value.Any? then Some(Any(b.value.terms + [a.value]))
    else Some(Any([a.value, b.value]))
  }

  /** An AND that is built has the value of its operands together, whatever was merged, dropped or
      moved to the end. */
  lemma MakeAndValue(a: Option<Formula>, b: Option<Formula>, v: seq<Value>)
    ensures OptHolds(MakeAnd(a, b), v) == Min(OptHolds(a, v), OptHolds(b, v))
  {
    ConstantsHold(v);
    hide Holds, HoldAll, HoldAny;
    if a.Some? && b.Some? {
      MergedHolds(a.value, b.value, v);
      MergedHolds(b.value, a.value, v);
    }
  }

  lemma MakeOrValue(a: Option<Formula>, b: Option<Formula>, v: seq<Value>)
    ensures OptHolds(MakeOr(a, b), v) == Max(OptHolds(a, v), OptHolds(b, v))
  {
    ConstantsHold(v);
    hide Holds, HoldAll, HoldAny;
    if a.Some? && b.Some? {
      MergedHolds(a.value, b.value, v);
      MergedHolds(b.value, a.value, v);
    }
  }

  lemma ConstantsHold(v: seq<Value>)
    ensures Holds(NEVER, v) == NO && Holds(ALWAYS, v) == YES
  {
    TextsDiffer();
  }

  /** The lists that _make_and and _make_or build. */
  lemma MergedHolds(f: Formula, g: Formula, v: seq<Value>)
    ensures Holds(All([f, g]), v) == Min(Holds(f, v), Holds(g, v)) && Holds(Any([f, g]), v) == Max(Holds(f, v), Holds(g, v))
    ensures f.All? ==> Holds(All(f.terms + [g]), v) == Min(Holds(f, v), Holds(g, v))
    ensures f.Any? ==> Holds(Any(f.terms + [g]), v) == Max(Holds(f, v), Holds(g, v))
    ensures f.All? && g.All? ==> Holds(All(f.terms + g.terms), v) == Min(Holds(f, v), Holds(g, v))
    ensures f.Any? && g.Any? ==> Holds(Any(f.terms + g.terms), v) == Max(Holds(f, v), Holds(g, v))
  {
    TwoHold(f, g, v);
    OneHolds(g, v);
    if f.All? || f.Any? {
      HoldsAppend(f.terms, [g], v);
      if g.All? || g.Any? {
        HoldsAppend(f.terms, g.terms, v);
      }
    }
  }

  lemma OneHolds(f: Formula, v: seq<Value>)
    ensures HoldAll([f], v) == Holds(f, v) == HoldAny([f], v)
  {
  }

  lemma TwoHold(f: Formula, g: Formula, v: seq<Value>)
    ensures HoldAll([f, g], v) == Min(Holds(f, v), Holds(g, v)) && HoldAny([f, g], v) == Max(Holds(f, v), Holds(g, v))
  {
    assert [f, g][1..] == [g];
    OneHolds(g, v);
  }

  /** Without modules `m` counts as `y` at the end of an evaluation (_eval_expr). */
  function Raise(t: Tristate, hasModules: bool): Tristate {
    if t == MOD && !hasModules then YES else t
  }

  function Condition(f: Option<Formula>, hasModules: bool, v: seq<Value>): Tristate {
    Raise(if f.None? then YES else Holds(f.value, v), hasModules)
  }

  lemma ConditionAgrees(f: Option<Formula>, hasModules: bool, v: seq<Value>, w: seq<Value>)
    requires SameOn(OptRefs(f), v, w)
    ensures Condition(f, hasModules, v) == Condition(f, hasModules, w)
  {
    if f.Some? {
      HoldsAgrees(f.value, v, w);
    }
  }
}
