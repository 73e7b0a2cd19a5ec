/** class Config with its symbols and choices: cached values, visibilities and selections, and the
    assignments that must keep them right. */
module KconfiglibCache {
  import opened Tristates
  import opened RankNumbers
  import opened Expressions
  import opened Formulas
  import opened Kconfiglib
  import opened Invalidation
  import opened Assignments
  import opened ModulesSymbol

  /** cached_val, write_to_conf and cached_visibility of a symbol. */
  datatype Cell = Cell(val: Option<Value>, write: bool, vis: Option<Tristate>)

  /** cached_selection and cached_visibility of a choice. Some(None) is NO_SELECTION. */
  datatype ChoiceCell = ChoiceCell(sel: Option<Option<nat>>, vis: Option<Tristate>)

  const EMPTY := Cell(None, false, None)
  const NOTHING := ChoiceCell(None, None)

  // ---------------------------------------------------------------- when a cache is right

  predicate CellOk(s: Setup, u: Entries, v: seq<Value>, i: nat, cell: Cell)
    requires Known(s) && KnownEntries(s, u) && |v| == |s.syms| && i < |s.syms|
  {
    && (cell.val.Some? ==> (cell.val.value, cell.write) == ValueOf(s, u, i, v))
    && (cell.vis.Some? ==> cell.vis.value == Visibility(s, i, v))
    && (s.syms[i].special.Some? ==> cell.val.Some?)
  }

  predicate ChoiceOk(s: Setup, u: Entries, v: seq<Value>, c: nat, cell: ChoiceCell)
    requires Known(s) && KnownEntries(s, u) && |v| == |s.syms| && c < |s.choices|
  {
    && (cell.sel.Some? ==> cell.sel.value == Selection(s, u, c, v))
    && (cell.vis.Some? ==> cell.vis.value == ChoiceVisibility(s, c, v))
  }

  predicate Coherent(s: Setup, u: Entries, v: seq<Value>, cells: seq<Cell>, choiceCells: seq<ChoiceCell>)
    requires Known(s) && KnownEntries(s, u) && |v| == |s.syms|
  {
    && |cells| == |s.syms| && |choiceCells| == |s.choices|
    && (forall i :: 0 <= i < |cells| ==> CellOk(s, u, v, i, cells[i]))
    && (forall c :: 0 <= c < |choiceCells| ==> ChoiceOk(s, u, v, c, choiceCells[c]))
  }

  /** The value and flag of a symbol, as Symbol.get_value stores them. */
  lemma StoredValue(s: Setup, u: Entries, v: seq<Value>, i: nat, cell: Cell)
    requires Known(s) && KnownEntries(s, u) && Solves(s, u, v) && i < |s.syms| && CellOk(s, u, v, i, cell) && cell.val.Some?
    ensures cell.val.value == v[i]
  {
  }

  // ---------------------------------------------------------------- changing entries

  /** A change of entries at `i`, and at the choice of `i`. */
  ghost predicate ChangedAt(s: Setup, u: Entries, u1: Entries, i: nat)
    requires Known(s) && KnownEntries(s, u) && KnownEntries(s, u1) && i < |s.syms|
  {
    && (forall j :: 0 <= j < |s.syms| && j != i ==> u.vals[j] == u1.vals[j])
    && (forall c :: 0 <= c < |s.choices| && s.syms[i].choice != Some(c) ==> SameChoiceEntry(u, u1, c))
  }

  lemma ChangedInside(s: Setup, u: Entries, u1: Entries, i: nat, xs: set<nat>)
    requires Known(s) && KnownEntries(s, u) && KnownEntries(s, u1) && i < |s.syms|
    requires ChangedAt(s, u, u1, i) && i in xs
    ensures DifferOnlyIn(s, u, u1, xs)
  {
    assert KnownSym(s, i);
  }

  predicate BlankCell(d: SymDecl, cell: Cell) {
    if d.special.None? then cell == EMPTY
    else cell.val == d.special && !cell.write && (cell.vis.Some? ==> cell.vis.value == NO)
  }

  predicate Blank(s: Setup, cells: seq<Cell>, choiceCells: seq<ChoiceCell>) {
    && |cells| == |s.syms| && |choiceCells| == |s.choices|
    && (forall i :: 0 <= i < |cells| ==> BlankCell(s.syms[i], cells[i]))
    && (forall c :: 0 <= c < |choiceCells| ==> choiceCells[c] == NOTHING)
  }

  /** Empty caches are right whatever the entries are. */
  lemma BlankIsCoherent(s: Setup, u: Entries, v: seq<Value>, cells: seq<Cell>, choiceCells: seq<ChoiceCell>)
    requires Known(s) && KnownEntries(s, u) && |v| == |s.syms| && Blank(s, cells, choiceCells)
    ensures Coherent(s, u, v, cells, choiceCells)
  {
    forall i | 0 <= i < |cells| ensures CellOk(s, u, v, i, cells[i]) {
      assert KnownSym(s, i) && BlankCell(s.syms[i], cells[i]);
    }
  }

  /** Cells that are dropped when the symbols `xs` are invalidated; a special symbol keeps its own. */
  ghost predicate Dropped(s: Setup, xs: set<nat>, cells: seq<Cell>, choiceCells: seq<ChoiceCell>, cells1: seq<Cell>, choiceCells1: seq<ChoiceCell>)
  {
    && |cells| == |cells1| == |s.syms| && |choiceCells| == |choiceCells1| == |s.choices|
    && (forall i :: 0 <= i < |cells| ==>
          cells1[i] == if i in xs && s.syms[i].special.None? then EMPTY else cells[i])
    && (forall c :: 0 <= c < |choiceCells| ==>
          choiceCells1[c] == if Apart(s, c, xs) then choiceCells[c] else NOTHING)
  }

  /** Outside `xs` every symbol and choice has the same value, visibility and selection. */
  ghost predicate SameOutside(s: Setup, u: Entries, v: seq<Value>, t: Setup, u1: Entries, w: seq<Value>, xs: set<nat>)
    requires Known(s) && KnownEntries(s, u) && |v| == |s.syms| && Known(t) && KnownEntries(t, u1) && |w| == |t.syms|
    requires t == Switched(s, t.modules)
  {
    && (forall i :: 0 <= i < |s.syms| && (i !in xs || s.syms[i].special.Some?) ==>
          ValueOf(s, u, i, v) == ValueOf(t, u1, i, w) && Visibility(s, i, v) == Visibility(t, i, w))
    && (forall c :: 0 <= c < |s.choices| && Apart(s, c, xs) ==>
          ChoiceVisibility(s, c, v) == ChoiceVisibility(t, c, w) && Selection(s, u, c, v) == Selection(t, u1, c, w))
  }

  /** The states before and after a change of entries, and of MODULES as far as they lead to one. */
  ghost predicate Changed(s: Setup, u: Entries, v: seq<Value>, t: Setup, u1: Entries, w: seq<Value>, rank: Ranks)
  {
    && Known(s) && KnownEntries(s, u) && Ranked(s, rank) && Solves(s, u, v)
    && t == Switched(s, t.modules)
    && Known(t) && KnownEntries(t, u1) && Ranked(t, rank) && Solves(t, u1, w)
  }

  /** When nothing changes outside `xs`: entries differ only inside, everything that reads a symbol
      of `xs` is inside, the defaults of choices included, and MODULES keeps its value or no
      evaluation outside meets an `m`. */
  lemma Undisturbed(s: Setup, u: Entries, v: seq<Value>, t: Setup, u1: Entries, w: seq<Value>, rank: Ranks, xs: set<nat>)
    requires Changed(s, u, v, t, u1, w, rank)
    requires Closed(s, xs) && AllWatched(s, xs) && DifferOnlyIn(s, u, u1, xs)
    requires t.modules == s.modules || Unseen(s, u, v, xs)
    ensures SameOutside(s, u, v, t, u1, w, xs)
  {
    SwitchedKnown(s, t.modules);
    assert KnownEntries(t, u) && Closed(t, xs) && AllWatched(t, xs);
    var z := FromScratch(t, u, rank);
    FromScratchSolves(t, u, rank);
    FlagDisturbsNothing(s, t.modules, u, v, z, rank, xs);
    EntriesDisturbNothing(t, u, u1, z, w, rank, xs);
  }

  lemma FlagDisturbsNothing(s: Setup, on: bool, u: Entries, v: seq<Value>, z: seq<Value>, rank: Ranks, xs: set<nat>)
    requires Switchable(s, on, u, rank, v, z) && (on == s.modules || Unseen(s, u, v, xs))
    requires Closed(Switched(s, on), xs) && AllWatched(Switched(s, on), xs)
    ensures SameOutside(s, u, v, Switched(s, on), u, z, xs)
  {
    if on == s.modules {
      SolutionUnique(s, u, rank, v, z);
    } else {
      forall i | 0 <= i < |s.syms| && (i !in xs || s.syms[i].special.Some?)
        ensures ValueOf(s, u, i, v) == ValueOf(Switched(s, on), u, i, z) && Visibility(s, i, v) == Visibility(Switched(s, on), i, z)
      {
        if i !in xs {
          SwitchBelow(s, on, u, xs, rank, v, z, rank[i]);
          SwitchAt(s, on, u, xs, rank, v, z, i);
        } else {
          SpecialKept(s, u, v, Switched(s, on), u, z, i);
        }
      }
      forall c | 0 <= c < |s.choices| && Apart(s, c, xs)
        ensures ChoiceVisibility(s, c, v) == ChoiceVisibility(Switched(s, on), c, z)
        ensures Selection(s, u, c, v) == Selection(Switched(s, on), u, c, z)
      {
        SwitchChoice(s, on, u, xs, rank, v, z, c);
      }
    }
  }

  lemma EntriesDisturbNothing(s: Setup, u: Entries, u1: Entries, v: seq<Value>, w: seq<Value>, rank: Ranks, xs: set<nat>)
    requires Known(s) && KnownEntries(s, u) && KnownEntries(s, u1) && Ranked(s, rank) && Solves(s, u, v) && Solves(s, u1, w)
    requires Closed(s, xs) && AllWatched(s, xs) && DifferOnlyIn(s, u, u1, xs)
    ensures SameOutside(s, u, v, s, u1, w, xs)
  {
    forall i | 0 <= i < |s.syms| && (i !in xs || s.syms[i].special.Some?)
      ensures ValueOf(s, u, i, v) == ValueOf(s, u1, i, w) && Visibility(s, i, v) == Visibility(s, i, w)
    {
      if i !in xs {
        Unaffected(s, u, u1, xs, rank, v, w, i);
      } else {
        SpecialKept(s, u, v, s, u1, w, i);
      }
    }
    forall c | 0 <= c < |s.choices| && Apart(s, c, xs)
      ensures ChoiceVisibility(s, c, v) == ChoiceVisibility(s, c, w) && Selection(s, u, c, v) == Selection(s, u1, c, w)
    {
      UnaffectedChoice(s, u, u1, xs, rank, v, w, c);
    }
  }

  lemma SpecialKept(s: Setup, u: Entries, v: seq<Value>, t: Setup, u1: Entries, w: seq<Value>, i: nat)
    requires Known(s) && KnownEntries(s, u) && |v| == |s.syms| && Known(t) && KnownEntries(t, u1) && |w| == |t.syms|
    requires t == Switched(s, t.modules) && i < |s.syms| && s.syms[i].special.Some?
    ensures ValueOf(s, u, i, v) == ValueOf(t, u1, i, w) && Visibility(s, i, v) == Visibility(t, i, w) == NO
  {
    assert KnownSym(s, i) && KnownSym(t, i);
  }

  /** Dropping the symbols of `xs` keeps the caches right if nothing changes outside. */
  lemma CoherenceKept(s: Setup, u: Entries, v: seq<Value>, t: Setup, u1: Entries, w: seq<Value>, rank: Ranks, xs: set<nat>,
                      cells: seq<Cell>, choiceCells: seq<ChoiceCell>, cells1: seq<Cell>, choiceCells1: seq<ChoiceCell>)
    requires Changed(s, u, v, t, u1, w, rank) && SameOutside(s, u, v, t, u1, w, xs)
    requires Coherent(s, u, v, cells, choiceCells) && Dropped(s, xs, cells, choiceCells, cells1, choiceCells1)
    ensures Coherent(t, u1, w, cells1, choiceCells1)
  {
    hide ValueOf, Visibility, Selection, ChoiceVisibility;
    forall j | 0 <= j < |cells1| ensures CellOk(t, u1, w, j, cells1[j]) {
      assert CellOk(s, u, v, j, cells[j]);
    }
    forall c | 0 <= c < |choiceCells1| ensures ChoiceOk(t, u1, w, c, choiceCells1[c]) {
      assert ChoiceOk(s, u, v, c, choiceCells[c]);
    }
  }

  predicate FullyCached(cells: seq<Cell>, choiceCells: seq<ChoiceCell>) {
    && (forall i :: 0 <= i < |cells| ==> cells[i].val.Some? && cells[i].vis.Some?)
    && (forall c :: 0 <= c < |choiceCells| ==> choiceCells[c].sel.Some? && choiceCells[c].vis.Some?)
  }

  /** And only then, if everything was cached. */
  lemma CoherenceExact(s: Setup, u: Entries, v: seq<Value>, t: Setup, u1: Entries, w: seq<Value>, rank: Ranks, xs: set<nat>,
                       cells: seq<Cell>, choiceCells: seq<ChoiceCell>, cells1: seq<Cell>, choiceCells1: seq<ChoiceCell>)
    requires Changed(s, u, v, t, u1, w, rank) && FullyCached(cells, choiceCells)
    requires Coherent(s, u, v, cells, choiceCells) && Dropped(s, xs, cells, choiceCells, cells1, choiceCells1)
    ensures Coherent(t, u1, w, cells1, choiceCells1) <==> SameOutside(s, u, v, t, u1, w, xs)
  {
    if SameOutside(s, u, v, t, u1, w, xs) {
      CoherenceKept(s, u, v, t, u1, w, rank, xs, cells, choiceCells, cells1, choiceCells1);
    }
    if Coherent(t, u1, w, cells1, choiceCells1) {
      hide ValueOf, Visibility, Selection, ChoiceVisibility;
      forall i | 0 <= i < |s.syms| && (i !in xs || s.syms[i].special.Some?)
        ensures ValueOf(s, u, i, v) == ValueOf(t, u1, i, w) && Visibility(s, i, v) == Visibility(t, i, w)
      {
        assert CellOk(s, u, v, i, cells[i]) && CellOk(t, u1, w, i, cells1[i]);
      }
      forall c | 0 <= c < |s.choices| && Apart(s, c, xs)
        ensures ChoiceVisibility(s, c, v) == ChoiceVisibility(t, c, w) && Selection(s, u, c, v) == Selection(t, u1, c, w)
      {
        assert ChoiceOk(s, u, v, c, choiceCells[c]) && ChoiceOk(t, u1, w, c, choiceCells1[c]);
      }
    }
  }

  lemma NumberFromStep(s: Setup, d: SymDecl, v: seq<Value>, k: nat, text: string)
    requires k < |d.defaults| && d.defaults[k].value.Leaf?
    ensures var held, t := Condition(d.defaults[k].cond, s.modules, v) != NO, OperandText(d.defaults[k].value.x, v);
            && NumberFrom(s, d, v, k, text) ==
               (if !held then NumberFrom(s, d, v, k + 1, text)
                else if s.parse(t, BaseOf(d.stype)).Some? then Clamped(s, d, t, v)
                else NumberFrom(s, d, v, k + 1, t))
            && FirstDefault(d.defaults, s.modules, v, k).Some? == (held || FirstDefault(d.defaults, s.modules, v, k + 1).Some?)
  {
  }

  // ---------------------------------------------------------------- the class

  class Config {
    const s: Setup
    ghost const rank: Ranks
    var entries: Entries
    var dep: seq<set<nat>>
    var cachedDeps: seq<Option<set<nat>>>
    var cells: seq<Cell>
    var choiceCells: seq<ChoiceCell>
    /** The Kconfig with the answer that _has_modules gives under the current entries. */
    ghost var now: Setup

    ghost predicate Shaped()
      reads `entries, `now
    {
      && Known(s) && Ranked(s, rank) && KnownEntries(s, entries) && BoolEntries(s, entries) && Grounded(s, rank)
      && now == Switched(s, now.modules)
      && Known(now) && Ranked(now, rank) && KnownEntries(now, entries)
    }

    /** The values of evaluation from scratch. */
    ghost function Fresh(): (v: seq<Value>)
      requires Shaped()
      reads `entries, `now
      ensures |v| == |s.syms|
    {
      FromScratch(now, entries, rank)
    }

    ghost predicate DepsRight()
      requires Known(s) && Ranked(s, rank)
      reads `dep, `cachedDeps
    {
      && |dep| == |cachedDeps| == |s.syms|
      && (forall x :: 0 <= x < |dep| ==> dep[x] == DirectDeps(s, x))
      && (forall x :: 0 <= x < |cachedDeps| && cachedDeps[x].Some? ==> cachedDeps[x].value == Dependents(s, rank, x))
    }

    /** Everything but the caches of values: _has_modules answers what the value of MODULES says,
        and the dependencies are right. */
    ghost predicate Sound()
      reads `entries, `now, `dep, `cachedDeps
    {
      Shaped() && DepsRight() && now == Live(s, entries, rank)
    }

    /** Every value, visibility and selection that is cached is what evaluation from scratch gives
        under the current entries. */
    ghost predicate Valid()
      reads this
    {
      Sound() && Coherent(now, entries, Fresh(), cells, choiceCells)
    }

    /** Valid, for values `v` that fit the entries. */
    ghost predicate Ready(v: seq<Value>)
      reads `entries, `now, `cells, `choiceCells
    {
      && Shaped() && Solves(now, entries, v) && ModulesOn(now, v) == now.modules
      && Coherent(now, entries, v, cells, choiceCells)
    }

    lemma FreshFits()
      requires Sound()
      ensures Solves(now, entries, Fresh()) && ModulesOn(now, Fresh()) == now.modules
    {
      FromScratchSolves(now, entries, rank);
      LiveFits(s, entries, rank, now.modules);
    }

    // -------------------------------------------------------------- evaluation

    /** All of `xs` are symbols ranked below `r`. */
    ghost predicate Under(xs: set<nat>, r: nat) {
      forall j :: j in xs ==> j < |s.syms| && j < |rank| && rank[j] < r
    }

    /** MODULES is ranked below `r`, so that an evaluation there can ask for it. */
    ghost predicate MayAsk(r: nat) {
      s.modulesSym.Some? ==> s.modulesSym.value < |rank| && rank[s.modulesSym.value] < r
    }

    /** An evaluation that may not ask for MODULES meets no `m`. */
    lemma CanAsk(i: nat, v: seq<Value>)
      requires Ready(v) && i < |s.syms| && s.syms[i].special.None?
      ensures MayAsk(rank[i]) || (Calm(now, entries, i, v) && s.syms[i].choice.None?)
    {
      if !MayAsk(rank[i]) {
        ConeIsCalm(now, entries, rank, v, i);
      }
    }

    lemma ChoiceCanAsk(c: nat)
      requires Shaped() && c < |s.choices|
      ensures MayAsk(ChoiceRank(now, rank, c))
    {
      assert KnownChoice(now, c);
      var m := now.choices[c].actual[0];
      assert m in now.choices[c].actual && KnownSym(now, m);
      assert InCone(s, rank, m) ==> GroundedSym(s.syms[m]);
    }

    /** _has_modules */
    method HasModules(ghost v: seq<Value>, ghost r: nat) returns (on: bool)
      requires Ready(v) && MayAsk(r)
      modifies `cells, `choiceCells
      ensures Ready(v) && on == now.modules
      decreases r, 0, 0
    {
      if s.modulesSym.None? {
        return false;
      }
      var val := GetValue(s.modulesSym.value, v);
      on := val == Truth(YES);
    }

    /** _eval_expr of a value. */
    method RaiseNow(t: Tristate, ghost v: seq<Value>, ghost r: nat) returns (raised: Tristate)
      requires Ready(v) && (t == MOD ==> MayAsk(r))
      modifies `cells, `choiceCells
      ensures Ready(v) && raised == Raise(t, now.modules)
      decreases r, 1, 0
    {
      raised := t;
      if t == MOD {
        var on := HasModules(v, r);
        if !on {
          raised := YES;
        }
      }
    }

    method EvalOperand(x: Operand, ghost v: seq<Value>, ghost r: nat) returns (text: string)
      requires Ready(v) && Under(OperandRefs(x), r)
      modifies `cells, `choiceCells
      ensures Ready(v) && text == OperandText(x, v)
      decreases r, 0, 0
    {
      match x
      case Literal(t) => text := t;
      case Ref(j) =>
        var val := GetValue(j, v);
        text := if val.Truth? then TruthText(val.t) else val.s;
    }

    /** _eval_expr_2 */
    method EvalExpr2(f: Formula, ghost v: seq<Value>, ghost r: nat) returns (t: Tristate)
      requires Ready(v) && Under(Refs(f), r)
      modifies `cells, `choiceCells
      ensures Ready(v) && t == Holds(f, v)
      decreases r, 1, f
    {
      match f
      case Leaf(Literal(text)) => t := TextTruth(text);
      case Leaf(Ref(j)) =>
        assert j in Refs(f);
        if !IsTri(s.syms[j].stype) {
          assert v[j] == ValueOf(now, entries, j, v).0;
          return NO;
        }
        var val := GetValue(j, v);
        assert v[j] == ValueOf(now, entries, j, v).0;
        t := val.t;
      case Neg(g) =>
        assert Refs(g) <= Refs(f);
        t := EvalExpr2(g, v, r);
        t := Negate(t);
      case Compare(eq, a, b) =>
        assert OperandRefs(a) <= Refs(f) && OperandRefs(b) <= Refs(f);
        var left := EvalOperand(a, v, r);
        var right := EvalOperand(b, v, r);
        t := FromBool(eq == (left == right));
      case All(terms) =>
        t := YES;
        for k := 0 to |terms|
          invariant Ready(v) && t != NO && Holds(f, v) == Min(t, HoldAll(terms[k..], v))
        {
          TermRefs(terms, k);
          assert Refs(terms[k]) <= Refs(f);
          var ev := EvalExpr2(terms[k], v, r);
          if ev == NO {
            return NO;
          }
          if ev == MOD {
            t := MOD;
          }
        }
      case Any(terms) =>
        t := NO;
        for k := 0 to |terms|
          invariant Ready(v) && t != YES && Holds(f, v) == Max(t, HoldAny(terms[k..], v))
        {
          TermRefs(terms, k);
          assert Refs(terms[k]) <= Refs(f);
          var ev := EvalExpr2(terms[k], v, r);
          if ev == YES {
            return YES;
          }
          if ev == MOD {
            t := MOD;
          }
        }
    }

    /** _eval_expr */
    method EvalExpr(f: Option<Formula>, ghost v: seq<Value>, ghost r: nat) returns (t: Tristate)
      requires Ready(v) && Under(OptRefs(f), r) && (OptHolds(f, v) == MOD ==> MayAsk(r))
      modifies `cells, `choiceCells
      ensures Ready(v) && t == Condition(f, now.modules, v)
      decreases r, 2, 0
    {
      if f.None? {
        return YES;
      }
      t := EvalExpr2(f.value, v, r);
      t := RaiseNow(t, v, r);
    }

    /** The loop of _get_visibility over the prompts. */
    method EvalPrompts(ps: seq<Option<Formula>>, ghost v: seq<Value>, ghost r: nat) returns (vis: Tristate)
      requires Ready(v) && Under(PromptRefs(ps), r) && (MayAsk(r) || CalmPrompts(ps, v))
      modifies `cells, `choiceCells
      ensures Ready(v) && vis == PromptMax(ps, now.modules, v, 0)
      decreases r, 3, 0
    {
      vis := NO;
      for k := 0 to |ps|
        invariant Ready(v) && (!now.modules ==> vis != MOD) && (vis == MOD ==> MayAsk(r))
        invariant Max(vis, PromptMax(ps, now.modules, v, k)) == PromptMax(ps, now.modules, v, 0)
      {
        assert forall j :: j in OptRefs(ps[k]) ==> j in PromptRefs(ps);
        var e := EvalExpr(ps[k], v, r);
        vis := RaiseNow(vis, v, r);
        vis := Max(vis, e);
      }
    }

    /** _get_visibility of a choice */
    method GetChoiceVisibility(c: nat, ghost v: seq<Value>, ghost r: nat) returns (vis: Tristate)
      requires Ready(v) && c < |s.choices| && Under(PromptRefs(s.choices[c].prompts), r) && MayAsk(r)
      modifies `cells, `choiceCells
      ensures Ready(v) && vis == ChoiceVisibility(now, c, v)
      decreases r, 4, 0
    {
      assert ChoiceOk(now, entries, v, c, choiceCells[c]);
      if choiceCells[c].vis.None? {
        var own := EvalPrompts(s.choices[c].prompts, v, r);
        vis := OnlyTristate(own, s.choices[c].stype);
        choiceCells := choiceCells[c := choiceCells[c].(vis := Some(vis))];
      } else {
        vis := choiceCells[c].vis.value;
      }
    }

    lemma ChoiceReadsBelow(c: nat)
      requires Shaped() && c < |s.choices|
      ensures Under(ChoiceRefs(s.choices[c]), ChoiceRank(now, rank, c))
    {
      assert KnownChoice(now, c);
      var m := now.choices[c].actual[0];
      assert KnownSym(now, m) && RankedSym(now, rank, m);
      assert ChoiceRefs(now.choices[c]) <= Reads(now, m);
    }

    lemma ReadsBelow(i: nat)
      requires Shaped() && i < |s.syms|
      ensures Under(OwnRefs(s.syms[i]), rank[i]) && Under(VisRefs(s, i), rank[i])
    {
      assert RankedSym(s, rank, i);
      assert VisRefs(s, i) <= Reads(s, i);
    }

    /** cached_visibility of a symbol */
    method CacheVisibility(i: nat, vis: Tristate, ghost v: seq<Value>)
      requires Ready(v) && i < |s.syms| && vis == Visibility(now, i, v)
      modifies `cells
      ensures Ready(v)
    {
      hide Visibility, ValueOf, Selection;
      assert CellOk(now, entries, v, i, cells[i]);
      cells := cells[i := cells[i].(vis := Some(vis))];
    }

    /** cached_selection of a choice */
    method CacheSelection(c: nat, sel: Option<nat>, ghost v: seq<Value>)
      requires Ready(v) && c < |s.choices| && sel == Selection(now, entries, c, v)
      modifies `choiceCells
      ensures Ready(v)
    {
      hide Visibility, ValueOf, Selection;
      assert ChoiceOk(now, entries, v, c, choiceCells[c]);
      choiceCells := choiceCells[c := choiceCells[c].(sel := Some(sel))];
    }

    /** cached_val and write_to_conf of a symbol */
    method CacheValue(i: nat, val: Value, write: bool, ghost v: seq<Value>)
      requires Ready(v) && i < |s.syms| && (val, write) == ValueOf(now, entries, i, v)
      modifies `cells
      ensures Ready(v) && val == v[i] && cells[i].val == Some(val)
    {
      hide Visibility, ValueOf, Selection;
      assert CellOk(now, entries, v, i, cells[i]);
      cells := cells[i := cells[i].(val := Some(val), write := write)];
    }

    /** _get_visibility of a symbol; what it is computed from ranks below `r`. */
    method GetVisibility(i: nat, ghost v: seq<Value>, ghost r: nat) returns (vis: Tristate)
      requires Ready(v) && i < |s.syms| && Under(VisRefs(s, i), r)
      requires MayAsk(r) || (CalmVisibility(now, i, v) && s.syms[i].choice.None?)
      modifies `cells, `choiceCells
      ensures Ready(v) && vis == Visibility(now, i, v)
      decreases r, 5, 0
    {
      assert CellOk(now, entries, v, i, cells[i]) && KnownSym(now, i);
      if cells[i].vis.None? {
        var d := s.syms[i];
        vis := EvalPrompts(d.prompts, v, r);
        if d.choice.Some? {
          var above := GetChoiceVisibility(d.choice.value, v, r);
          above := RaiseNow(above, v, r);
          vis := RaiseNow(vis, v, r);
          vis := Min(vis, above);
        }
        vis := OnlyTristate(vis, d.stype);
        CacheVisibility(i, vis, v);
      } else {
        vis := cells[i].vis.value;
      }
    }

    /** Choice.get_mode */
    method GetMode(c: nat, ghost v: seq<Value>) returns (mode: Tristate)
      requires Ready(v) && c < |s.choices|
      modifies `cells, `choiceCells
      ensures Ready(v) && mode == Mode(now, entries, c, v)
      decreases ChoiceRank(now, rank, c), 6, 0
    {
      ghost var r := ChoiceRank(now, rank, c);
      ChoiceCanAsk(c);
      ChoiceReadsBelow(c);
      var lowest := if s.choices[c].optional then NO else MOD;
      mode := if entries.modes[c].Some? then entries.modes[c].value else lowest;
      var vis := GetChoiceVisibility(c, v, r);
      mode := RaiseNow(mode, v, r);
      vis := RaiseNow(vis, v, r);
      mode := Min(mode, vis);
      if mode == MOD && s.choices[c].stype.Boolean? {
        mode := YES;
      }
    }

    /** What the visibility of a symbol that a choice may select is computed from. */
    lemma SelectableBelow(c: nat, m: nat)
      requires Shaped() && c < |s.choices|
      requires m in s.choices[c].actual || exists k :: 0 <= k < |s.choices[c].defaults| && m == s.choices[c].defaults[k].sym
      ensures m < |s.syms| && Under(VisRefs(s, m), ChoiceRank(now, rank, c))
    {
      assert KnownChoice(now, c) && RankedChoice(now, rank, c);
      if m in s.choices[c].actual {
        MemberRank(now, rank, c, m);
        ReadsBelow(m);
      } else {
        var k :| 0 <= k < |s.choices[c].defaults| && m == s.choices[c].defaults[k].sym;
        assert now.choices[c].actual[0] in now.choices[c].actual;
        assert DefaultBelow(now, rank, now.choices[c].defaults[k].sym, now.choices[c].actual[0]);
        assert VisRefs(now, m) == VisRefs(s, m);
      }
    }

    /** The loop of get_selection_from_defaults over the defaults. */
    method ChooseDefault(c: nat, ghost v: seq<Value>) returns (chosen: nat)
      requires Ready(v) && c < |s.choices|
      modifies `cells, `choiceCells
      ensures Ready(v) && chosen == Chosen(now, c, v, 0)
      decreases ChoiceRank(now, rank, c), 6, 0
    {
      hide Visibility, Coherent, Grounded, BoolEntries;
      ghost var r := ChoiceRank(now, rank, c);
      assert KnownChoice(now, c);
      ChoiceCanAsk(c);
      ChoiceReadsBelow(c);
      var d := s.choices[c];
      for k := 0 to |d.defaults|
        invariant Ready(v) && Chosen(now, c, v, 0) == Chosen(now, c, v, k)
      {
        assert forall j :: j in OptRefs(d.defaults[k].cond) ==> j in ChoiceDefaultRefs(d.defaults);
        var cond := EvalExpr(d.defaults[k].cond, v, r);
        if cond != NO {
          return d.defaults[k].sym;
        }
      }
      chosen := d.actual[0];
    }

    /** Choice.get_selection_from_defaults */
    method SelectFromDefaults(c: nat, ghost v: seq<Value>) returns (sel: Option<nat>)
      requires Ready(v) && c < |s.choices|
      modifies `cells, `choiceCells
      ensures Ready(v) && sel == DefaultSelection(now, c, v)
      decreases ChoiceRank(now, rank, c), 7, 0
    {
      hide Visibility, Chosen;
      ghost var r := ChoiceRank(now, rank, c);
      assert KnownChoice(now, c);
      ChoiceCanAsk(c);
      var chosen := ChooseDefault(c, v);
      SelectableBelow(c, chosen);
      var vis := GetVisibility(chosen, v, r);
      if vis != NO {
        return Some(chosen);
      }
      var actual := s.choices[c].actual;
      for n := 0 to |actual|
        invariant Ready(v) && FirstVisible(now, actual, v) == FirstVisible(now, actual[n..], v)
      {
        SelectableBelow(c, actual[n]);
        vis := GetVisibility(actual[n], v, r);
        if vis != NO {
          return Some(actual[n]);
        }
      }
      sel := None;
    }

    /** Choice.get_selection */
    method GetSelection(c: nat, ghost v: seq<Value>) returns (sel: Option<nat>)
      requires Ready(v) && c < |s.choices|
      modifies `cells, `choiceCells
      ensures Ready(v) && sel == Selection(now, entries, c, v)
      decreases ChoiceRank(now, rank, c), 8, 0
    {
      assert ChoiceOk(now, entries, v, c, choiceCells[c]) && KnownChoice(now, c);
      if choiceCells[c].sel.Some? {
        return choiceCells[c].sel.value;
      }
      var mode := GetMode(c, v);
      var pick := entries.picks[c];
      sel := None;
      if mode == YES {
        var vis := NO;
        if pick.Some? {
          ChoiceCanAsk(c);
          SelectableBelow(c, pick.value);
          vis := GetVisibility(pick.value, v, ChoiceRank(now, rank, c));
        }
        if vis == YES {
          sel := pick;
        } else if !s.choices[c].optional {
          sel := SelectFromDefaults(c, v);
        }
      }
      CacheSelection(c, sel, v);
    }

    // -------------------------------------------------------------- values

    /** The loop over def_exprs. */
    method EvalDefaults(ds: seq<Default>, ghost v: seq<Value>, ghost r: nat) returns (found: Option<(Formula, Tristate)>)
      requires Ready(v) && Under(DefaultRefs(ds), r) && (MayAsk(r) || CalmDefaults(ds, v))
      modifies `cells, `choiceCells
      ensures Ready(v) && found == FirstDefault(ds, now.modules, v, 0)
      ensures found.Some? ==> exists k :: 0 <= k < |ds| && found.value.0 == ds[k].value
      decreases r, 3, 0
    {
      for k := 0 to |ds|
        invariant Ready(v) && FirstDefault(ds, now.modules, v, 0) == FirstDefault(ds, now.modules, v, k)
      {
        DefaultRefsAt(ds, k);
        var cond := EvalExpr(ds[k].cond, v, r);
        if cond != NO {
          return Some((ds[k].value, cond));
        }
      }
      found := None;
    }

    lemma DefaultRefsAt(ds: seq<Default>, k: nat)
      requires k < |ds|
      ensures Refs(ds[k].value) + OptRefs(ds[k].cond) <= DefaultRefs(ds)
    {
      forall j | j in Refs(ds[k].value) + OptRefs(ds[k].cond) ensures j in DefaultRefs(ds) {
      }
    }

    lemma ValueBelow(ds: seq<Default>, e: Formula, r: nat, v: seq<Value>)
      requires Shaped() && exists k :: 0 <= k < |ds| && e == ds[k].value
      requires Under(DefaultRefs(ds), r) && (MayAsk(r) || CalmDefaults(ds, v))
      ensures Under(Refs(e), r) && (Holds(e, v) == MOD ==> MayAsk(r))
    {
      var k :| 0 <= k < |ds| && e == ds[k].value;
      DefaultRefsAt(ds, k);
    }

    /** The branch of get_value for a symbol of a choice. */
    method MemberValue(i: nat, vis: Tristate, ghost v: seq<Value>) returns (t: Tristate, write: bool)
      requires Ready(v) && i < |s.syms| && s.syms[i].choice.Some? && vis == Visibility(now, i, v)
      modifies `cells, `choiceCells
      ensures Ready(v) && (t, write) == MemberTruth(now, entries, i, v)
      decreases rank[i], 9, 0
    {
      assert KnownSym(now, i);
      var c := s.syms[i].choice.value;
      MemberRank(now, rank, c, i);
      t, write := NO, false;
      if vis != NO {
        var mode := GetMode(c, v);
        write := mode != NO;
        if mode == YES {
          var sel := GetSelection(c, v);
          t := FromBool(sel == Some(i));
        } else if mode == MOD {
          if entries.vals[i] == Some("m") || entries.vals[i] == Some("y") {
            t := MOD;
          }
        }
      }
    }

    /** _eval_min of a value and a visibility. */
    method LowerOf(a: Tristate, b: Tristate, ghost v: seq<Value>, ghost r: nat) returns (t: Tristate)
      requires Ready(v) && (a == MOD || b == MOD ==> MayAsk(r))
      modifies `cells, `choiceCells
      ensures Ready(v) && t == Min(Raise(a, now.modules), Raise(b, now.modules))
      decreases r, 2, 0
    {
      var x := RaiseNow(a, v, r);
      var y := RaiseNow(b, v, r);
      t := Min(x, y);
    }

    /** The value by entry or defaults, before selects. */
    method BaseValue(i: nat, vis: Tristate, ghost v: seq<Value>) returns (t: Tristate, write: bool)
      requires Ready(v) && i < |s.syms| && vis == Visibility(now, i, v) && IsTri(s.syms[i].stype)
      requires MayAsk(rank[i]) || (Calm(now, entries, i, v) && vis != MOD)
      modifies `cells, `choiceCells
      ensures Ready(v) && (t, write) == PlainBase(now, entries, i, v)
      ensures t == MOD ==> MayAsk(rank[i])
      decreases rank[i], 9, 0
    {
      hide Visibility;
      var d := s.syms[i];
      ReadsBelow(i);
      t, write := NO, vis != NO;
      if vis != NO && entries.vals[i].Some? {
        t := LowerOf(TextTruth(entries.vals[i].value), vis, v, rank[i]);
        return;
      }
      var found := EvalDefaults(d.defaults, v, rank[i]);
      if found.Some? {
        write := true;
        ValueBelow(d.defaults, found.value.0, rank[i], v);
        assert found.value.1 == MOD ==> MayAsk(rank[i]) by {
          if !MayAsk(rank[i]) { CalmFirstDefault(d.defaults, now.modules, now.modules, v, 0); }
        }
        t := EvalExpr2(found.value.0, v, rank[i]);
        t := LowerOf(t, found.value.1, v, rank[i]);
      }
    }

    /** The branch of get_value for other bool and tristate symbols. */
    method TruthValue(i: nat, vis: Tristate, ghost v: seq<Value>) returns (t: Tristate, write: bool)
      requires Ready(v) && i < |s.syms| && vis == Visibility(now, i, v) && IsTri(s.syms[i].stype)
      requires MayAsk(rank[i]) || (Calm(now, entries, i, v) && vis != MOD)
      modifies `cells, `choiceCells
      ensures Ready(v) && (t, write) == PlainTruth(now, entries, i, v)
      decreases rank[i], 10, 0
    {
      hide PlainBase;
      ReadsBelow(i);
      t, write := BaseValue(i, vis, v);
      var rev := EvalExpr(Some(s.syms[i].revDep), v, rank[i]);
      if rev != NO {
        write := true;
        t := RaiseNow(t, v, rank[i]);
        t := Max(t, rev);
      }
    }

    /** The branch of get_value for string symbols. */
    method TextOf(i: nat, vis: Tristate, ghost v: seq<Value>) returns (text: string, write: bool)
      requires Ready(v) && i < |s.syms| && !IsTri(s.syms[i].stype) && vis == Visibility(now, i, v)
      requires MayAsk(rank[i]) || Calm(now, entries, i, v)
      modifies `cells, `choiceCells
      ensures Ready(v) && (text, write) == StringValue(now, entries, i, v)
      decreases rank[i], 9, 0
    {
      assert KnownSym(now, i);
      var d := s.syms[i];
      ReadsBelow(i);
      text, write := "", vis != NO;
      if vis != NO && entries.vals[i].Some? {
        text := entries.vals[i].value;
      } else {
        var found := EvalDefaults(d.defaults, v, rank[i]);
        if found.Some? {
          write := true;
          ValueBelow(d.defaults, found.value.0, rank[i], v);
          text := EvalOperand(found.value.0.x, v, rank[i]);
        }
      }
    }

    ghost predicate IsActiveRange(i: nat, active: bool, low: int, high: int, v: seq<Value>)
      requires i < |now.syms|
      reads `now
    {
      var r, base := FirstRange(now.syms[i].ranges, now.modules, v, 0), BaseOf(now.syms[i].stype);
      && active == r.Some?
      && (active ==> low == BoundValue(now, r.value.low, base, v) && high == BoundValue(now, r.value.high, base, v))
    }

    /** The active range of an int or hex symbol, with its bounds as numbers. */
    method ActiveRange(i: nat, base: nat, ghost v: seq<Value>) returns (active: bool, low: int, high: int)
      requires Ready(v) && i < |s.syms| && base == BaseOf(s.syms[i].stype)
      requires MayAsk(rank[i]) || CalmRanges(s.syms[i].ranges, v)
      modifies `cells, `choiceCells
      ensures Ready(v) && IsActiveRange(i, active, low, high, v)
      decreases rank[i], 7, 0
    {
      ReadsBelow(i);
      var rs := s.syms[i].ranges;
      active, low, high := false, 0, 0;
      for k := 0 to |rs|
        invariant Ready(v) && !active && FirstRange(rs, now.modules, v, 0) == FirstRange(rs, now.modules, v, k)
      {
        assert forall j :: j in OperandRefs(rs[k].low) + OperandRefs(rs[k].high) + OptRefs(rs[k].cond) ==> j in RangeRefs(rs);
        var cond := EvalExpr(rs[k].cond, v, rank[i]);
        if cond != NO {
          var lowText := EvalOperand(rs[k].low, v, rank[i]);
          var highText := EvalOperand(rs[k].high, v, rank[i]);
          low := if s.parse(lowText, base).Some? then s.parse(lowText, base).value else 0;
          high := if s.parse(highText, base).Some? then s.parse(highText, base).value else 0;
          return true, low, high;
        }
      }
    }

    /** A default that is a number, moved into the active range. */
    method ClampDefault(i: nat, text: string, active: bool, low: int, high: int, ghost v: seq<Value>) returns (r: string)
      requires Shaped() && i < |s.syms| && IsActiveRange(i, active, low, high, v)
      requires s.parse(text, BaseOf(s.syms[i].stype)).Some?
      ensures r == Clamped(now, now.syms[i], text, v)
    {
      var base := BaseOf(s.syms[i].stype);
      var n := s.parse(text, base).value;
      r := text;
      if active {
        if n < low {
          r := s.show(low, base);
        } else if n > high {
          r := s.show(high, base);
        }
      }
    }

    /** The defaults of get_value for int and hex symbols, with the for-else on the range. */
    method DefaultNumber(i: nat, vis: Tristate, active: bool, low: int, high: int, ghost v: seq<Value>) returns (text: string, write: bool)
      requires Ready(v) && i < |s.syms| && !IsTri(s.syms[i].stype) && vis == Visibility(now, i, v)
      requires MayAsk(rank[i]) || Calm(now, entries, i, v)
      requires IsActiveRange(i, active, low, high, v)
      modifies `cells, `choiceCells
      ensures Ready(v) && (text, write) == NumberDefault(now, i, v)
      decreases rank[i], 8, 0
    {
      assert KnownSym(now, i);
      ReadsBelow(i);
      var found;
      text, found := NumberDefaults(i, active, low, high, v);
      write := found || vis != NO;
    }

    method NumberDefaults(i: nat, active: bool, low: int, high: int, ghost v: seq<Value>) returns (text: string, found: bool)
      requires Ready(v) && i < |s.syms| == |rank| == |now.syms| && now.syms[i] == s.syms[i] && now.parse == s.parse && now.show == s.show
      requires IsActiveRange(i, active, low, high, v)
      requires Under(DefaultRefs(s.syms[i].defaults), rank[i]) && (MayAsk(rank[i]) || CalmDefaults(s.syms[i].defaults, v))
      requires forall k :: 0 <= k < |s.syms[i].defaults| ==> s.syms[i].defaults[k].value.Leaf?
      modifies `cells, `choiceCells
      ensures Ready(v) && text == NumberFrom(now, now.syms[i], v, 0, "")
      ensures found == FirstDefault(now.syms[i].defaults, now.modules, v, 0).Some?
      decreases rank[i], 7, 0
    {
      hide *;
      ghost var t := now;
      var ds, base := s.syms[i].defaults, BaseOf(s.syms[i].stype);
      text, found := "", false;
      for k := 0 to |ds|
        invariant Ready(v) && now == t && IsActiveRange(i, active, low, high, v)
        invariant NumberFrom(t, t.syms[i], v, 0, "") == NumberFrom(t, t.syms[i], v, k, text)
        invariant (found || FirstDefault(ds, t.modules, v, k).Some?) == FirstDefault(ds, t.modules, v, 0).Some?
      {
        NumberFromStep(t, t.syms[i], v, k, text);
        DefaultBelowNow(ds, k, rank[i], v);
        var cond := EvalExpr(ds[k].cond, v, rank[i]);
        if cond != NO {
          found := true;
          text := EvalOperand(ds[k].value.x, v, rank[i]);
          if s.parse(text, base).Some? {
            text := ClampDefault(i, text, active, low, high, v);
            return;
          }
        }
      }
      NumberFromEnd(i, active, low, high, text, v);
      if active && low > 0 {
        text := s.show(low, base);
      }
    }

    lemma DefaultBelowNow(ds: seq<Default>, k: nat, r: nat, v: seq<Value>)
      requires k < |ds| && ds[k].value.Leaf? && Under(DefaultRefs(ds), r) && (MayAsk(r) || CalmDefaults(ds, v))
      ensures Under(OptRefs(ds[k].cond), r) && (OptHolds(ds[k].cond, v) == MOD ==> MayAsk(r))
      ensures Under(OperandRefs(ds[k].value.x), r)
    {
      DefaultRefsAt(ds, k);
      assert OperandRefs(ds[k].value.x) == Refs(ds[k].value);
    }

    lemma NumberFromEnd(i: nat, active: bool, low: int, high: int, text: string, v: seq<Value>)
      requires i < |now.syms| && IsActiveRange(i, active, low, high, v)
      ensures NumberFrom(now, now.syms[i], v, |now.syms[i].defaults|, text) ==
              if active && low > 0 then now.show(low, BaseOf(now.syms[i].stype)) else text
      ensures FirstDefault(now.syms[i].defaults, now.modules, v, |now.syms[i].defaults|).None?
    {
    }

    /** The branch of get_value for int and hex symbols. */
    method NumberOf(i: nat, vis: Tristate, ghost v: seq<Value>) returns (text: string, write: bool)
      requires Ready(v) && i < |s.syms| && !IsTri(s.syms[i].stype) && vis == Visibility(now, i, v)
      requires MayAsk(rank[i]) || Calm(now, entries, i, v)
      modifies `cells, `choiceCells
      ensures Ready(v) && (text, write) == NumberValue(now, entries, i, v)
      decreases rank[i], 9, 0
    {
      hide NumberDefault, Visibility;
      var base, user := BaseOf(s.syms[i].stype), entries.vals[i];
      var active, low, high := ActiveRange(i, base, v);
      if && vis != NO && user.Some? && s.parse(user.value, base).Some?
         && (!active || low <= s.parse(user.value, base).value <= high) {
        return user.value, true;
      }
      text, write := DefaultNumber(i, vis, active, low, high, v);
    }

    /** The visibility of a symbol whose value is being computed. */
    method OwnVisibility(i: nat, ghost v: seq<Value>) returns (vis: Tristate)
      requires Ready(v) && i < |s.syms|
      modifies `cells, `choiceCells
      ensures Ready(v) && vis == Visibility(now, i, v)
      ensures s.syms[i].special.None? ==> MayAsk(rank[i]) || (Calm(now, entries, i, v) && s.syms[i].choice.None? && vis != MOD)
      decreases rank[i], 6, 0
    {
      ReadsBelow(i);
      assert KnownSym(now, i);
      if s.syms[i].special.None? {
        CanAsk(i, v);
        if !MayAsk(rank[i]) {
          CalmVisible(now, now.modules, i, v);
        }
      }
      vis := GetVisibility(i, v, rank[i]);
    }

    /** Symbol.get_value */
    method GetValue(i: nat, ghost v: seq<Value>) returns (val: Value)
      requires Ready(v) && i < |s.syms|
      modifies `cells, `choiceCells
      ensures Ready(v) && val == v[i] && cells[i].val == Some(val)
      decreases rank[i], 11, 0
    {
      hide MemberTruth, PlainTruth, StringValue, NumberValue, Visibility, Calm;
      assert CellOk(now, entries, v, i, cells[i]) && KnownSym(now, i);
      if cells[i].val.Some? {
        StoredValue(now, entries, v, i, cells[i]);
        return cells[i].val.value;
      }
      var d, write := s.syms[i], false;
      if d.stype.Unknown? {
        val := Text(d.name);
      } else {
        var vis := OwnVisibility(i, v);
        if IsTri(d.stype) {
          var t;
          if d.choice.Some? {
            t, write := MemberValue(i, vis, v);
          } else {
            t, write := TruthValue(i, vis, v);
          }
          if t == MOD && d.stype.Boolean? {
            t := YES;
          }
          val := Truth(t);
        } else {
          var text;
          if d.stype.Str? {
            text, write := TextOf(i, vis, v);
          } else {
            text, write := NumberOf(i, vis, v);
          }
          val := Text(text);
        }
      }
      CacheValue(i, val, write, v);
    }

    /** get_value, for a caller. */
    method Value(i: nat) returns (val: Value)
      requires Valid() && i < |s.syms|
      modifies `cells, `choiceCells
      ensures Valid() && val == Fresh()[i] && cells[i].val == Some(val)
    {
      FreshFits();
      val := GetValue(i, Fresh());
    }

    method VisibilityOf(i: nat) returns (vis: Tristate)
      requires Valid() && i < |s.syms|
      modifies `cells, `choiceCells
      ensures Valid() && vis == Visibility(now, i, Fresh())
    {
      FreshFits();
      vis := OwnVisibility(i, Fresh());
    }

    method SelectionOf(c: nat) returns (sel: Option<nat>)
      requires Valid() && c < |s.choices|
      modifies `cells, `choiceCells
      ensures Valid() && sel == Selection(now, entries, c, Fresh())
    {
      FreshFits();
      sel := GetSelection(c, Fresh());
    }

    // -------------------------------------------------------------- invalidation

    /** Symbol._get_dependent */
    method GetDependent(i: nat) returns (res: set<nat>)
      requires Known(s) && Ranked(s, rank) && DepsRight() && i < |s.syms|
      modifies `cachedDeps
      ensures DepsRight() && res == Dependents(s, rank, i)
      decreases MaxRank(rank) - rank[i], 2
    {
      if cachedDeps[i].Some? {
        return cachedDeps[i].value;
      }
      res := AddDependentIgnoreSiblings(i, {});
      assert KnownSym(s, i);
      if s.syms[i].choice.Some? {
        res := AddSiblings(i, s.choices[s.syms[i].choice.value].actual, res);
      } else {
        assert Siblings(s, i) == {};
      }
      cachedDeps := cachedDeps[i := Some(res)];
    }

    /** The loop of _get_dependent over the symbols of the choice. */
    method AddSiblings(i: nat, actual: seq<nat>, to: set<nat>) returns (res: set<nat>)
      requires Known(s) && Ranked(s, rank) && DepsRight() && i < |s.syms|
      requires s.syms[i].choice.Some? && KnownSym(s, i) && actual == s.choices[s.syms[i].choice.value].actual
      modifies `cachedDeps
      ensures DepsRight() && res == to + SiblingPart(i, Siblings(s, i))
      decreases MaxRank(rank) - rank[i], 1
    {
      res := to;
      AllSeen(i, actual);
      hide *;
      for k := 0 to |actual|
        invariant Known(s) && Ranked(s, rank) && DepsRight() && res == to + SiblingPart(i, SeenSiblings(i, actual, k))
      {
        SeenNext(i, actual, k);
        if actual[k] != i {
          res := AddSibling(i, actual[k], to, res, SeenSiblings(i, actual, k));
        }
      }
    }

    /** One round of the loop. */
    method AddSibling(i: nat, n: nat, ghost to: set<nat>, res: set<nat>, ghost seen: set<nat>) returns (r: set<nat>)
      requires Known(s) && Ranked(s, rank) && DepsRight() && i < |s.syms| && n in Siblings(s, i)
      requires res == to + SiblingPart(i, seen)
      modifies `cachedDeps
      ensures DepsRight() && r == to + SiblingPart(i, seen + {n})
      decreases MaxRank(rank) - rank[i], 0, 2
    {
      SiblingRank(s, rank, i, n);
      SameRankAs(i, n);
      hide *;
      r := AddDependentIgnoreSiblings(n, res + {n});
      AnotherSibling(i, seen, n);
      UnionMoves(to, SiblingPart(i, seen), {n}, Downstream(s, rank, n));
    }

    lemma SameRankAs(i: nat, n: nat)
      requires i < |s.syms| && |rank| == |s.syms| && SameRank(s, rank, i, n)
      ensures n < |rank| && n < |s.syms| && rank[n] == rank[i]
    {
    }

    lemma AllSeen(i: nat, actual: seq<nat>)
      requires Known(s) && Ranked(s, rank) && i < |s.syms|
      requires s.syms[i].choice.Some? && KnownSym(s, i) && actual == s.choices[s.syms[i].choice.value].actual
      ensures SeenSiblings(i, actual, |actual|) == Siblings(s, i) && SiblingPart(i, SeenSiblings(i, actual, 0)) == {}
      ensures forall k :: 0 <= k < |actual| && actual[k] != i ==> actual[k] in Siblings(s, i)
    {
    }

    lemma SeenNext(i: nat, actual: seq<nat>, k: nat)
      requires Known(s) && i < |s.syms| && k < |actual| && (actual[k] != i ==> actual[k] in Siblings(s, i))
      ensures SeenSiblings(i, actual, k + 1) == if actual[k] != i then SeenSiblings(i, actual, k) + {actual[k]} else SeenSiblings(i, actual, k)
    {
      assert i !in Siblings(s, i);
    }

    ghost function SeenSiblings(i: nat, todo: seq<nat>, k: nat): set<nat>
      requires Known(s) && i < |s.syms| && k <= |todo|
    {
      set m | m in Siblings(s, i) && m in todo[..k]
    }

    /** What the siblings `ms` of `i` contribute to its dependent symbols. */
    ghost function SiblingPart(i: nat, ms: set<nat>): set<nat>
      requires Known(s) && Ranked(s, rank) && i < |s.syms|
    {
      set m, y | m in ms && SameRank(s, rank, i, m) && y in {m} + Downstream(s, rank, m) :: y
    }

    lemma AnotherSibling(i: nat, ms: set<nat>, n: nat)
      requires Known(s) && Ranked(s, rank) && i < |s.syms| && SameRank(s, rank, i, n)
      ensures SiblingPart(i, ms + {n}) == SiblingPart(i, ms) + ({n} + Downstream(s, rank, n))
    {
      SameRankAs(i, n);
      hide *;
      forall y: nat ensures y in SiblingPart(i, ms + {n}) <==> y in SiblingPart(i, ms) || y in {n} + Downstream(s, rank, n) {
        AnotherSiblingAt(i, ms, n, y);
      }
      SameMembers(SiblingPart(i, ms + {n}), SiblingPart(i, ms), {n} + Downstream(s, rank, n));
    }

    /** `y` is the sibling `m` or downstream of it. */
    ghost predicate Across(i: nat, m: nat, y: nat) {
      Known(s) && Ranked(s, rank) && i < |s.syms| && SameRank(s, rank, i, m) && y in {m} + Downstream(s, rank, m)
    }

    lemma AnotherSiblingAt(i: nat, ms: set<nat>, n: nat, y: nat)
      requires Known(s) && Ranked(s, rank) && i < |s.syms| && SameRank(s, rank, i, n)
      ensures y in SiblingPart(i, ms + {n}) <==> y in SiblingPart(i, ms) || y in {n} + Downstream(s, rank, n)
    {
      AcrossItself(i, n, y);
      SiblingMember(i, ms, y);
      SiblingMember(i, ms + {n}, y);
      hide *;
      if Across(i, n, y) {
        assert n in ms + {n};
      } else if m :| m in ms && Across(i, m, y) {
        assert m in ms + {n};
      }
    }

    lemma AcrossItself(i: nat, n: nat, y: nat)
      requires Known(s) && Ranked(s, rank) && i < |s.syms| && SameRank(s, rank, i, n)
      ensures n < |s.syms| && (Across(i, n, y) <==> y in {n} + Downstream(s, rank, n))
    {
    }

    lemma SiblingMember(i: nat, ms: set<nat>, y: nat)
      requires Known(s) && Ranked(s, rank) && i < |s.syms|
      ensures y in SiblingPart(i, ms) <==> exists m :: m in ms && Across(i, m, y)
    {
    }

    /** Symbol._add_dependent_ignore_siblings */
    method AddDependentIgnoreSiblings(i: nat, to: set<nat>) returns (res: set<nat>)
      requires Known(s) && Ranked(s, rank) && DepsRight() && i < |s.syms|
      modifies `cachedDeps
      ensures DepsRight() && res == to + Downstream(s, rank, i)
      decreases MaxRank(rank) - rank[i], 0, 1
    {
      res := to;
      var todo := dep[i];
      ghost var done, all: set<nat> := {}, DirectDeps(s, i);
      NoDeps(i);
      hide *;
      while todo != {}
        invariant Known(s) && Ranked(s, rank) && DepsRight() && done + todo == all
        invariant res == to + DownstreamPart(i, done)
        decreases |todo|
      {
        var j :| j in todo;
        assert j in all && done <= all;
        res := AddDep(i, j, to, res, done);
        done := done + {j};
        todo := todo - {j};
      }
      assert done == all;
    }

    /** One round of the loop. */
    method AddDep(i: nat, j: nat, ghost to: set<nat>, res: set<nat>, ghost done: set<nat>) returns (r: set<nat>)
      requires Known(s) && Ranked(s, rank) && DepsRight() && i < |s.syms| && j in DirectDeps(s, i) && done <= DirectDeps(s, i)
      requires res == to + DownstreamPart(i, done)
      modifies `cachedDeps
      ensures DepsRight() && r == to + DownstreamPart(i, done + {j})
      decreases MaxRank(rank) - rank[i], 0, 0
    {
      BelowAll(i);
      hide *;
      var more := GetDependent(j);
      r := res + {j} + more;
      AnotherDep(i, done, j);
      UnionMoves(to, DownstreamPart(i, done), {j}, more);
    }

    lemma NoDeps(i: nat)
      requires Known(s) && Ranked(s, rank) && i < |s.syms|
      ensures DownstreamPart(i, {}) == {} && DownstreamPart(i, DirectDeps(s, i)) == Downstream(s, rank, i)
    {
    }

    lemma BelowAll(i: nat)
      requires Known(s) && Ranked(s, rank) && i < |s.syms|
      ensures forall j :: j in DirectDeps(s, i) ==> j < |s.syms| && rank[i] < rank[j] <= MaxRank(rank)
    {
      forall j | j in DirectDeps(s, i) ensures j < |s.syms| && rank[i] < rank[j] <= MaxRank(rank) {
        assert RankedSym(s, rank, j);
      }
    }

    ghost function DownstreamPart(i: nat, js: set<nat>): set<nat>
      requires Known(s) && Ranked(s, rank) && i < |s.syms| && js <= DirectDeps(s, i)
    {
      set j, y | j in js && RankedSym(s, rank, j) && y in {j} + Dependents(s, rank, j) :: y
    }

    lemma AnotherDep(i: nat, js: set<nat>, j: nat)
      requires Known(s) && Ranked(s, rank) && i < |s.syms| && js <= DirectDeps(s, i) && j in DirectDeps(s, i)
      ensures DownstreamPart(i, js + {j}) == DownstreamPart(i, js) + ({j} + Dependents(s, rank, j))
    {
      BelowAll(i);
      hide *;
      forall y: nat ensures y in DownstreamPart(i, js + {j}) <==> y in DownstreamPart(i, js) || y in {j} + Dependents(s, rank, j) {
        AnotherDepAt(i, js, j, y);
      }
      SameMembers(DownstreamPart(i, js + {j}), DownstreamPart(i, js), {j} + Dependents(s, rank, j));
    }

    lemma AnotherDepAt(i: nat, js: set<nat>, j: nat, y: nat)
      requires Known(s) && Ranked(s, rank) && i < |s.syms| && js <= DirectDeps(s, i) && j in DirectDeps(s, i)
      ensures y in DownstreamPart(i, js + {j}) <==> y in DownstreamPart(i, js) || y in {j} + Dependents(s, rank, j)
    {
      ThroughItself(i, j);
      DepMember(i, js, y);
      DepMember(i, js + {j}, y);
      hide *;
      if Through(j, y) {
        assert j in js + {j};
      } else if k :| k in js && Through(k, y) {
        assert k in js + {j};
      }
    }

    lemma SameMembers(a: set<nat>, b: set<nat>, c: set<nat>)
      requires forall y: nat :: y in a <==> y in b || y in c
      ensures a == b + c
    {
    }

    lemma UnionMoves(a: set<nat>, b: set<nat>, c: set<nat>, d: set<nat>)
      ensures a + b + c + d == a + (b + (c + d))
    {
    }

    /** `y` is `j` or depends on it. */
    ghost predicate Through(j: nat, y: nat)
    {
      Known(s) && Ranked(s, rank) && j < |s.syms| && y in {j} + Dependents(s, rank, j)
    }

    lemma ThroughItself(i: nat, j: nat)
      requires Known(s) && Ranked(s, rank) && i < |s.syms| && j in DirectDeps(s, i)
      ensures j < |s.syms| && forall y :: Through(j, y) <==> y in {j} + Dependents(s, rank, j)
    {
    }

    lemma DepMember(i: nat, js: set<nat>, y: nat)
      requires Known(s) && Ranked(s, rank) && i < |s.syms| && js <= DirectDeps(s, i)
      ensures y in DownstreamPart(i, js) <==> exists k :: k in js && Through(k, y)
    {
      if k :| k in js && Through(k, y) {
        assert RankedSym(s, rank, k);
      }
    }

    /** Symbol._invalidate */
    method Invalidate(i: nat, ghost xs: set<nat>, ghost before: seq<Cell>, ghost choicesBefore: seq<ChoiceCell>)
      requires Known(s) && i < |s.syms| && Dropped(s, xs, before, choicesBefore, cells, choiceCells)
      modifies `cells, `choiceCells
      ensures Dropped(s, xs + {i}, before, choicesBefore, cells, choiceCells)
    {
      assert KnownSym(s, i);
      if s.syms[i].special.Some? {
        SpecialApart(i, xs);
        return;
      }
      if s.syms[i].choice.Some? {
        var c := s.syms[i].choice.value;
        choiceCells := choiceCells[c := NOTHING];
      }
      cells := cells[i := EMPTY];
      OthersApart(i, xs);
    }

    lemma SpecialApart(i: nat, xs: set<nat>)
      requires Known(s) && i < |s.syms| && s.syms[i].special.Some?
      ensures forall c :: 0 <= c < |s.choices| ==> (Apart(s, c, xs + {i}) <==> Apart(s, c, xs))
    {
      assert KnownSym(s, i);
      OthersApart(i, xs);
    }

    lemma OthersApart(i: nat, xs: set<nat>)
      requires Known(s) && i < |s.syms|
      ensures forall c :: 0 <= c < |s.choices| ==>
                (Apart(s, c, xs + {i}) <==> Apart(s, c, xs) && s.syms[i].choice != Some(c))
    {
      assert KnownSym(s, i);
      forall c | 0 <= c < |s.choices| ensures Apart(s, c, xs + {i}) <==> Apart(s, c, xs) && s.syms[i].choice != Some(c) {
        assert KnownChoice(s, c);
        if s.syms[i].choice == Some(c) {
          assert i in s.choices[c].actual && i in xs + {i};
        } else if Apart(s, c, xs) {
          forall m | m in s.choices[c].actual ensures m !in xs + {i} {
          }
        }
      }
    }

    /** Symbol._invalidate_dependent, after Symbol._invalidate */
    method InvalidateDependent(i: nat, ghost before: seq<Cell>, ghost choicesBefore: seq<ChoiceCell>)
      requires Known(s) && Ranked(s, rank) && DepsRight() && i < |s.syms|
      requires Dropped(s, {i}, before, choicesBefore, cells, choiceCells)
      modifies `cells, `choiceCells, `cachedDeps
      ensures DepsRight() && Dropped(s, {i} + Dependents(s, rank, i), before, choicesBefore, cells, choiceCells)
    {
      var deps := GetDependent(i);
      DependentsClosed(s, rank, i);
      InvalidateEach(deps, {i}, before, choicesBefore);
    }

    method InvalidateEach(deps: set<nat>, ghost xs: set<nat>, ghost before: seq<Cell>, ghost choicesBefore: seq<ChoiceCell>)
      requires Known(s) && (forall j :: j in deps ==> j < |s.syms|)
      requires Dropped(s, xs, before, choicesBefore, cells, choiceCells)
      modifies `cells, `choiceCells
      ensures Dropped(s, xs + deps, before, choicesBefore, cells, choiceCells)
    {
      var todo := deps;
      ghost var done := xs;
      while todo != {}
        invariant done + todo == xs + deps && (forall j :: j in todo ==> j < |s.syms|)
        invariant Dropped(s, done, before, choicesBefore, cells, choiceCells)
        decreases |todo|
      {
        var j :| j in todo;
        Invalidate(j, done, before, choicesBefore);
        done := done + {j};
        todo := todo - {j};
      }
      assert done == xs + deps;
    }

    method InvalidateAll(ghost before: seq<Cell>, ghost choicesBefore: seq<ChoiceCell>) returns (ghost xs: set<nat>)
      requires Known(s) && Dropped(s, {}, before, choicesBefore, cells, choiceCells)
      modifies `cells, `choiceCells
      ensures forall j :: 0 <= j < |s.syms| ==> j in xs
      ensures Dropped(s, xs, before, choicesBefore, cells, choiceCells)
    {
      xs := {};
      for i := 0 to |s.syms|
        invariant forall j :: 0 <= j < i ==> j in xs
        invariant Dropped(s, xs, before, choicesBefore, cells, choiceCells)
      {
        Invalidate(i, xs, before, choicesBefore);
        xs := xs + {i};
      }
    }

    /** After everything was dropped nothing but the special symbols is cached. */
    lemma AllDropped(t: Setup, u: Entries, v: seq<Value>, xs: set<nat>, before: seq<Cell>, choicesBefore: seq<ChoiceCell>)
      requires Known(s) && Known(t) && t == Switched(s, t.modules) && KnownEntries(t, u) && |v| == |s.syms|
      requires Coherent(t, u, v, before, choicesBefore)
      requires forall j :: 0 <= j < |s.syms| ==> j in xs
      requires Dropped(s, xs, before, choicesBefore, cells, choiceCells)
      ensures Blank(now, cells, choiceCells) || now != Switched(s, now.modules)
    {
      if now == Switched(s, now.modules) {
        forall i | 0 <= i < |cells| ensures BlankCell(now.syms[i], cells[i]) {
          assert CellOk(t, u, v, i, before[i]) && KnownSym(t, i);
        }
        forall c | 0 <= c < |choiceCells| ensures choiceCells[c] == NOTHING {
          assert KnownChoice(s, c);
          assert s.choices[c].actual[0] in s.choices[c].actual;
        }
      }
    }

    // -------------------------------------------------------------- assignments

    /** New entries, and the answer of _has_modules that follows from them. */
    ghost method Renew()
      requires Known(s) && Ranked(s, rank) && KnownEntries(s, entries) && BoolEntries(s, entries) && Grounded(s, rank)
      modifies `now
      ensures Shaped() && now == Live(s, entries, rank)
    {
      now := Live(s, entries, rank);
      SwitchedKnown(s, now.modules);
    }

    /** What dropping the symbols of `xs` after a change of entries achieves. */
    lemma AfterChange(t: Setup, u: Entries, v: seq<Value>, i: nat, xs: set<nat>, before: seq<Cell>, choicesBefore: seq<ChoiceCell>)
      requires Sound() && i < |s.syms| && xs == {i} + Dependents(s, rank, i) && t == Switched(s, t.modules)
      requires Known(t) && KnownEntries(t, u) && KnownEntries(s, u) && Ranked(t, rank) && Solves(t, u, v)
      requires Coherent(t, u, v, before, choicesBefore) && ChangedAt(s, u, entries, i)
      requires Dropped(s, xs, before, choicesBefore, cells, choiceCells)
      ensures AllWatched(s, xs) && (now.modules == t.modules || Unseen(t, u, v, xs)) ==> Valid()
      ensures FullyCached(before, choicesBefore) ==> (Valid() <==> SameOutside(t, u, v, now, entries, Fresh(), xs))
    {
      FreshFits();
      DependentsClosed(s, rank, i);
      ChangedInside(s, u, entries, i, xs);
      SwitchedKnown(s, t.modules);
      assert Changed(t, u, v, now, entries, Fresh(), rank);
      DroppedAlike(t, xs, before, choicesBefore);
      hide Dependents, Live, FromScratch, AllWatched, Unseen, SameOutside, Dropped, Coherent;
      if AllWatched(s, xs) && (now.modules == t.modules || Unseen(t, u, v, xs)) {
        DiffersAlike(t, u, xs);
        Undisturbed(t, u, v, now, entries, Fresh(), rank, xs);
        CoherenceKept(t, u, v, now, entries, Fresh(), rank, xs, before, choicesBefore, cells, choiceCells);
      }
      if FullyCached(before, choicesBefore) {
        CoherenceExact(t, u, v, now, entries, Fresh(), rank, xs, before, choicesBefore, cells, choiceCells);
      }
    }

    lemma DroppedAlike(t: Setup, xs: set<nat>, before: seq<Cell>, choicesBefore: seq<ChoiceCell>)
      requires t == Switched(s, t.modules) && Dropped(s, xs, before, choicesBefore, cells, choiceCells)
      ensures Dropped(t, xs, before, choicesBefore, cells, choiceCells)
    {
      assert forall c :: 0 <= c < |s.choices| ==> (Apart(t, c, xs) <==> Apart(s, c, xs));
    }

    lemma DiffersAlike(t: Setup, u: Entries, xs: set<nat>)
      requires Shaped() && t == Switched(s, t.modules) && Known(t) && KnownEntries(t, u) && KnownEntries(s, u)
      requires DifferOnlyIn(s, u, entries, xs)
      ensures KnownEntries(t, entries) && DifferOnlyIn(t, u, entries, xs)
    {
      assert forall c :: 0 <= c < |s.choices| ==> (Apart(t, c, xs) <==> Apart(s, c, xs));
    }

    /** Symbol.set_user_value. All caches stay right, unless MODULES changes its value through
        another symbol while an evaluation elsewhere meets an `m`, or the default of a choice is
        visible by what no symbol of the choice reads; if everything was cached they stay right
        exactly if nothing changes outside the dependent symbols. */
    method SetUserValue(i: nat, text: string)
      requires Valid() && i < |s.syms|
      modifies `entries, `now, `cells, `choiceCells, `cachedDeps
      ensures Sound() && entries == Assigned(s, old(entries), i, text)
      ensures s.modulesSym == Some(i) ==> Valid() && Blank(now, cells, choiceCells)
      ensures s.modulesSym != Some(i) ==>
        var xs, t, u, v := {i} + Dependents(s, rank, i), old(now), old(entries), old(Fresh());
        && Dropped(s, xs, old(cells), old(choiceCells), cells, choiceCells)
        && (AllWatched(s, xs) && (now.modules == t.modules || Unseen(t, u, v, xs)) ==> Valid())
        && (FullyCached(old(cells), old(choiceCells)) ==> (Valid() <==> SameOutside(t, u, v, now, entries, Fresh(), xs)))
    {
      ghost var before, choicesBefore, t, u, v := cells, choiceCells, now, entries, Fresh();
      FreshFits();
      AssignedAt(u, i, text);
      assert KnownSym(s, i);
      hide Coherent, Dropped, SameOutside, Unseen, AllWatched, FromScratch, Live, Dependents, Grounded, BoolEntries, KnownSym, Blank, Assigned, ChangedAt, FullyCached, Solves, KnownEntries;
      entries := Assigned(s, entries, i, text);
      Renew();
      if s.syms[i].name == "MODULES" {
        ForgetAll(t, u, v);
      } else {
        Forget(i, before, choicesBefore);
        AfterChange(t, u, v, i, {i} + Dependents(s, rank, i), before, choicesBefore);
      }
    }

    /** Config._invalidate_all after a change of entries. */
    method ForgetAll(ghost t: Setup, ghost u: Entries, ghost v: seq<Value>)
      requires Sound() && Known(t) && t == Switched(s, t.modules) && KnownEntries(t, u) && |v| == |s.syms|
      requires Coherent(t, u, v, cells, choiceCells)
      modifies `cells, `choiceCells
      ensures Valid() && Blank(now, cells, choiceCells)
    {
      ghost var before, choicesBefore := cells, choiceCells;
      NoneDropped(before, choicesBefore);
      ghost var xs := InvalidateAll(before, choicesBefore);
      AllDropped(t, u, v, xs, before, choicesBefore);
      BlankIsCoherent(now, entries, Fresh(), cells, choiceCells);
    }

    /** Symbol._invalidate and Symbol._invalidate_dependent */
    method Forget(i: nat, ghost before: seq<Cell>, ghost choicesBefore: seq<ChoiceCell>)
      requires Known(s) && Ranked(s, rank) && DepsRight() && i < |s.syms|
      requires before == cells && choicesBefore == choiceCells && |cells| == |s.syms| && |choiceCells| == |s.choices|
      modifies `cells, `choiceCells, `cachedDeps
      ensures DepsRight() && Dropped(s, {i} + Dependents(s, rank, i), before, choicesBefore, cells, choiceCells)
    {
      NoneDropped(before, choicesBefore);
      Invalidate(i, {}, before, choicesBefore);
      assert {} + {i} == {i};
      InvalidateDependent(i, before, choicesBefore);
    }

    lemma NoneDropped(before: seq<Cell>, choicesBefore: seq<ChoiceCell>)
      requires |before| == |s.syms| && |choicesBefore| == |s.choices|
      ensures Dropped(s, {}, before, choicesBefore, before, choicesBefore)
    {
    }

    lemma AssignedAt(u: Entries, i: nat, text: string)
      requires Known(s) && KnownEntries(s, u) && i < |s.syms|
      ensures ChangedAt(s, u, Assigned(s, u, i, text), i) && ChangedAt(s, u, Unassigned(s, u, i), i)
      ensures BoolEntries(s, u) ==> BoolEntries(s, Assigned(s, u, i, text)) && BoolEntries(s, Unassigned(s, u, i))
    {
      assert KnownSym(s, i);
      TextsDiffer();
    }

    /** Symbol.unset_user_value, of MODULES like of any other symbol. */
    method UnsetUserValue(i: nat)
      requires Valid() && i < |s.syms|
      modifies `entries, `now, `cells, `choiceCells, `cachedDeps
      ensures Sound() && entries == Unassigned(s, old(entries), i)
      ensures var xs, t, u, v := {i} + Dependents(s, rank, i), old(now), old(entries), old(Fresh());
        && Dropped(s, xs, old(cells), old(choiceCells), cells, choiceCells)
        && (AllWatched(s, xs) && (now.modules == t.modules || Unseen(t, u, v, xs)) ==> Valid())
        && (FullyCached(old(cells), old(choiceCells)) ==> (Valid() <==> SameOutside(t, u, v, now, entries, Fresh(), xs)))
    {
      ghost var before, choicesBefore, t, u, v := cells, choiceCells, now, entries, Fresh();
      FreshFits();
      AssignedAt(u, i, "");
      hide Coherent, Dropped, SameOutside, Unseen, AllWatched, FromScratch, Live, Dependents, Grounded, BoolEntries, Unassigned, ChangedAt, FullyCached, Solves, KnownEntries;
      entries := Unassigned(s, entries, i);
      Renew();
      Forget(i, before, choicesBefore);
      AfterChange(t, u, v, i, {i} + Dependents(s, rank, i), before, choicesBefore);
    }

    /** Config.unset_user_values */
    method UnsetUserValues()
      requires Valid()
      modifies `entries, `now, `cells, `choiceCells
      ensures Valid() && entries == NoEntries(s) && Blank(now, cells, choiceCells)
    {
      ghost var before, choicesBefore, t, u, v := cells, choiceCells, now, entries, Fresh();
      NoneDropped(before, choicesBefore);
      ghost var xs := UnsetEach(before, choicesBefore);
      Renew();
      AllDropped(t, u, v, xs, before, choicesBefore);
      BlankIsCoherent(now, entries, Fresh(), cells, choiceCells);
    }

    method UnsetEach(ghost before: seq<Cell>, ghost choicesBefore: seq<ChoiceCell>) returns (ghost xs: set<nat>)
      requires Known(s) && KnownEntries(s, entries) && Dropped(s, {}, before, choicesBefore, cells, choiceCells)
      modifies `entries, `cells, `choiceCells
      ensures KnownEntries(s, entries) && entries == NoEntries(s)
      ensures forall j :: 0 <= j < |s.syms| ==> j in xs
      ensures Dropped(s, xs, before, choicesBefore, cells, choiceCells)
    {
      xs := {};
      for i := 0 to |s.syms|
        invariant KnownEntries(s, entries) && forall j :: 0 <= j < i ==> j in xs
        invariant forall j :: 0 <= j < i ==> entries.vals[j] == None && ChoiceUnset(entries, s.syms[j].choice)
        invariant Dropped(s, xs, before, choicesBefore, cells, choiceCells)
      {
        Invalidate(i, xs, before, choicesBefore);
        entries := Unassigned(s, entries, i);
        xs := xs + {i};
      }
      forall c | 0 <= c < |s.choices| ensures entries.picks[c] == None && entries.modes[c] == None {
        assert KnownChoice(s, c);
        assert s.syms[s.choices[c].actual[0]].choice == Some(c);
      }
    }

    ghost predicate ChoiceUnset(u: Entries, c: Option<nat>) {
      c.Some? && c.value < |u.picks| && c.value < |u.modes| ==> u.picks[c.value] == None && u.modes[c.value] == None
    }

    /** The assignments of Config.load_config, with `replace` as there. */
    method LoadConfig(lines: seq<(nat, string)>, replace: bool)
      requires Valid() && forall k :: 0 <= k < |lines| ==> lines[k].0 < |s.syms|
      modifies `entries, `now, `cells, `choiceCells
      ensures Valid()
      ensures entries == AssignedAll(s, if replace then NoEntries(s) else old(entries), lines)
    {
      if replace {
        UnsetUserValues();
      } else {
        ghost var before, choicesBefore, v := cells, choiceCells, Fresh();
        NoneDropped(before, choicesBefore);
        ghost var xs := InvalidateAll(before, choicesBefore);
        AllDropped(now, entries, v, xs, before, choicesBefore);
      }
      ghost var start := entries;
      for k := 0 to |lines|
        invariant KnownEntries(s, entries) && BoolEntries(s, entries) && Blank(s, cells, choiceCells)
        invariant AssignedAll(s, start, lines) == AssignedAll(s, entries, lines[k..])
      {
        AssignedAt(entries, lines[k].0, lines[k].1);
        entries := Assigned(s, entries, lines[k].0, lines[k].1);
      }
      Renew();
      BlankIsCoherent(now, entries, Fresh(), cells, choiceCells);
    }

    // -------------------------------------------------------------- construction

    constructor (s: Setup, ghost rank: Ranks)
      requires Known(s) && Ranked(s, rank) && Grounded(s, rank)
      ensures Valid() && this.s == s && this.rank == rank && entries == NoEntries(s) && Blank(s, cells, choiceCells)
    {
      this.s := s;
      this.rank := rank;
      now := s;
      entries := NoEntries(s);
      dep := seq(|s.syms|, i => {});
      cachedDeps := seq(|s.syms|, i => None);
      cells := seq(|s.syms|, i requires 0 <= i < |s.syms| => if s.syms[i].special.Some? then Cell(s.syms[i].special, false, None) else EMPTY);
      choiceCells := seq(|s.choices|, c => NOTHING);
      new;
      BuildDep();
      Renew();
      BlankIsCoherent(now, entries, Fresh(), cells, choiceCells);
    }

    ghost predicate Grown(before: seq<set<nat>>, after: seq<set<nat>>, xs: set<nat>, i: nat) {
      && |before| == |after| == |s.syms|
      && forall x :: 0 <= x < |before| ==> after[x] == before[x] + (if x in xs then {i} else {})
    }

    lemma GrownTwice(a: seq<set<nat>>, b: seq<set<nat>>, c: seq<set<nat>>, xs: set<nat>, ys: set<nat>, i: nat)
      requires Grown(a, b, xs, i) && Grown(b, c, ys, i)
      ensures Grown(a, c, xs + ys, i)
    {
    }

    lemma GrownAt(a: seq<set<nat>>, x: nat, i: nat)
      requires |a| == |s.syms| && x < |a|
      ensures Grown(a, a[x := a[x] + {i}], {x}, i)
    {
    }

    lemma NothingGrown(a: seq<set<nat>>, i: nat)
      requires |a| == |s.syms|
      ensures Grown(a, a, {}, i)
    {
    }

    /** add_expr_deps */
    method AddExprDeps(xs: set<nat>, i: nat)
      requires |dep| == |s.syms| && forall x :: x in xs ==> x < |s.syms|
      modifies `dep
      ensures Grown(old(dep), dep, xs, i)
    {
      var todo := xs;
      ghost var done: set<nat> := {};
      NothingGrown(dep, i);
      hide Grown;
      while todo != {}
        invariant |dep| == |s.syms| && done + todo == xs && Grown(old(dep), dep, done, i)
        decreases |todo|
      {
        var x :| x in todo;
        ghost var before := dep;
        dep := dep[x := dep[x] + {i}];
        GrownAt(before, x, i);
        GrownTwice(old(dep), before, dep, done, {x}, i);
        done := done + {x};
        todo := todo - {x};
      }
      assert done == xs;
    }

    method AddPromptDeps(ps: seq<Option<Formula>>, i: nat)
      requires |dep| == |s.syms| && forall x :: x in PromptRefs(ps) ==> x < |s.syms|
      modifies `dep
      ensures Grown(old(dep), dep, PromptRefs(ps), i)
    {
      for k := 0 to |ps|
        invariant Grown(old(dep), dep, PromptRefs(ps[..k]), i)
      {
        forall x | x in OptRefs(ps[k]) ensures x in PromptRefs(ps) {
        }
        AddExprDeps(OptRefs(ps[k]), i);
        assert PromptRefs(ps[..k + 1]) == PromptRefs(ps[..k]) + OptRefs(ps[k]);
      }
      assert ps[..|ps|] == ps;
    }

    method AddDefaultDeps(ds: seq<Default>, i: nat)
      requires |dep| == |s.syms| && forall x :: x in DefaultRefs(ds) ==> x < |s.syms|
      modifies `dep
      ensures Grown(old(dep), dep, DefaultRefs(ds), i)
    {
      NothingGrown(dep, i);
      assert DefaultRefs(ds[..0]) == {};
      hide Grown, DefaultRefs;
      for k := 0 to |ds|
        invariant Grown(old(dep), dep, DefaultRefs(ds[..k]), i)
      {
        OneMoreDefault(ds, k);
        GrownLength(old(dep), dep, DefaultRefs(ds[..k]), i);
        ghost var d0 := dep;
        AddExprDeps(Refs(ds[k].value), i);
        ghost var d1 := dep;
        GrownLength(d0, d1, Refs(ds[k].value), i);
        AddExprDeps(OptRefs(ds[k].cond), i);
        GrownTwice(old(dep), d0, d1, DefaultRefs(ds[..k]), Refs(ds[k].value), i);
        GrownTwice(old(dep), d1, dep, DefaultRefs(ds[..k]) + Refs(ds[k].value), OptRefs(ds[k].cond), i);
      }
      assert ds[..|ds|] == ds;
    }

    lemma OneMoreDefault(ds: seq<Default>, k: nat)
      requires k < |ds|
      ensures Refs(ds[k].value) + OptRefs(ds[k].cond) <= DefaultRefs(ds)
      ensures DefaultRefs(ds[..k + 1]) == DefaultRefs(ds[..k]) + Refs(ds[k].value) + OptRefs(ds[k].cond)
    {
      DefaultRefsAt(ds, k);
      assert DefaultRefs(ds[..k + 1]) == DefaultRefs(ds[..k]) + (Refs(ds[k].value) + OptRefs(ds[k].cond));
    }

    lemma GrownLength(a: seq<set<nat>>, b: seq<set<nat>>, xs: set<nat>, i: nat)
      requires Grown(a, b, xs, i)
      ensures |b| == |s.syms|
    {
    }

    lemma RangeRefsAt(rs: seq<Bounds>, k: nat)
      requires k < |rs|
      ensures OperandRefs(rs[k].low) + OperandRefs(rs[k].high) + OptRefs(rs[k].cond) <= RangeRefs(rs)
      ensures RangeRefs(rs[..k + 1]) == RangeRefs(rs[..k]) + OperandRefs(rs[k].low) + OperandRefs(rs[k].high) + OptRefs(rs[k].cond)
    {
      var refs := OperandRefs(rs[k].low) + OperandRefs(rs[k].high) + OptRefs(rs[k].cond);
      forall x | x in refs ensures x in RangeRefs(rs) {
      }
      assert RangeRefs(rs[..k + 1]) == RangeRefs(rs[..k]) + refs;
    }

    method AddRangeDeps(rs: seq<Bounds>, i: nat)
      requires |dep| == |s.syms| && forall x :: x in RangeRefs(rs) ==> x < |s.syms|
      modifies `dep
      ensures Grown(old(dep), dep, RangeRefs(rs), i)
    {
      NothingGrown(dep, i);
      assert RangeRefs(rs[..0]) == {};
      hide Grown, RangeRefs;
      for k := 0 to |rs|
        invariant Grown(old(dep), dep, RangeRefs(rs[..k]), i)
      {
        RangeRefsAt(rs, k);
        ghost var d0 := dep;
        AddExprDeps(OperandRefs(rs[k].low), i);
        ghost var d1 := dep;
        AddExprDeps(OperandRefs(rs[k].high), i);
        ghost var d2 := dep;
        AddExprDeps(OptRefs(rs[k].cond), i);
        GrownTwice(old(dep), d0, d1, RangeRefs(rs[..k]), OperandRefs(rs[k].low), i);
        GrownTwice(old(dep), d1, d2, RangeRefs(rs[..k]) + OperandRefs(rs[k].low), OperandRefs(rs[k].high), i);
        GrownTwice(old(dep), d2, dep, RangeRefs(rs[..k]) + OperandRefs(rs[k].low) + OperandRefs(rs[k].high), OptRefs(rs[k].cond), i);
      }
      assert rs[..|rs|] == rs;
    }

    method AddChoiceDefaultDeps(ds: seq<ChoiceDefault>, i: nat)
      requires |dep| == |s.syms| && forall x :: x in ChoiceDefaultRefs(ds) ==> x < |s.syms|
      modifies `dep
      ensures Grown(old(dep), dep, ChoiceDefaultRefs(ds), i)
    {
      for k := 0 to |ds|
        invariant Grown(old(dep), dep, ChoiceDefaultRefs(ds[..k]), i)
      {
        forall x | x in OptRefs(ds[k].cond) ensures x in ChoiceDefaultRefs(ds) {
        }
        AddExprDeps(OptRefs(ds[k].cond), i);
        assert ChoiceDefaultRefs(ds[..k + 1]) == ChoiceDefaultRefs(ds[..k]) + OptRefs(ds[k].cond);
      }
      assert ds[..|ds|] == ds;
    }

    ghost function DepsUpTo(x: nat, i: nat): set<nat>
      requires i <= |s.syms|
    {
      set j | 0 <= j < i && x in Reads(s, j)
    }

    /** Config._build_dep */
    method BuildDep()
      requires Known(s) && |dep| == |s.syms| && forall x :: 0 <= x < |dep| ==> dep[x] == {}
      modifies `dep
      ensures |dep| == |s.syms| && forall x :: 0 <= x < |dep| ==> dep[x] == DirectDeps(s, x)
    {
      for i := 0 to |s.syms|
        invariant |dep| == |s.syms| && forall x :: 0 <= x < |dep| ==> dep[x] == DepsUpTo(x, i)
      {
        assert KnownSym(s, i);
        ghost var before := dep;
        AddSymDeps(i);
        forall x | 0 <= x < |dep| ensures dep[x] == DepsUpTo(x, i + 1) {
          assert before[x] == DepsUpTo(x, i);
          DepsUpToNext(x, i);
        }
      }
      forall x | 0 <= x < |dep| ensures dep[x] == DirectDeps(s, x) {
        assert DepsUpTo(x, |s.syms|) == DirectDeps(s, x);
      }
    }

    lemma DepsUpToNext(x: nat, i: nat)
      requires i < |s.syms|
      ensures DepsUpTo(x, i + 1) == DepsUpTo(x, i) + (if x in Reads(s, i) then {i} else {})
    {
    }

    method AddSymDeps(i: nat)
      requires i < |s.syms| && KnownSym(s, i) && |dep| == |s.syms|
      modifies `dep
      ensures Grown(old(dep), dep, Reads(s, i), i)
    {
      hide PromptRefs, DefaultRefs, RangeRefs, ChoiceDefaultRefs;
      var d := s.syms[i];
      AddPromptDeps(d.prompts, i);
      AddDefaultDeps(d.defaults, i);
      AddExprDeps(Refs(d.revDep), i);
      AddRangeDeps(d.ranges, i);
      if d.choice.Some? {
        var c := s.choices[d.choice.value];
        AddPromptDeps(c.prompts, i);
        AddChoiceDefaultDeps(c.defaults, i);
      }
    }
  }
}
