/** Whole runs of assignments and questions against one Config: every answer is the one that
    evaluation from scratch gives at that moment. */
module KconfiglibRuns {
  import opened RankNumbers
  import opened Expressions
  import opened Formulas
  import opened Kconfiglib
  import opened Invalidation
  import opened Assignments
  import opened ModulesSymbol
  import opened KconfiglibCache

  datatype Step = SetValue(i: nat, text: string) | UnsetValue(i: nat) | GetValue(i: nat)

  /** The entries after a step. */
  function After(s: Setup, u: Entries, step: Step): (r: Entries)
    requires Known(s) && KnownEntries(s, u) && step.i < |s.syms|
    ensures KnownEntries(s, r)
  {
    match step
    case SetValue(i, text) => Assigned(s, u, i, text)
    case UnsetValue(i) => Unassigned(s, u, i)
    case GetValue(_) => u
  }

  /** The answers of a run, each by evaluation from scratch under the entries made before it. */
  ghost function Answers(s: Setup, rank: Ranks, u: Entries, steps: seq<Step>): seq<Value>
    requires Known(s) && |rank| == |s.syms| && KnownEntries(s, u)
    requires forall k :: 0 <= k < |steps| ==> steps[k].i < |s.syms|
    decreases |steps|
  {
    if steps == [] then []
    else (if steps[0].GetValue? then [ValueFromScratch(s, rank, u, steps[0].i)] else []) +
         Answers(s, rank, After(s, u, steps[0]), steps[1..])
  }

  ghost function ValueFromScratch(s: Setup, rank: Ranks, u: Entries, i: nat): Value
    requires Known(s) && |rank| == |s.syms| && KnownEntries(s, u) && i < |s.syms|
  {
    var t := Live(s, u, rank);
    SwitchedKnown(s, t.modules);
    FromScratch(t, u, rank)[i]
  }

  /** A step after which dropping the dependent symbols is enough: set_user_value of MODULES, or an
      assignment to a symbol that MODULES does not depend on. */
  ghost predicate Safe(s: Setup, rank: Ranks, step: Step)
    requires Known(s) && Ranked(s, rank)
  {
    step.i < |s.syms| &&
    match step
    case SetValue(i, _) => s.modulesSym == Some(i) || Spared(s, rank, i)
    case UnsetValue(i) => Spared(s, rank, i)
    case GetValue(_) => true
  }

  ghost predicate Spared(s: Setup, rank: Ranks, i: nat)
    requires Known(s) && Ranked(s, rank) && i < |s.syms|
  {
    s.modulesSym.Some? ==> s.modulesSym.value !in {i} + Dependents(s, rank, i)
  }

  /** An assignment to a symbol that MODULES does not depend on leaves _has_modules as it is. */
  lemma ModulesKept(s: Setup, u: Entries, u1: Entries, rank: Ranks, i: nat)
    requires Known(s) && Ranked(s, rank) && KnownEntries(s, u) && KnownEntries(s, u1) && i < |s.syms|
    requires ChangedAt(s, u, u1, i) && Spared(s, rank, i) && forall c :: 0 <= c < |s.choices| ==> Tracked(s, c)
    ensures Live(s, u, rank) == Live(s, u1, rank)
    ensures AllWatched(s, {i} + Dependents(s, rank, i))
  {
    var xs, off := {i} + Dependents(s, rank, i), Switched(s, false);
    DependentsClosed(s, rank, i);
    ChangedInside(s, u, u1, i, xs);
    TrackedIsWatched(s, xs);
    SwitchedKnown(s, false);
    assert forall c :: 0 <= c < |s.choices| ==> (Apart(off, c, xs) <==> Apart(s, c, xs));
    if s.modulesSym.Some? {
      FromScratchSolves(off, u, rank);
      FromScratchSolves(off, u1, rank);
      assert DifferOnlyIn(off, u, u1, xs);
      Unaffected(off, u, u1, xs, rank, FromScratch(off, u, rank), FromScratch(off, u1, rank), s.modulesSym.value);
    }
  }

  /** One assignment of a run. */
  method Assign(c: Config, step: Step)
    requires c.Valid() && Safe(c.s, c.rank, step) && !step.GetValue? && forall k :: 0 <= k < |c.s.choices| ==> Tracked(c.s, k)
    modifies c
    ensures c.Valid() && KnownEntries(c.s, old(c.entries)) && c.entries == After(c.s, old(c.entries), step)
  {
    ghost var s, rank, u, i := c.s, c.rank, c.entries, step.i;
    c.AssignedAt(u, i, if step.SetValue? then step.text else "");
    if Spared(s, rank, i) {
      ModulesKept(s, u, After(s, u, step), rank, i);
    }
    hide Dependents, Live, AllWatched, SameOutside, Dropped, Unseen;
    match step
    case SetValue(_, text) => c.SetUserValue(step.i, text);
    case UnsetValue(_) => c.UnsetUserValue(step.i);
  }

  lemma AnswersStep(s: Setup, rank: Ranks, u: Entries, steps: seq<Step>)
    requires Known(s) && |rank| == |s.syms| && KnownEntries(s, u) && steps != []
    requires forall k :: 0 <= k < |steps| ==> steps[k].i < |s.syms|
    ensures Answers(s, rank, u, steps) ==
            (if steps[0].GetValue? then [ValueFromScratch(s, rank, u, steps[0].i)] else []) +
            Answers(s, rank, After(s, u, steps[0]), steps[1..])
    ensures steps[0].GetValue? ==> After(s, u, steps[0]) == u
  {
  }

  /** get_value in a run. */
  method Ask(c: Config, i: nat) returns (val: Value)
    requires c.Valid() && i < |c.s.syms|
    modifies c`cells, c`choiceCells
    ensures c.Valid() && KnownEntries(c.s, c.entries) && val == ValueFromScratch(c.s, c.rank, c.entries, i)
  {
    val := c.Value(i);
  }

  /** Every step may be taken. */
  ghost predicate AllSafe(s: Setup, rank: Ranks, steps: seq<Step>) {
    && Known(s) && Ranked(s, rank) && (forall c :: 0 <= c < |s.choices| ==> Tracked(s, c))
    && forall k :: 0 <= k < |steps| ==> steps[k].i < |s.syms| && Safe(s, rank, steps[k])
  }

  lemma AllSafeRest(s: Setup, rank: Ranks, steps: seq<Step>)
    requires AllSafe(s, rank, steps) && steps != []
    ensures AllSafe(s, rank, steps[1..]) && Safe(s, rank, steps[0]) && steps[0].i < |s.syms|
  {
  }

  /** Over every run of such steps, in whatever order. */
  method Run(c: Config, steps: seq<Step>) returns (answers: seq<Value>)
    requires c.Valid() && AllSafe(c.s, c.rank, steps)
    modifies c
    ensures c.Valid() && KnownEntries(c.s, old(c.entries)) && answers == Answers(c.s, c.rank, old(c.entries), steps)
    decreases |steps|
  {
    if steps == [] {
      return [];
    }
    AllSafeRest(c.s, c.rank, steps);
    assert KnownEntries(c.s, c.entries);
    AnswersStep(c.s, c.rank, c.entries, steps);
    hide Answers, Safe, Dependents, Live, Tracked;
    answers := [];
    if steps[0].GetValue? {
      var val := Ask(c, steps[0].i);
      answers := [val];
    } else {
      Assign(c, steps[0]);
    }
    var more := Run(c, steps[1..]);
    answers := answers + more;
  }
}
