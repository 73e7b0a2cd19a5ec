/** Which symbols kconfiglib.py drops from its caches when a user entry changes, and why these
    are enough: all other symbols keep their value. */
module Invalidation {
  import opened RankNumbers
  import opened Formulas
  import opened Kconfiglib

  /** Symbol.dep, as _build_dep leaves it. */
  function DirectDeps(s: Setup, x: nat): set<nat> {
    set i | 0 <= i < |s.syms| && x in Reads(s, i)
  }

  function Siblings(s: Setup, i: nat): set<nat>
    requires Known(s) && i < |s.syms|
  {
    assert KnownSym(s, i);
    if s.syms[i].choice.None? then {} else set m | m in s.choices[s.syms[i].choice.value].actual && m != i
  }

  /** _add_dependent_ignore_siblings */
  ghost function Downstream(s: Setup, rank: Ranks, i: nat): set<nat>
    requires Known(s) && Ranked(s, rank) && i < |s.syms|
    decreases MaxRank(rank) - rank[i], 0
  {
    set j, y | j in DirectDeps(s, i) && RankedSym(s, rank, j) && y in {j} + Dependents(s, rank, j) :: y
  }

  /** _get_dependent */
  ghost function Dependents(s: Setup, rank: Ranks, i: nat): set<nat>
    requires Known(s) && Ranked(s, rank) && i < |s.syms|
    decreases MaxRank(rank) - rank[i], 1
  {
    Downstream(s, rank, i) +
    set m, y | m in Siblings(s, i) && SameRank(s, rank, i, m) && y in {m} + Downstream(s, rank, m) :: y
  }

  predicate SameRank(s: Setup, rank: Ranks, i: nat, m: nat)
    requires i < |s.syms| && |rank| == |s.syms|
  {
    m < |s.syms| && rank[m] == rank[i]
  }

  lemma SiblingRank(s: Setup, rank: Ranks, i: nat, m: nat)
    requires Known(s) && Ranked(s, rank) && i < |s.syms| && m in Siblings(s, i)
    ensures SameRank(s, rank, i, m) && Siblings(s, m) == Siblings(s, i) - {m} + {i}
  {
    assert KnownSym(s, i);
    var c := s.syms[i].choice.value;
    MemberRank(s, rank, c, m);
    MemberRank(s, rank, c, i);
  }

  /** A set of symbols that holds whatever reads a symbol of it and all siblings of its symbols. */
  ghost predicate Closed(s: Setup, xs: set<nat>)
    requires Known(s)
  {
    && (forall x, y :: x in xs && y in DirectDeps(s, x) ==> y in xs)
    && (forall x, y :: x in xs && x < |s.syms| && y in Siblings(s, x) ==> y in xs)
  }

  /** A symbol together with its dependent symbols is closed. */
  lemma {:induction false} DependentsClosed(s: Setup, rank: Ranks, i: nat)
    requires Known(s) && Ranked(s, rank) && i < |s.syms|
    ensures Closed(s, {i} + Dependents(s, rank, i))
    ensures forall y :: y in Dependents(s, rank, i) ==> y < |s.syms|
  {
    var all := {i} + Dependents(s, rank, i);
    forall x | x in all ensures x < |s.syms| && DirectDeps(s, x) <= all && Siblings(s, x) <= all {
      DependentsClosedAt(s, rank, i, x);
    }
  }

  lemma {:induction false} DependentsClosedAt(s: Setup, rank: Ranks, i: nat, x: nat)
    requires Known(s) && Ranked(s, rank) && i < |s.syms| && x in {i} + Dependents(s, rank, i)
    ensures x < |s.syms| && DirectDeps(s, x) + Siblings(s, x) <= {i} + Dependents(s, rank, i)
    decreases MaxRank(rank) - rank[i], 1
  {
    hide Siblings, DirectDeps, Known, Ranked, RankedSym, Downstream, Dependents;
    SiblingsInDependents(s, rank, i);
    if x == i {
      DirectInDownstream(s, rank, i);
    } else if x in Downstream(s, rank, i) {
      DownstreamClosedAt(s, rank, i, x);
    } else {
      var m := ThroughSibling(s, rank, i, x);
      SiblingRank(s, rank, i, m);
      if x == m {
        DirectInDownstream(s, rank, m);
      } else {
        DownstreamClosedAt(s, rank, m, x);
      }
    }
  }

  lemma ThroughSibling(s: Setup, rank: Ranks, i: nat, x: nat) returns (m: nat)
    requires Known(s) && Ranked(s, rank) && i < |s.syms|
    requires x in Dependents(s, rank, i) && x !in Downstream(s, rank, i)
    ensures m in Siblings(s, i) && SameRank(s, rank, i, m) && x in {m} + Downstream(s, rank, m)
  {
    m :| m in Siblings(s, i) && SameRank(s, rank, i, m) && x in {m} + Downstream(s, rank, m);
  }

  lemma SiblingsInDependents(s: Setup, rank: Ranks, i: nat)
    requires Known(s) && Ranked(s, rank) && i < |s.syms|
    ensures Siblings(s, i) <= Dependents(s, rank, i) && Downstream(s, rank, i) <= Dependents(s, rank, i)
    ensures forall m :: m in Siblings(s, i) && m < |s.syms| ==> Downstream(s, rank, m) <= Dependents(s, rank, i)
  {
    forall m | m in Siblings(s, i) ensures m < |s.syms| && m in Dependents(s, rank, i) && Downstream(s, rank, m) <= Dependents(s, rank, i) {
      SiblingRank(s, rank, i, m);
      forall y | y in {m} + Downstream(s, rank, m) ensures y in Dependents(s, rank, i) {
      }
    }
  }

  lemma DirectInDownstream(s: Setup, rank: Ranks, i: nat)
    requires Known(s) && Ranked(s, rank) && i < |s.syms|
    ensures DirectDeps(s, i) <= Downstream(s, rank, i)
  {
    forall j | j in DirectDeps(s, i) ensures j in Downstream(s, rank, i) {
      assert RankedSym(s, rank, j);
      assert j in {j} + Dependents(s, rank, j);
    }
  }

  lemma {:induction false} DownstreamClosedAt(s: Setup, rank: Ranks, i: nat, x: nat)
    requires Known(s) && Ranked(s, rank) && i < |s.syms| && x in Downstream(s, rank, i)
    ensures x < |s.syms| && DirectDeps(s, x) + Siblings(s, x) <= Downstream(s, rank, i)
    decreases MaxRank(rank) - rank[i], 0
  {
    var j :| j in DirectDeps(s, i) && RankedSym(s, rank, j) && x in {j} + Dependents(s, rank, j);
    DependentsClosedAt(s, rank, j, x);
    forall y | y in {j} + Dependents(s, rank, j) ensures y in Downstream(s, rank, i) {
    }
  }

  /** And the least such set: nothing is dropped without need. */
  lemma {:induction false} DependentsLeast(s: Setup, rank: Ranks, i: nat, zs: set<nat>)
    requires Known(s) && Ranked(s, rank) && i < |s.syms| && Closed(s, zs) && i in zs
    ensures Dependents(s, rank, i) <= zs
    decreases MaxRank(rank) - rank[i], 1
  {
    DownstreamLeast(s, rank, i, zs);
    forall x | x in Dependents(s, rank, i) && x !in Downstream(s, rank, i) ensures x in zs {
      var m := ThroughSibling(s, rank, i, x);
      DownstreamLeast(s, rank, m, zs);
    }
  }

  lemma {:induction false} DownstreamLeast(s: Setup, rank: Ranks, i: nat, zs: set<nat>)
    requires Known(s) && Ranked(s, rank) && i < |s.syms| && Closed(s, zs) && i in zs
    ensures Downstream(s, rank, i) <= zs
    decreases MaxRank(rank) - rank[i], 0
  {
    forall x | x in Downstream(s, rank, i) ensures x in zs {
      var j :| j in DirectDeps(s, i) && RankedSym(s, rank, j) && x in {j} + Dependents(s, rank, j);
      DependentsLeast(s, rank, j, zs);
    }
  }

  // ---------------------------------------------------------------- what a change leaves alone

  /** Two entries differ only at symbols of `xs`, and at choices with an actual symbol in `xs`. */
  ghost predicate DifferOnlyIn(s: Setup, u: Entries, u1: Entries, xs: set<nat>)
    requires Known(s) && KnownEntries(s, u) && KnownEntries(s, u1)
  {
    && (forall i :: 0 <= i < |s.syms| && i !in xs ==> u.vals[i] == u1.vals[i])
    && (forall c :: 0 <= c < |s.choices| && Apart(s, c, xs) ==> SameChoiceEntry(u, u1, c))
  }

  ghost predicate Apart(s: Setup, c: nat, xs: set<nat>)
    requires c < |s.choices|
  {
    forall m :: m in s.choices[c].actual ==> m !in xs
  }

  /** What the visibilities of the defaults of a choice are computed from lies outside `xs`. */
  ghost predicate Watched(s: Setup, c: nat, xs: set<nat>)
    requires c < |s.choices|
  {
    forall k :: 0 <= k < |s.choices[c].defaults| && s.choices[c].defaults[k].sym < |s.syms| ==>
      VisRefs(s, s.choices[c].defaults[k].sym) !! xs
  }

  ghost predicate AllWatched(s: Setup, xs: set<nat>) {
    forall c :: 0 <= c < |s.choices| && Apart(s, c, xs) ==> Watched(s, c, xs)
  }

  /** Whatever the visibility of a choice default is computed from, an actual symbol reads too. */
  ghost predicate Tracked(s: Setup, c: nat)
    requires Known(s) && c < |s.choices|
  {
    forall k, x :: 0 <= k < |s.choices[c].defaults| && x in DefaultVisRefs(s, c, k) ==> ReadInside(s, c, x)
  }

  function DefaultVisRefs(s: Setup, c: nat, k: nat): set<nat>
    requires Known(s) && c < |s.choices| && k < |s.choices[c].defaults|
  {
    assert KnownChoice(s, c);
    VisRefs(s, s.choices[c].defaults[k].sym)
  }

  ghost predicate ReadInside(s: Setup, c: nat, x: nat)
    requires c < |s.choices|
  {
    exists m :: m in s.choices[c].actual && m < |s.syms| && x in Reads(s, m)
  }

  /** Choices whose defaults name actual symbols are tracked. */
  lemma MemberDefaultsTracked(s: Setup, c: nat)
    requires Known(s) && c < |s.choices|
    requires forall k :: 0 <= k < |s.choices[c].defaults| ==> s.choices[c].defaults[k].sym in s.choices[c].actual
    ensures Tracked(s, c)
  {
    forall k, x | 0 <= k < |s.choices[c].defaults| && x in DefaultVisRefs(s, c, k) ensures ReadInside(s, c, x) {
      var m := s.choices[c].defaults[k].sym;
      assert KnownChoice(s, c) && m in s.choices[c].actual && x in Reads(s, m);
    }
  }

  /** In a tracked setup dropping the dependent symbols also drops every selection that can change. */
  lemma TrackedIsWatched(s: Setup, xs: set<nat>)
    requires Known(s) && Closed(s, xs) && forall c :: 0 <= c < |s.choices| ==> Tracked(s, c)
    ensures AllWatched(s, xs)
  {
    forall c | 0 <= c < |s.choices| && Apart(s, c, xs) ensures Watched(s, c, xs) {
      assert Tracked(s, c);
      forall k | 0 <= k < |s.choices[c].defaults| && s.choices[c].defaults[k].sym < |s.syms|
        ensures VisRefs(s, s.choices[c].defaults[k].sym) !! xs
      {
        forall x | x in DefaultVisRefs(s, c, k) ensures x !in xs {
          assert ReadInside(s, c, x);
          var m :| m in s.choices[c].actual && m < |s.syms| && x in Reads(s, m);
          assert m in DirectDeps(s, x);
        }
      }
    }
  }

  lemma ChoiceApart(s: Setup, xs: set<nat>, i: nat)
    requires Known(s) && Closed(s, xs) && i < |s.syms| && i !in xs && s.syms[i].choice.Some?
    ensures s.syms[i].choice.value < |s.choices| && Apart(s, s.syms[i].choice.value, xs)
  {
    assert KnownSym(s, i);
    var c := s.syms[i].choice.value;
    assert KnownChoice(s, c);
    forall m | m in s.choices[c].actual ensures m !in xs {
      assert m != i ==> i in Siblings(s, m);
    }
  }

  lemma ReadsApart(s: Setup, xs: set<nat>, i: nat)
    requires Known(s) && Closed(s, xs) && i < |s.syms| && i !in xs
    ensures Reads(s, i) !! xs
  {
    forall x | x in Reads(s, i) ensures x !in xs {
      assert i in DirectDeps(s, x);
    }
  }

  lemma SameInputsApart(s: Setup, u: Entries, u1: Entries, xs: set<nat>, rank: Ranks, i: nat, v: seq<Value>, w: seq<Value>)
    requires Known(s) && KnownEntries(s, u) && KnownEntries(s, u1) && Ranked(s, rank)
    requires Closed(s, xs) && AllWatched(s, xs) && DifferOnlyIn(s, u, u1, xs) && i < |s.syms| && i !in xs
    requires SameApart(rank, xs, v, w, rank[i])
    ensures SameInputs(s, u, u1, i, v, w)
  {
    assert KnownSym(s, i);
    SameReadsApart(s, xs, rank, i, v, w);
    if s.syms[i].choice.Some? {
      var c := s.syms[i].choice.value;
      ChoiceApart(s, xs, i);
      MemberRank(s, rank, c, i);
      SameAroundApart(s, xs, rank, c, v, w);
    }
  }

  /** Symbols below rank `r` and outside `xs` have the same values. */
  predicate SameApart(rank: Ranks, xs: set<nat>, v: seq<Value>, w: seq<Value>, r: nat) {
    |v| == |w| == |rank| && forall j :: 0 <= j < |rank| && rank[j] < r && j !in xs ==> v[j] == w[j]
  }

  lemma SameAroundApart(s: Setup, xs: set<nat>, rank: Ranks, c: nat, v: seq<Value>, w: seq<Value>)
    requires Known(s) && Ranked(s, rank) && c < |s.choices| && Closed(s, xs) && Apart(s, c, xs) && Watched(s, c, xs)
    requires SameApart(rank, xs, v, w, ChoiceRank(s, rank, c))
    ensures SameAround(s, c, v, w)
  {
    var d := s.choices[c];
    assert KnownChoice(s, c) && RankedChoice(s, rank, c);
    forall m | m in d.actual && m < |s.syms| ensures SameOn(Reads(s, m), v, w) {
      MemberRank(s, rank, c, m);
      SameReadsApart(s, xs, rank, m, v, w);
    }
    forall k | 0 <= k < |d.defaults| ensures DefaultSeenAlike(s, d.defaults[k].sym, v, w) {
      assert d.actual[0] in d.actual;
      assert DefaultBelow(s, rank, d.defaults[k].sym, d.actual[0]);
    }
  }

  lemma SameReadsApart(s: Setup, xs: set<nat>, rank: Ranks, i: nat, v: seq<Value>, w: seq<Value>)
    requires Known(s) && Ranked(s, rank) && Closed(s, xs) && i < |s.syms| && i !in xs
    requires SameApart(rank, xs, v, w, rank[i])
    ensures SameOn(Reads(s, i), v, w)
  {
    ReadsApart(s, xs, i);
    assert RankedSym(s, rank, i);
  }

  /** Symbols outside a closed set keep their value when entries change only inside it. */
  lemma {:induction false} UnaffectedBelow(s: Setup, u: Entries, u1: Entries, xs: set<nat>, rank: Ranks, v: seq<Value>, w: seq<Value>, r: nat)
    requires Known(s) && KnownEntries(s, u) && KnownEntries(s, u1) && Ranked(s, rank)
    requires Closed(s, xs) && AllWatched(s, xs) && DifferOnlyIn(s, u, u1, xs) && Solves(s, u, v) && Solves(s, u1, w)
    ensures forall i :: 0 <= i < |s.syms| && rank[i] < r && i !in xs ==> v[i] == w[i]
  {
    if r > 0 {
      UnaffectedBelow(s, u, u1, xs, rank, v, w, r - 1);
      forall i | 0 <= i < |s.syms| && rank[i] < r && i !in xs ensures v[i] == w[i] {
        SameInputsApart(s, u, u1, xs, rank, i, v, w);
        ValueAgrees(s, u, u1, i, v, w);
      }
    }
  }

  /** What Symbol._invalidate forgets can change; nothing else does. */
  lemma Unaffected(s: Setup, u: Entries, u1: Entries, xs: set<nat>, rank: Ranks, v: seq<Value>, w: seq<Value>, i: nat)
    requires Known(s) && KnownEntries(s, u) && KnownEntries(s, u1) && Ranked(s, rank)
    requires Closed(s, xs) && AllWatched(s, xs) && DifferOnlyIn(s, u, u1, xs) && Solves(s, u, v) && Solves(s, u1, w)
    requires i < |s.syms| && i !in xs
    ensures ValueOf(s, u, i, v) == ValueOf(s, u1, i, w) && Visibility(s, i, v) == Visibility(s, i, w)
  {
    UnaffectedBelow(s, u, u1, xs, rank, v, w, MaxRank(rank) + 1);
    SameInputsApart(s, u, u1, xs, rank, i, v, w);
    ValueAgrees(s, u, u1, i, v, w);
    VisibilityAgrees(s, i, v, w);
  }

  lemma UnaffectedChoice(s: Setup, u: Entries, u1: Entries, xs: set<nat>, rank: Ranks, v: seq<Value>, w: seq<Value>, c: nat)
    requires Known(s) && KnownEntries(s, u) && KnownEntries(s, u1) && Ranked(s, rank)
    requires Closed(s, xs) && AllWatched(s, xs) && DifferOnlyIn(s, u, u1, xs) && Solves(s, u, v) && Solves(s, u1, w)
    requires c < |s.choices| && Apart(s, c, xs)
    ensures ChoiceVisibility(s, c, v) == ChoiceVisibility(s, c, w) && Selection(s, u, c, v) == Selection(s, u1, c, w)
  {
    assert KnownChoice(s, c);
    UnaffectedBelow(s, u, u1, xs, rank, v, w, MaxRank(rank) + 1);
    SameAroundApart(s, xs, rank, c, v, w);
    ChoiceAgrees(s, u, u1, c, v, w);
  }
}
