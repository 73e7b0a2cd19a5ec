/** sym_check_deps: the search for recursive dependencies that conf_parse runs over all symbols of a
    tree without choices. */
module Recursion {
  import opened Expressions
  import R = Ranking
  import S = Semantics

  datatype Kind = Prompt | DefaultValue | Select | RangeOf | OtherProperty

  /** struct property: `visible` is its condition, `expr` its value. */
  datatype Property = Property(kind: Kind, visible: Option<Expr>, expr: Option<Expr>)

  /** What the search looks at in a symbol. */
  datatype Node = Node(revDep: Option<Expr>, props: seq<Property>)

  type Graph = seq<Node>

  // ---------------------------------------------------------------- dependencies and cycles

  /** The symbols a property refers to: its condition, and the value of a default. Selects count
      for the selected symbol, and the bounds of a range do not count at all. */
  function PropertyDeps(p: Property): set<Symbol> {
    if p.kind.Select? then {}
    else OptSymbols(p.visible) + (if p.kind.DefaultValue? then OptSymbols(p.expr) else {})
  }

  function PropertiesDeps(ps: seq<Property>): set<Symbol> {
    if ps == [] then {} else PropertyDeps(ps[0]) + PropertiesDeps(ps[1..])
  }

  function Deps(g: Graph, x: nat): set<Symbol>
    requires x < |g|
  {
    OptSymbols(g[x].revDep) + PropertiesDeps(g[x].props)
  }

  predicate Edge(g: Graph, x: nat, y: nat) {
    x < |g| && exists s :: s in Deps(g, x) && s.Config? && s.id == y
  }

  ghost predicate Closed(g: Graph) {
    forall x: nat, y: nat :: Edge(g, x, y) ==> y < |g|
  }

  /** Each symbol of the chain depends on the next. */
  predicate Chain(g: Graph, c: seq<nat>) {
    forall k :: 0 <= k < |c| - 1 ==> Edge(g, c[k], c[k + 1])
  }

  predicate IsCycle(g: Graph, c: seq<nat>) {
    c != [] && Chain(g, c) && Edge(g, c[|c| - 1], c[0])
  }

  /** Every symbol ranks above what it depends on. */
  ghost predicate RankedBy(g: Graph, rank: seq<nat>) {
    |rank| == |g| && forall x: nat, y: nat :: Edge(g, x, y) ==> y < |rank| && rank[y] < rank[x]
  }

  lemma {:induction false} ChainDescends(g: Graph, rank: seq<nat>, c: seq<nat>)
    requires RankedBy(g, rank) && Chain(g, c) && c != [] && (forall k :: 0 <= k < |c| ==> c[k] < |g|)
    ensures |c| > 1 ==> rank[c[|c| - 1]] < rank[c[0]]
  {
    if |c| > 1 {
      assert Edge(g, c[0], c[1]);
      ChainDescends(g, rank, c[1..]);
    }
  }

  /** A graph with ranks has no cycle. */
  lemma RankedHasNoCycle(g: Graph, rank: seq<nat>, c: seq<nat>)
    requires RankedBy(g, rank)
    ensures !IsCycle(g, c)
  {
    if IsCycle(g, c) {
      forall k | 0 <= k < |c| ensures c[k] < |g| {
        assert k < |c| - 1 ==> Edge(g, c[k], c[k + 1]);
      }
      ChainDescends(g, rank, c);
    }
  }

  lemma {:induction false} PropertyIn(ps: seq<Property>, k: nat)
    requires k < |ps|
    ensures PropertyDeps(ps[k]) <= PropertiesDeps(ps)
    ensures PropertiesDeps(ps[..k + 1]) == PropertiesDeps(ps[..k]) + PropertyDeps(ps[k])
  {
    if k > 0 {
      PropertyIn(ps[1..], k - 1);
      assert ps[1..][..k - 1] == ps[..k][1..];
      assert ps[1..][..k] == ps[..k + 1][1..];
    } else {
      assert ps[..1] == [ps[0]] && ps[..0] == [];
    }
  }

  // ---------------------------------------------------------------- the search

  /** The path from a symbol on that the last one depends on. */
  lemma SuffixIsCycle(g: Graph, path: seq<nat>, k: nat)
    requires k < |path| && Chain(g, path) && Edge(g, path[|path| - 1], path[k])
    ensures IsCycle(g, path[k..])
  {
    var c := path[k..];
    forall j | 0 <= j < |c| - 1 ensures Edge(g, c[j], c[j + 1]) {
      assert Edge(g, path[k + j], path[k + j + 1]);
    }
  }

  class Checker {
    const g: Graph
    /** SYMBOL_CHECK and SYMBOL_CHECKED of each symbol. */
    var check: seq<bool>
    var checked: seq<bool>
    /** The symbols of the dep_stack entries, check_top last. */
    var stack: seq<nat>
    /** The cycles that sym_check_print_recursive has printed. */
    var reports: seq<seq<nat>>
    /** The order in which symbols were finished. */
    ghost var rank: seq<nat>
    ghost var clock: nat

    /** SYMBOL_CHECK marks exactly the symbols of the stack, and each of them depends on the next. */
    ghost predicate OnPath()
      reads this
    {
      && |check| == |checked| == |rank| == |g|
      && (forall k :: 0 <= k < |stack| ==> stack[k] < |g|)
      && (forall i :: 0 <= i < |g| ==> (check[i] <==> i in stack))
      && (forall i :: 0 <= i < |g| ==> check[i] ==> checked[i])
      && Chain(g, stack)
      && (forall j, k :: 0 <= j < k < |stack| ==> stack[j] != stack[k])
    }

    ghost predicate Done(i: nat)
      requires |check| == |checked| == |g| && i < |g|
      reads this
    {
      checked[i] && !check[i]
    }

    ghost predicate AllDone(ss: set<Symbol>)
      requires |check| == |checked| == |g|
      reads this
    {
      forall s :: s in ss && s.Config? ==> s.id < |g| && Done(s.id)
    }

    /** What a finished symbol depends on was finished before. */
    ghost predicate Finished()
      requires OnPath()
      reads this
    {
      forall i :: 0 <= i < |g| && Done(i) ==>
        rank[i] < clock && forall j: nat :: Edge(g, i, j) ==> j < |g| && Done(j) && rank[j] < rank[i]
    }

    ghost predicate Valid()
      reads this
    {
      && Closed(g) && OnPath()
      && (forall k :: 0 <= k < |reports| ==> IsCycle(g, reports[k]))
      && (reports == [] ==> Finished())
    }

    /** What no call undoes. */
    twostate predicate Kept()
      reads this
    {
      && stack == old(stack) && check == old(check) && |checked| == |old(checked)|
      && (forall i :: 0 <= i < |checked| && old(checked[i]) ==> checked[i])
      && old(reports) <= reports
    }

    ghost function Unchecked(): set<nat>
      reads this
    {
      set i | 0 <= i < |checked| && !checked[i]
    }

    /** sym_check_print_recursive. The search for `last` on the stack never fails. */
    method PrintRecursive(last: nat)
      requires Valid() && last in stack && Edge(g, stack[|stack| - 1], last)
      modifies `reports
      ensures Valid() && |reports| == |old(reports)| + 1 && old(reports) <= reports
      ensures last in reports[|reports| - 1]
    {
      hide IsCycle, Chain, Edge, Closed;
      var k: nat := |stack|;
      while k > 0 && stack[k - 1] != last
        invariant k <= |stack| && last in stack[..k]
      {
        assert stack[..k] == stack[..k - 1] + [stack[k - 1]];
        k := k - 1;
      }
      var cycle := stack[k - 1..];
      SuffixIsCycle(g, stack, k - 1);
      assert cycle[0] == last;
      reports := reports + [cycle];
    }

    /** sym_check_expr_deps, for an expression of the symbol on top of the stack */
    method CheckExprDeps(e: Expr) returns (r: Option<nat>)
      requires Valid() && stack != []
      requires Symbols(e) <= Deps(g, stack[|stack| - 1])
      modifies this
      ensures Valid() && Kept()
      ensures r.Some? ==> r.value < |g| && check[r.value] && reports != []
      ensures reports == [] ==> AllDone(Symbols(e))
      decreases |Unchecked()|, 1, e
    {
      if e.Sym? {
        r := CheckSymbol(e.s);
      } else if e.Not? {
        r := CheckExprDeps(e.e);
      } else if e.Equal? || e.Unequal? {
        assert e.left in Symbols(e) && e.right in Symbols(e);
        r := CheckSymbol(e.left);
        if r.Some? {
          return;
        }
        FewerUnchecked();
        r := CheckSymbol(e.right);
      } else {
        r := CheckExprDeps(e.l);
        if r.Some? {
          return;
        }
        FewerUnchecked();
        r := CheckExprDeps(e.r);
      }
    }

    /** Constants have no properties, so nothing depends on checking them. */
    method CheckSymbol(s: Symbol) returns (r: Option<nat>)
      requires Valid() && stack != [] && s in Deps(g, stack[|stack| - 1])
      modifies this
      ensures Valid() && Kept()
      ensures r.Some? ==> r.value < |g| && check[r.value] && reports != []
      ensures reports == [] && s.Config? ==> s.id < |g| && Done(s.id)
      decreases |Unchecked()|, 0, 1
    {
      r := None;
      if s.Config? {
        assert Edge(g, stack[|stack| - 1], s.id);
        r := CheckDeps(s.id);
      }
    }

    method CheckOptDeps(e: Option<Expr>) returns (r: Option<nat>)
      requires Valid() && stack != []
      requires OptSymbols(e) <= Deps(g, stack[|stack| - 1])
      modifies this
      ensures Valid() && Kept()
      ensures r.Some? ==> r.value < |g| && check[r.value] && reports != []
      ensures reports == [] ==> AllDone(OptSymbols(e))
      decreases |Unchecked()|, 2
    {
      r := None;
      if e.Some? {
        r := CheckExprDeps(e.value);
      }
    }

    /** One round of the loop of sym_check_sym_deps. */
    method CheckProperty(p: Property) returns (r: Option<nat>)
      requires Valid() && stack != [] && PropertyDeps(p) <= Deps(g, stack[|stack| - 1])
      modifies this
      ensures Valid() && Kept()
      ensures r.Some? ==> r.value < |g| && check[r.value] && reports != []
      ensures reports == [] ==> AllDone(PropertyDeps(p))
      decreases |Unchecked()|, 3
    {
      r := None;
      if p.kind.Select? {
        return;
      }
      r := CheckOptDeps(p.visible);
      if r.None? && p.kind.DefaultValue? {
        FewerUnchecked();
        r := CheckOptDeps(p.expr);
      }
    }

    /** sym_check_sym_deps, between dep_stack_insert and dep_stack_remove */
    method CheckSymDeps(sym: nat) returns (r: Option<nat>)
      requires Valid() && stack != [] && sym == stack[|stack| - 1]
      modifies this
      ensures Valid() && Kept()
      ensures r.Some? ==> r.value < |g| && check[r.value] && reports != []
      ensures reports == [] ==> AllDone(Deps(g, sym))
      decreases |Unchecked()|, 4
    {
      hide PropertyDeps, PropertiesDeps, IsCycle, Chain, Edge, Closed;
      var ps := g[sym].props;
      AllProperties(sym, 0);
      r := CheckOptDeps(g[sym].revDep);
      if r.Some? {
        return;
      }
      var k := 0;
      while k < |ps|
        invariant k <= |ps| && Valid() && Kept() && r.None?
        invariant reports == [] ==> AllDone(OptSymbols(g[sym].revDep) + PropertiesDeps(ps[..k]))
        decreases |ps| - k
      {
        AllProperties(sym, k);
        PropertyIn(ps, k);
        FewerUnchecked();
        r := CheckProperty(ps[k]);
        if r.Some? {
          return;
        }
        k := k + 1;
      }
      assert ps[..k] == ps;
    }

    lemma AllProperties(sym: nat, k: nat)
      requires sym < |g| && k <= |g[sym].props|
      ensures OptSymbols(g[sym].revDep) <= Deps(g, sym) && PropertiesDeps([]) == {}
      ensures k < |g[sym].props| ==> PropertyDeps(g[sym].props[k]) <= Deps(g, sym)
    {
      if k < |g[sym].props| {
        PropertyIn(g[sym].props, k);
      }
    }

    /** dep_stack_insert, with the flags that sym_check_deps sets. */
    method Enter(sym: nat)
      requires Valid() && sym < |g| && !checked[sym] && (stack != [] ==> Edge(g, stack[|stack| - 1], sym))
      modifies `check, `checked, `stack
      ensures Valid() && stack == old(stack) + [sym] && check == old(check)[sym := true] && checked == old(checked)[sym := true]
      ensures |Unchecked()| < |old(Unchecked())|
    {
      hide IsCycle, Edge, Closed;
      check, checked := check[sym := true], checked[sym := true];
      stack := stack + [sym];
      OneChecked(sym);
    }

    /** dep_stack_remove, with the flag that sym_check_deps clears. */
    method Leave(sym: nat)
      requires Valid() && stack != [] && sym == stack[|stack| - 1] && (reports == [] ==> AllDone(Deps(g, sym)))
      modifies `check, `stack, `rank, `clock
      ensures Valid() && stack == old(stack)[..|old(stack)| - 1] && check == old(check)[sym := false] && Done(sym)
    {
      ghost var before, checkBefore := stack, check;
      stack := stack[..|stack| - 1];
      check := check[sym := false];
      rank, clock := rank[sym := clock], clock + 1;
      assert before == stack + [sym];
      PathWithout(g, before, checkBefore, sym);
      assert OnPath();
      if reports == [] {
        forall i | 0 <= i < |g| && Done(i)
          ensures rank[i] < clock && forall j: nat :: Edge(g, i, j) ==> j < |g| && Done(j) && rank[j] < rank[i]
        {
          if i == sym {
            forall j: nat | Edge(g, i, j) ensures j < |g| && Done(j) && rank[j] < rank[i] {
              var s :| s in Deps(g, i) && s.Config? && s.id == j;
            }
          }
        }
      }
    }

    /** sym_check_deps for a symbol that the symbol on top of the stack, if any, depends on. */
    method CheckDeps(sym: nat) returns (r: Option<nat>)
      requires Valid() && sym < |g| && (stack != [] ==> Edge(g, stack[|stack| - 1], sym))
      modifies this
      ensures Valid() && Kept()
      ensures r.Some? ==> r.value < |g| && check[r.value] && reports != []
      ensures reports == [] ==> Done(sym)
      decreases |Unchecked()|, 0, 0
    {
      hide IsCycle, Chain, Edge, Closed, Deps;
      if check[sym] {
        PrintRecursive(sym);
        return Some(sym);
      }
      if checked[sym] {
        return None;
      }
      ghost var stackBefore, checkBefore := stack, check;
      Enter(sym);
      r := CheckSymDeps(sym);
      Leave(sym);
      assert stack == stackBefore;
      assert check == checkBefore;
      if r == Some(sym) {
        r := None;
      }
    }

    twostate lemma OneChecked(sym: nat)
      requires sym < |old(checked)| && !old(checked[sym]) && checked == old(checked)[sym := true]
      ensures |Unchecked()| < |old(Unchecked())|
    {
      assert Unchecked() + {sym} == old(Unchecked());
    }

    constructor (g: Graph)
      requires Closed(g)
      ensures Valid() && this.g == g && stack == [] && reports == []
    {
      this.g := g;
      check := seq(|g|, i => false);
      checked := seq(|g|, i => false);
      rank := seq(|g|, i => 0);
      stack, reports, clock := [], [], 0;
    }

    /** A call leaves no more symbols unchecked than there were. */
    twostate lemma FewerUnchecked()
      requires Kept()
      ensures |Unchecked()| <= |old(Unchecked())|
    {
      SubsetSize(Unchecked(), old(Unchecked()));
    }
  }

  /** The loop of conf_parse: a recursive dependency is printed exactly if there is one, and every
      printed chain is one. But sym_check_deps answers null for the symbol it was called for, so the
      error count stays at zero and parsing goes on. */
  method CheckAll(g: Graph) returns (reports: seq<seq<nat>>, errors: nat, ghost rank: seq<nat>)
    requires Closed(g)
    ensures forall k :: 0 <= k < |reports| ==> IsCycle(g, reports[k])
    ensures reports == [] <==> forall c :: !IsCycle(g, c)
    ensures reports == [] ==> RankedBy(g, rank)
    ensures errors == 0
  {
    var c := new Checker(g);
    errors := 0;
    for i := 0 to |g|
      invariant c.Valid() && c.g == g && c.stack == [] && errors == 0 && fresh(c)
      invariant c.reports == [] ==> forall j :: 0 <= j < i ==> c.checked[j]
    {
      var r := c.CheckDeps(i);
      errors := errors + if r.Some? then 1 else 0;
    }
    reports, rank := c.reports, c.rank;
    if reports == [] {
      assert forall j :: 0 <= j < |g| ==> c.Done(j);
      assert RankedBy(g, rank);
      forall c ensures !IsCycle(g, c) {
        RankedHasNoCycle(g, rank, c);
      }
    } else {
      assert IsCycle(g, reports[0]);
    }
  }

  lemma {:induction false} SubsetSize(a: set<nat>, b: set<nat>)
    requires a <= b
    ensures |a| <= |b|
  {
    if a != {} {
      var x :| x in a;
      SubsetSize(a - {x}, b - {x});
    }
  }

  /** The path without its last symbol. */
  lemma PathWithout(g: Graph, stack: seq<nat>, check: seq<bool>, sym: nat)
    requires stack != [] && stack[|stack| - 1] == sym && sym < |check| && Chain(g, stack)
    requires forall j, k :: 0 <= j < k < |stack| ==> stack[j] != stack[k]
    requires forall i :: 0 <= i < |check| ==> (check[i] <==> i in stack)
    ensures var rest := stack[..|stack| - 1];
            && Chain(g, rest) && (forall i :: 0 <= i < |check| ==> (check[sym := false][i] <==> i in rest))
  {
    var rest := stack[..|stack| - 1];
    assert stack == rest + [sym];
    assert sym !in rest;
    forall k | 0 <= k < |rest| - 1 ensures Edge(g, rest[k], rest[k + 1]) {
      assert Edge(g, stack[k], stack[k + 1]);
    }
  }

  // ---------------------------------------------------------------- what the search is good for

  /** A P_SELECT property of a symbol: what it selects, under which condition. */
  datatype Selecting = Selecting(target: Symbol, cond: Option<Expr>)

  type Selects = seq<seq<Selecting>>

  function PropsOf(d: S.Decl, selects: seq<Selecting>): seq<Property> {
    seq(|d.prompts|, k requires 0 <= k < |d.prompts| => Property(Prompt, d.prompts[k], None)) +
    seq(|d.defaults|, k requires 0 <= k < |d.defaults| => Property(DefaultValue, d.defaults[k].cond, Some(d.defaults[k].value))) +
    seq(|d.ranges|, k requires 0 <= k < |d.ranges| => Property(RangeOf, d.ranges[k].cond, None)) +
    seq(|selects|, k requires 0 <= k < |selects| => Property(Select, selects[k].cond, Some(Sym(selects[k].target))))
  }

  /** The symbols of a table with their properties; selects are listed with the selecting symbol, and
      count in the revDep of the selected one. */
  function GraphOf(t: S.Table, selects: Selects): Graph
    requires |selects| == |t|
  {
    seq(|t|, i requires 0 <= i < |t| => Node(t[i].revDep, PropsOf(t[i], selects[i])))
  }

  /** The search does not follow range bounds and direct dependencies. */
  predicate FollowedAnyway(t: S.Table, selects: Selects, i: nat)
    requires i < |t| == |selects|
  {
    && (forall s :: s in OptSymbols(t[i].dirDep) && s.Config? ==> s in Deps(GraphOf(t, selects), i))
    && (forall k :: 0 <= k < |t[i].ranges| ==> !t[i].ranges[k].low.Config? && !t[i].ranges[k].high.Config?)
  }

  lemma PropSearched(t: S.Table, selects: Selects, i: nat, k: nat)
    requires i < |t| == |selects| && k < |PropsOf(t[i], selects[i])|
    ensures PropertyDeps(PropsOf(t[i], selects[i])[k]) <= Deps(GraphOf(t, selects), i)
  {
    PropertyIn(PropsOf(t[i], selects[i]), k);
  }

  lemma DeclSearched(t: S.Table, selects: Selects, i: nat, s: Symbol)
    requires i < |t| == |selects| && FollowedAnyway(t, selects, i) && s in S.DeclSymbols(t[i]) && s.Config?
    ensures s in Deps(GraphOf(t, selects), i)
  {
    var d := t[i];
    if s in S.PromptSymbols(d) {
      var k :| 0 <= k < |d.prompts| && s in OptSymbols(d.prompts[k]);
      PropSearched(t, selects, i, k);
    } else if s in S.DefaultSymbols(d) + S.ConditionSymbols(d) {
      DefaultSearched(t, selects, i, s);
    } else if s in S.RangeSymbols(d) {
      var k :| 0 <= k < |d.ranges| && s in OptSymbols(d.ranges[k].cond) + {d.ranges[k].low, d.ranges[k].high};
      PropSearched(t, selects, i, |d.prompts| + |d.defaults| + k);
    }
  }

  lemma DefaultSearched(t: S.Table, selects: Selects, i: nat, s: Symbol)
    requires i < |t| == |selects| && s in S.DefaultSymbols(t[i]) + S.ConditionSymbols(t[i])
    ensures s in Deps(GraphOf(t, selects), i)
  {
    var d := t[i];
    if s in S.DefaultSymbols(d) {
      var k :| 0 <= k < |d.defaults| && s in Symbols(d.defaults[k].value);
      PropSearched(t, selects, i, |d.prompts| + k);
    } else {
      var k :| 0 <= k < |d.defaults| && s in OptSymbols(d.defaults[k].cond);
      PropSearched(t, selects, i, |d.prompts| + k);
    }
  }

  lemma GraphIsClosed(t: S.Table, selects: Selects)
    requires S.WellFormed(t) && |selects| == |t|
    ensures Closed(GraphOf(t, selects))
  {
    var g := GraphOf(t, selects);
    forall x: nat, y: nat | Edge(g, x, y) ensures y < |g| {
      var s :| s in Deps(g, x) && s.Config? && s.id == y;
      assert S.KnownDecl(t, x);
      DepIsMentioned(t, selects, x, s);
    }
  }

  lemma DepIsMentioned(t: S.Table, selects: Selects, i: nat, s: Symbol)
    requires i < |t| == |selects| && s in Deps(GraphOf(t, selects), i)
    ensures s in S.DeclSymbols(t[i])
  {
    var d := t[i];
    if s !in OptSymbols(d.revDep) {
      var k := WhichProperty(PropsOf(d, selects[i]), s);
      if k < |d.prompts| {
        assert s in OptSymbols(d.prompts[k]);
      } else if k < |d.prompts| + |d.defaults| {
        var j := k - |d.prompts|;
        assert s in OptSymbols(d.defaults[j].cond) || s in Symbols(d.defaults[j].value);
      } else if k < |d.prompts| + |d.defaults| + |d.ranges| {
        var j := k - |d.prompts| - |d.defaults|;
        assert s in OptSymbols(d.ranges[j].cond) + {d.ranges[j].low, d.ranges[j].high};
      }
    }
  }

  lemma {:induction false} WhichProperty(ps: seq<Property>, s: Symbol) returns (k: nat)
    requires s in PropertiesDeps(ps)
    ensures k < |ps| && s in PropertyDeps(ps[k])
  {
    if s in PropertyDeps(ps[0]) {
      k := 0;
    } else {
      k := WhichProperty(ps[1..], s);
      k := k + 1;
    }
  }

  /** A table of plain symbols in which the search finds nothing has exactly one solution for every
      user input: the ranks are the order in which the search finished. */
  lemma NothingFoundMeansRanked(t: S.Table, selects: Selects, rank: seq<nat>)
    requires S.WellFormed(t) && |selects| == |t| && RankedBy(GraphOf(t, selects), rank)
    requires forall i :: 0 <= i < |t| ==> t[i].role.Plain? && FollowedAnyway(t, selects, i)
    ensures R.Ranked(t, rank)
  {
    forall i | 0 <= i < |t| ensures R.RankedDecl(t, rank, i) {
      assert S.KnownDecl(t, i);
      forall s | s in S.DeclSymbols(t[i]) && s.Config? ensures s.id < |rank| && rank[s.id] < rank[i] {
        DeclSearched(t, selects, i, s);
        assert Edge(GraphOf(t, selects), i, s.id);
      }
    }
  }

  /** And a table with ranks is one in which nothing is found, whatever selects what. */
  lemma RankedMeansNothingFound(t: S.Table, selects: Selects, rank: seq<nat>)
    requires S.WellFormed(t) && |selects| == |t| && R.Ranked(t, rank) && forall i :: 0 <= i < |t| ==> t[i].role.Plain?
    ensures RankedBy(GraphOf(t, selects), rank)
  {
    var g := GraphOf(t, selects);
    forall x: nat, y: nat | Edge(g, x, y) ensures y < |rank| && rank[y] < rank[x] {
      var s :| s in Deps(g, x) && s.Config? && s.id == y;
      DepIsMentioned(t, selects, x, s);
      assert R.RankedDecl(t, rank, x);
    }
  }

  /** The search run over a table of plain symbols prints nothing exactly if the table is ranked, so
      that every user input has at most one solution. */
  method CheckTable(t: S.Table, selects: Selects) returns (reports: seq<seq<nat>>, ghost rank: seq<nat>)
    requires S.WellFormed(t) && |selects| == |t|
    requires forall i :: 0 <= i < |t| ==> t[i].role.Plain? && FollowedAnyway(t, selects, i)
    ensures reports == [] <==> exists ranks :: R.Ranked(t, ranks)
    ensures reports == [] <==> forall c :: !IsCycle(GraphOf(t, selects), c)
    ensures reports == [] ==> R.Ranked(t, rank)
    ensures reports == [] ==> forall us, v, w :: S.KnownUsers(t, us) && S.Solution(t, us, v) && S.Solution(t, us, w) && v.modules == w.modules ==>
              forall i :: 0 <= i < |t| ==> SameAt(S.SymbolAt(t, i), v, w)
  {
    var errors;
    GraphIsClosed(t, selects);
    reports, errors, rank := CheckAll(GraphOf(t, selects));
    if reports == [] {
      NothingFoundMeansRanked(t, selects, rank);
      forall us, v, w, i | S.KnownUsers(t, us) && S.Solution(t, us, v) && S.Solution(t, us, w) && v.modules == w.modules && 0 <= i < |t|
        ensures SameAt(S.SymbolAt(t, i), v, w)
      {
        R.SolutionUnique(t, us, rank, v, w, i);
      }
    } else if ranks :| R.Ranked(t, ranks) {
      RankedMeansNothingFound(t, selects, ranks);
      RankedHasNoCycle(GraphOf(t, selects), ranks, reports[0]);
    }
  }
}
