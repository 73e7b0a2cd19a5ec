/** Two assignments that leave a cached value behind, because no `dep` set records what it was
    computed from. */
module StaleCaches {
  import opened Tristates
  import opened Expressions
  import opened Formulas
  import opened Kconfiglib
  import opened Invalidation
  import opened Assignments
  import opened ModulesSymbol
  import opened KconfiglibCache

  /** What the formulas of a symbol mention, for declarations with at most one prompt and default. */
  lemma SmallRefs(d: SymDecl)
    requires |d.prompts| <= 1 && |d.defaults| <= 1 && d.ranges == []
    ensures PromptRefs(d.prompts) == if d.prompts == [] then {} else OptRefs(d.prompts[0])
    ensures DefaultRefs(d.defaults) == if d.defaults == [] then {} else Refs(d.defaults[0].value) + OptRefs(d.defaults[0].cond)
    ensures RangeRefs(d.ranges) == {}
  {
  }

  // ---------------------------------------------------------------- MODULES

  /** MODULES, a bool symbol with a prompt, and FOO, a tristate symbol that is `m` by default. */
  function WithModules(parse: (string, nat) -> Option<int>, show: (int, nat) -> string, chars: Chars): Setup {
    Setup(false, Some(0), parse, show, chars,
          [SymDecl("MODULES", Boolean, None, [None], [], NEVER, [], None),
           SymDecl("FOO", ThreeState, None, [], [Default(Leaf(Literal("m")), None)], NEVER, [], None)],
          [])
  }

  lemma WithModulesKnown(s: Setup)
    requires s == WithModules(s.parse, s.show, s.chars)
    ensures Known(s) && Ranked(s, [0, 1]) && Grounded(s, [0, 1])
    ensures 1 !in Dependents(s, [0, 1], 0)
  {
    forall i: nat | i < 2 ensures KnownSym(s, i) && Reads(s, i) == {} {
      SmallRefs(s.syms[i]);
      TextsDiffer();
      assert s.syms[i].name[0] == if i == 0 then 'M' else 'F';
    }
    assert Closed(s, {0});
    DependentsLeast(s, [0, 1], 0, {0});
  }

  lemma WithModulesValues(s: Setup, u: Entries, v: seq<Value>)
    requires Known(s) && KnownEntries(s, u) && s == Switched(WithModules(s.parse, s.show, s.chars), s.modules)
    requires Solves(s, u, v) && ModulesOn(s, v) == s.modules
    requires u.vals[0] == None || u.vals[0] == Some("y")
    ensures s.modules == u.vals[0].Some? && v[1] == Truth(if u.vals[0].Some? then MOD else YES)
  {
    TextsDiffer();
    assert v[0] == ValueOf(s, u, 0, v).0 && v[1] == ValueOf(s, u, 1, v).0;
  }

  lemma FreshModules(c: Config)
    requires c.Sound() && c.s == WithModules(c.s.parse, c.s.show, c.s.chars)
    requires |c.entries.vals| == 2 && (c.entries.vals[0] == None || c.entries.vals[0] == Some("y"))
    ensures |c.Fresh()| == 2 && c.Fresh()[1] == Truth(if c.entries.vals[0].Some? then MOD else YES)
  {
    c.FreshFits();
    WithModulesValues(c.now, c.entries, c.Fresh());
  }

  /** A cell outside the dropped symbols is what it was. */
  lemma NotDropped(s: Setup, xs: set<nat>, cells: seq<Cell>, choiceCells: seq<ChoiceCell>, cells1: seq<Cell>, choiceCells1: seq<ChoiceCell>, i: nat)
    requires Dropped(s, xs, cells, choiceCells, cells1, choiceCells1) && i < |cells| && i !in xs
    ensures |cells1| == |cells| && cells1[i] == cells[i]
  {
  }

  lemma Entering(s: Setup, u: Entries, i: nat)
    requires Known(s) && KnownEntries(s, u) && i < |s.syms| && s.syms[i].stype.Boolean? && s.syms[i].special.None?
    ensures Assigned(s, u, i, "y").vals == u.vals[i := Some("y")] && Assigned(s, u, i, "n").vals == u.vals[i := Some("n")]
    ensures Unassigned(s, u, i).vals == u.vals[i := None]
    ensures s.syms[i].choice.None? ==> forall text :: Assigned(s, u, i, text).picks == u.picks && Assigned(s, u, i, text).modes == u.modes
  {
  }

  /** With MODULES set to `y` FOO is `m`. Taking the entry back, by unset_user_value, makes its value
      from scratch `y`, but no symbol depends on MODULES as far as `dep` knows: the cached `m` stays. */
  method ModulesAreNotTracked(parse: (string, nat) -> Option<int>, show: (int, nat) -> string, chars: Chars)
    returns (cached: Option<Value>, ghost scratch: Value)
    ensures cached == Some(Truth(MOD)) && scratch == Truth(YES)
  {
    var s := WithModules(parse, show, chars);
    WithModulesKnown(s);
    assert |s.syms| == 2 && s.syms[0].stype.Boolean? && s.syms[0].special.None? && s.modulesSym == Some(0);
    hide *;
    var c := new Config(s, [0, 1]);
    TurnOn(c);
    scratch := TurnOff(c);
    cached := c.cells[1].val;
  }

  method TurnOn(c: Config)
    requires c.Valid() && c.s == WithModules(c.s.parse, c.s.show, c.s.chars)
    modifies c
    ensures c.Valid() && |c.entries.vals| == 2 == |c.cells| && c.entries.vals[0] == Some("y") && c.cells[1].val == Some(Truth(MOD))
  {
    Entering(c.s, c.entries, 0);
    assert |c.s.syms| == 2 && c.s.modulesSym == Some(0);
    hide *;
    c.SetUserValue(0, "y");
    var foo := c.Value(1);
    FreshModules(c);
  }

  method TurnOff(c: Config) returns (ghost scratch: Value)
    requires c.Valid() && c.rank == [0, 1] && c.s == WithModules(c.s.parse, c.s.show, c.s.chars)
    modifies c
    ensures c.Sound() && |c.Fresh()| == 2 == |c.cells| && c.cells[1] == old(c.cells[1]) && scratch == c.Fresh()[1] == Truth(YES)
  {
    Entering(c.s, c.entries, 0);
    WithModulesKnown(c.s);
    assert |c.s.syms| == 2 && |c.cells| == 2;
    hide *;
    c.UnsetUserValue(0);
    FreshModules(c);
    NotDropped(c.s, {0} + Dependents(c.s, [0, 1], 0), old(c.cells), old(c.choiceCells), c.cells, c.choiceCells, 1);
    scratch := c.Fresh()[1];
  }

  // ---------------------------------------------------------------- choice defaults

  /** A choice of A and C whose default is X, a symbol outside it with a prompt if FOO. */
  function WithOutsider(parse: (string, nat) -> Option<int>, show: (int, nat) -> string, chars: Chars): Setup {
    Setup(false, None, parse, show, chars,
          [SymDecl("FOO", Boolean, None, [None], [], NEVER, [], None),
           SymDecl("X", Boolean, None, [Some(Leaf(Ref(0)))], [], NEVER, [], None),
           SymDecl("A", Boolean, None, [None], [], NEVER, [], Some(0)),
           SymDecl("C", Boolean, None, [None], [], NEVER, [], Some(0))],
          [ChoiceDecl(Boolean, false, [None], [ChoiceDefault(1, None)], [2, 3])])
  }

  lemma WithOutsiderReads(s: Setup)
    requires s == WithOutsider(s.parse, s.show, s.chars)
    ensures forall i: nat :: i < 4 ==> KnownSym(s, i) && Reads(s, i) == (if i == 1 then {0} else {})
    ensures VisRefs(s, 1) == {0} && Known(s)
  {
    assert PromptRefs(s.choices[0].prompts) == {} && ChoiceDefaultRefs(s.choices[0].defaults) == {};
    forall i: nat | i < 4 ensures KnownSym(s, i) && Reads(s, i) == (if i == 1 then {0} else {}) {
      SmallRefs(s.syms[i]);
      assert s.syms[i].name[0] == if i == 0 then 'F' else if i == 1 then 'X' else if i == 2 then 'A' else 'C';
    }
    SmallRefs(s.syms[1]);
    assert KnownChoice(s, 0);
  }

  lemma WithOutsiderRanked(s: Setup)
    requires s == WithOutsider(s.parse, s.show, s.chars)
    ensures Known(s) && Ranked(s, [0, 1, 1, 1]) && Grounded(s, [0, 1, 1, 1])
  {
    WithOutsiderReads(s);
    hide Known, Reads, VisRefs;
    assert RankedChoice(s, [0, 1, 1, 1], 0);
    assert forall i: nat :: i < 4 ==> RankedSym(s, [0, 1, 1, 1], i);
  }

  lemma WithOutsiderClosed(s: Setup)
    requires s == WithOutsider(s.parse, s.show, s.chars) && Known(s)
    ensures Closed(s, {0, 1})
  {
    WithOutsiderReads(s);
    hide Known, Reads, VisRefs;
    assert DirectDeps(s, 0) == {1} && DirectDeps(s, 1) == {} && Siblings(s, 0) == {} && Siblings(s, 1) == {};
  }

  lemma WithOutsiderKnown(s: Setup)
    requires s == WithOutsider(s.parse, s.show, s.chars)
    ensures Known(s) && Ranked(s, [0, 1, 1, 1]) && Grounded(s, [0, 1, 1, 1])
    ensures 2 !in Dependents(s, [0, 1, 1, 1], 0)
  {
    WithOutsiderRanked(s);
    WithOutsiderClosed(s);
    hide *;
    DependentsLeast(s, [0, 1, 1, 1], 0, {0, 1});
  }

  /** A is selected exactly if X is not visible. */
  lemma WithOutsiderValues(s: Setup, u: Entries, v: seq<Value>)
    requires Known(s) && KnownEntries(s, u) && s == WithOutsider(s.parse, s.show, s.chars)
    requires Solves(s, u, v)
    requires u.vals[0] == Some("y") || u.vals[0] == Some("n")
    requires u.vals[1] == None && u.picks[0] == None && u.modes[0] == None
    ensures v[2] == Truth(if u.vals[0] == Some("y") then NO else YES)
  {
    TextsDiffer();
    assert v[0] == ValueOf(s, u, 0, v).0 && v[2] == ValueOf(s, u, 2, v).0;
    assert v[0] == Truth(TextTruth(u.vals[0].value));
    assert Visibility(s, 1, v) == TextTruth(u.vals[0].value) && Visibility(s, 2, v) == YES;
    assert Mode(s, u, 0, v) == YES && Chosen(s, 0, v, 0) == 1;
  }

  /** With FOO at `y` the choice selects X, and A is `n`. Setting FOO to `n` drops FOO and X, not A,
      which from scratch is `y`. */
  method OutsidersAreNotTracked(parse: (string, nat) -> Option<int>, show: (int, nat) -> string, chars: Chars)
    returns (cached: Option<Value>, ghost scratch: Value)
    ensures cached == Some(Truth(NO)) && scratch == Truth(YES)
  {
    var s := WithOutsider(parse, show, chars);
    WithOutsiderKnown(s);
    assert |s.syms| == 4;
    hide *;
    var c := new Config(s, [0, 1, 1, 1]);
    ShowOutsider(c);
    scratch := HideOutsider(c);
    cached := c.cells[2].val;
  }

  lemma NothingEntered(s: Setup)
    requires s == WithOutsider(s.parse, s.show, s.chars)
    ensures NothingElse(NoEntries(s))
  {
  }

  /** No entries but for FOO. */
  ghost predicate NothingElse(u: Entries) {
    |u.vals| == 4 && |u.picks| == 1 == |u.modes| && u.vals[1] == None && u.picks[0] == None && u.modes[0] == None
  }

  lemma FreshOutsider(c: Config)
    requires c.Sound() && c.s == WithOutsider(c.s.parse, c.s.show, c.s.chars) && NothingElse(c.entries)
    requires c.entries.vals[0] == Some("y") || c.entries.vals[0] == Some("n")
    ensures |c.Fresh()| == 4 && c.Fresh()[2] == Truth(if c.entries.vals[0] == Some("y") then NO else YES)
  {
    c.FreshFits();
    WithOutsiderValues(c.now, c.entries, c.Fresh());
  }

  lemma EnteringFoo(s: Setup, u: Entries)
    requires Known(s) && KnownEntries(s, u) && s == WithOutsider(s.parse, s.show, s.chars) && NothingElse(u)
    ensures forall text :: text == "y" || text == "n" ==> NothingElse(Assigned(s, u, 0, text)) && Assigned(s, u, 0, text).vals[0] == Some(text)
  {
    Entering(s, u, 0);
  }

  lemma LoadingFoo(s: Setup)
    requires Known(s) && s == WithOutsider(s.parse, s.show, s.chars)
    ensures KnownEntries(s, NoEntries(s)) && AssignedAll(s, NoEntries(s), [(0, "y")]) == Assigned(s, NoEntries(s), 0, "y")
  {
  }

  method ShowOutsider(c: Config)
    requires c.Valid() && c.s == WithOutsider(c.s.parse, c.s.show, c.s.chars)
    modifies c
    ensures c.Valid() && |c.cells| == 4 && NothingElse(c.entries) && c.cells[2].val == Some(Truth(NO))
  {
    NothingEntered(c.s);
    LoadingFoo(c.s);
    EnteringFoo(c.s, NoEntries(c.s));
    assert |c.s.syms| == 4;
    hide *;
    c.LoadConfig([(0, "y")], true);
    FreshOutsider(c);
    var a := c.Value(2);
  }

  method HideOutsider(c: Config) returns (ghost scratch: Value)
    requires c.Valid() && c.rank == [0, 1, 1, 1] && c.s == WithOutsider(c.s.parse, c.s.show, c.s.chars) && NothingElse(c.entries)
    modifies c
    ensures c.Sound() && |c.Fresh()| == 4 == |c.cells| && c.cells[2] == old(c.cells[2]) && scratch == c.Fresh()[2] == Truth(YES)
  {
    EnteringFoo(c.s, c.entries);
    WithOutsiderKnown(c.s);
    assert |c.s.syms| == 4 && |c.cells| == 4 && c.s.modulesSym == None && NO != YES;
    assert "n" != "y" by { TextsDiffer(); }
    hide *;
    c.SetUserValue(0, "n");
    FreshOutsider(c);
    NotDropped(c.s, {0} + Dependents(c.s, [0, 1, 1, 1], 0), old(c.cells), old(c.choiceCells), c.cells, c.choiceCells, 2);
    scratch := c.Fresh()[2];
  }
}
