/** conf_write_defconfig writes only what differs from the defaults; conf_read_simple reads it into
    an empty configuration. Exactly when that restores every value. */
module Defconfig {
  import opened Tristates
  import opened RankNumbers
  import opened Expressions
  import opened Semantics
  import opened Ranking
  import opened Escaping

  // ---------------------------------------------------------------- what is left out of the file

  /** The value a bool or tristate symbol has without user input. */
  function DefaultValue(d: Decl, v: Assignment): Tristate {
    var tri := Max(DefaultTri(d, v), RevDep(d, v));
    if tri == MOD && (v.modules == NO || d.stype.Boolean?) then YES else tri
  }

  /** sym_get_string_default of a symbol outside choices */
  function StringDefault(d: Decl, v: Assignment): string {
    if IsTri(d.stype) then
      var tri := DefaultValue(d, v);
      if tri == NO then "n" else if tri == MOD then "m" else "y"
    else if IsText(d.stype) then DefaultText(d, v)
    else ""
  }

  /** Whether conf_write_defconfig writes the symbol: it goes into a .config file (which symbols
      without a type never do), can be changed (sym_is_changable), and differs from its default. */
  predicate Saved(t: Table, i: nat, v: Assignment)
    requires i < |t|
  {
    var d := t[i];
    (IsTri(d.stype) || IsText(d.stype)) && Writes(d, v) && Visibility(d, v) > RevDep(d, v) && StrOf(SymbolAt(t, i), v) != StringDefault(d, v)
  }

  /** The user input after the file has been read into an empty configuration. */
  function InputBack(t: Table, i: nat, v: Assignment): User
    requires i < |t|
  {
    if !Saved(t, i, v) then User(false, NO, "", None)
    else if IsTri(t[i].stype) then User(true, v.tri(SymbolAt(t, i)), "", None)
    else User(true, NO, v.str(SymbolAt(t, i)), None)
  }

  function UsersBack(t: Table, v: Assignment): (us: Users)
    ensures |us| == |t| && forall i :: 0 <= i < |t| ==> us[i] == InputBack(t, i, v)
  {
    seq(|t|, i requires 0 <= i < |t| => InputBack(t, i, v))
  }

  /** Bool, tristate and string symbols outside choices. Only bool and tristate symbols are
      selected, and symbols that get their value in another way (SYMBOL_AUTO) have no prompt. */
  predicate SimpleDecl(d: Decl) {
    && d.role.Plain? && !d.stype.Int? && !d.stype.Hex?
    && (!IsTri(d.stype) ==> d.revDep.None?)
    && (d.auto ==> d.prompts == [])
  }

  predicate Simple(t: Table) {
    forall i :: 0 <= i < |t| ==> SimpleDecl(t[i])
  }

  /** The one thing that gets lost: input for a tristate symbol that is selected at least as high as
      it is visible, whose default would be higher. It never happens to a bool symbol. */
  predicate Restorable(d: Decl, u: User, v: Assignment) {
    IsTri(d.stype) && u.isSet && NO != Visibility(d, v) <= RevDep(d, v) ==> DefaultTri(d, v) <= RevDep(d, v)
  }

  lemma BoolIsRestorable(d: Decl, u: User, v: Assignment)
    requires d.stype.Boolean? || v.modules == NO
    ensures Restorable(d, u, v)
  {
  }

  const EMPTY := User(false, NO, "", None)

  /** What makes a line necessary: the user can change the symbol, and without input it would have
      another value. */
  predicate Needed(t: Table, i: nat, v: Assignment)
    requires i < |t|
  {
    && Visibility(t[i], v) > RevDep(t[i], v)
    && if IsTri(t[i].stype) then OwnTri(t[i], EMPTY, v) != v.tri(SymbolAt(t, i))
       else IsText(t[i].stype) && TextValue(t[i], EMPTY, v) != v.str(SymbolAt(t, i))
  }

  /** Nothing is written without need. */
  lemma SavedIffNeeded(t: Table, us: Users, i: nat, v: Assignment)
    requires WellFormed(t) && KnownUsers(t, us) && i < |t| && SimpleDecl(t[i]) && SolvedAt(t, us, i, v)
    ensures Saved(t, i, v) <==> Needed(t, i, v)
  {
    var d := t[i];
    assert KnownDecl(t, i);
    assert d.auto ==> Visibility(d, v) == NO;
    if IsTri(d.stype) {
      var val := v.tri(SymbolAt(t, i));
      assert val == OwnTri(d, us[i], v) && DefaultValue(d, v) == OwnTri(d, EMPTY, v);
      assert v.modules == NO || d.stype.Boolean? ==> val != MOD && DefaultValue(d, v) != MOD;
      TriTextInjective(val, DefaultValue(d, v), v.modules);
      assert StrOf(SymbolAt(t, i), v) != StringDefault(d, v) <==> val != DefaultValue(d, v);
    }
  }

  // ---------------------------------------------------------------- one symbol

  lemma TriTextInjective(a: Tristate, b: Tristate, modules: Tristate)
    requires modules != NO || (a != MOD && b != MOD)
    ensures TriText(a, modules) == TriText(b, modules) <==> a == b
  {
    TextsDiffer();
  }

  lemma TruthRestored(t: Table, us: Users, i: nat, v: Assignment)
    requires WellFormed(t) && KnownUsers(t, us) && i < |t| && SimpleDecl(t[i]) && IsTri(t[i].stype)
    requires SolvedAt(t, us, i, v)
    ensures OwnTri(t[i], InputBack(t, i, v), v) == v.tri(SymbolAt(t, i)) <==> Restorable(t[i], us[i], v)
  {
    var d, val := t[i], v.tri(SymbolAt(t, i));
    assert KnownDecl(t, i);
    assert val == OwnTri(d, us[i], v);
    assert v.modules == NO || d.stype.Boolean? ==> val != MOD && DefaultValue(d, v) != MOD;
    TriTextInjective(val, DefaultValue(d, v), v.modules);
    assert StrOf(SymbolAt(t, i), v) != StringDefault(d, v) <==> val != DefaultValue(d, v);
  }

  lemma TextRestored(t: Table, us: Users, i: nat, v: Assignment)
    requires WellFormed(t) && KnownUsers(t, us) && i < |t| && SimpleDecl(t[i]) && !IsTri(t[i].stype)
    requires SolvedAt(t, us, i, v)
    ensures TextValue(t[i], InputBack(t, i, v), v) == v.str(SymbolAt(t, i))
  {
    var d := t[i];
    assert KnownDecl(t, i);
    assert v.str(SymbolAt(t, i)) == TextValue(d, us[i], v);
    assert d.auto ==> Visibility(d, v) == NO;
  }

  lemma SymbolRestored(t: Table, us: Users, i: nat, v: Assignment)
    requires WellFormed(t) && KnownUsers(t, us) && i < |t| && Simple(t) && SolvedAt(t, us, i, v)
    ensures KnownUsers(t, UsersBack(t, v))
    ensures SolvedAt(t, UsersBack(t, v), i, v) <==> Restorable(t[i], us[i], v)
  {
    assert SimpleDecl(t[i]);
    if IsTri(t[i].stype) {
      TruthRestored(t, us, i, v);
    } else {
      TextRestored(t, us, i, v);
    }
  }

  // ---------------------------------------------------------------- all symbols

  /** The minimal file restores the value of every symbol, although forced, invisible and default
      valued symbols are not in it, exactly if every symbol is restorable. */
  lemma DefconfigRoundTrip(t: Table, us: Users, rank: Ranks, modules: Tristate)
    requires WellFormed(t) && KnownUsers(t, us) && Ranked(t, rank) && Simple(t)
    ensures var v := Meaning(t, us, rank, modules);
            KnownUsers(t, UsersBack(t, v)) &&
            var w := Meaning(t, UsersBack(t, v), rank, modules);
            (forall i :: 0 <= i < |t| ==> SameAt(SymbolAt(t, i), v, w)) <==>
            (forall i :: 0 <= i < |t| ==> Restorable(t[i], us[i], v))
  {
    var v := Meaning(t, us, rank, modules);
    SolutionExists(t, us, rank, modules);
    var us1 := UsersBack(t, v);
    forall i | 0 <= i < |t| ensures SolvedAt(t, us1, i, v) <==> Restorable(t[i], us[i], v) {
      SymbolRestored(t, us, i, v);
    }
    SolutionIsMeaning(t, us1, rank, v);
  }

  /** A tristate symbol with prompt and select at `m`, and `y` by default. */
  function LostExample(): Table {
    [Decl("A", ThreeState, Plain, false, [Some(Sym(M))], [Default(Sym(Y), None)], [], None, Some(Sym(M)))]
  }

  /** Input that does get lost: set to `n`, A is `m`, but the file does not mention it, and without
      input it is `y`. */
  lemma InputIsLost()
    ensures var t, us, rank := LostExample(), [User(true, NO, "", None)], [0];
            && WellFormed(t) && Ranked(t, rank) && Simple(t) && KnownUsers(t, us)
            && var v := Meaning(t, us, rank, YES);
            && !Restorable(t[0], us[0], v) && KnownUsers(t, UsersBack(t, v))
            && v.tri(SymbolAt(t, 0)) == MOD && Meaning(t, UsersBack(t, v), rank, YES).tri(SymbolAt(t, 0)) == YES
  {
    var t, us, rank := LostExample(), [User(true, NO, "", None)], [0];
    TextsDiffer();
    assert DeclSymbols(t[0]) <= {Y, M};
    assert KnownDecl(t, 0) && RankedDecl(t, rank, 0);
    SolutionExists(t, us, rank, YES);
    var v := Meaning(t, us, rank, YES);
    assert SolvedAt(t, us, 0, v);
    assert PromptValue(t[0].prompts, v, 0) == MOD && FirstDefault(t[0].defaults, v, 0) == Some((Sym(Y), YES));
    var us1 := UsersBack(t, v);
    SolutionExists(t, us1, rank, YES);
    var w := Meaning(t, us1, rank, YES);
    assert SolvedAt(t, us1, 0, w);
    assert PromptValue(t[0].prompts, w, 0) == MOD && FirstDefault(t[0].defaults, w, 0) == Some((Sym(Y), YES));
  }

  // ---------------------------------------------------------------- the file

  /** A line `<name>=<rhs>`, or `# <name> is not set`. */
  datatype Line = Set(id: nat, rhs: string) | NotSet(id: nat)

  /** conf_write_symbol, for a symbol with the string value `text` */
  function LineFor(d: Decl, i: nat, text: string): Line {
    if d.stype.Str? then Set(i, Escaped(text)) else if IsTri(d.stype) && text == "n" then NotSet(i) else Set(i, text)
  }

  /** The lines for the symbols of the menus in `order`, where a symbol may come more than once; the
      first time clears SYMBOL_WRITE. */
  function Lines(t: Table, v: Assignment, order: seq<nat>, done: set<nat>): seq<Line>
    requires forall k :: 0 <= k < |order| ==> order[k] < |t|
  {
    if order == [] then []
    else
      (if order[0] !in done then LinesOf(t, v, order[0]) else []) + Lines(t, v, order[1..], done + {order[0]})
  }

  function LinesOf(t: Table, v: Assignment, i: nat): seq<Line>
    requires i < |t|
  {
    if Saved(t, i, v) then [LineFor(t[i], i, StrOf(SymbolAt(t, i), v))] else []
  }

  /** The input for a symbol after its line has been read (conf_set_sym_val); what it does not
      understand changes nothing. */
  function Understood(d: Decl, u: User, line: Line): User {
    match line
    case NotSet(_) => if IsTri(d.stype) then u.(isSet := true, tri := NO) else u
    case Set(_, rhs) =>
      if IsTri(d.stype) then
        if rhs != "" && rhs[0] == 'm' && d.stype.ThreeState? then u.(isSet := true, tri := MOD)
        else if rhs != "" && rhs[0] == 'y' then u.(isSet := true, tri := YES)
        else if rhs != "" && rhs[0] == 'n' then u.(isSet := true, tri := NO)
        else u
      else if d.stype.Str? && rhs != "" && rhs[0] == QUOTE && Unescaped(rhs[1..]).Some? then
        u.(isSet := true, text := Unescaped(rhs[1..]).value)
      else u
  }

  function ReadAll(t: Table, us: Users, lines: seq<Line>): (r: Users)
    requires |us| == |t| && forall k :: 0 <= k < |lines| ==> lines[k].id < |t|
    ensures |r| == |t|
    decreases lines
  {
    if lines == [] then us
    else
      var i := lines[0].id;
      ReadAll(t, us[i := Understood(t[i], us[i], lines[0])], lines[1..])
  }

  function CountFor(lines: seq<Line>, i: nat): nat {
    if lines == [] then 0 else (if lines[0].id == i then 1 else 0) + CountFor(lines[1..], i)
  }

  lemma {:induction false} CountAppend(a: seq<Line>, b: seq<Line>, i: nat)
    ensures CountFor(a + b, i) == CountFor(a, i) + CountFor(b, i)
  {
    if a == [] {
      assert a + b == b;
    } else {
      assert (a + b)[1..] == a[1..] + b;
      CountAppend(a[1..], b, i);
    }
  }

  lemma LinesOfCount(t: Table, v: Assignment, j: nat, i: nat)
    requires i < |t| && j < |t|
    ensures CountFor(LinesOf(t, v, j), i) == if j == i && Saved(t, i, v) then 1 else 0
  {
    if Saved(t, j, v) {
      LineId(t[j], j, StrOf(SymbolAt(t, j), v));
    }
    hide Saved, LineFor;
  }

  /** Every symbol of the menus has one line if it needs one, and else none. */
  lemma {:induction false} LinesAreNeeded(t: Table, us: Users, v: Assignment, order: seq<nat>, done: set<nat>, i: nat)
    requires WellFormed(t) && KnownUsers(t, us) && Simple(t) && Solution(t, us, v) && i < |t|
    requires forall k :: 0 <= k < |order| ==> order[k] < |t|
    ensures CountFor(Lines(t, v, order, done), i) == if i !in done && i in order && Needed(t, i, v) then 1 else 0
    decreases order
  {
    if order != [] {
      assert SimpleDecl(t[i]) && SolvedAt(t, us, i, v);
      SavedIffNeeded(t, us, i, v);
      LinesAreNeeded(t, us, v, order[1..], done + {order[0]}, i);
      LinesOfCount(t, v, order[0], i);
      var here := if order[0] !in done then LinesOf(t, v, order[0]) else [];
      CountAppend(here, Lines(t, v, order[1..], done + {order[0]}), i);
      assert i in order <==> i == order[0] || i in order[1..];
      hide Saved, Needed, LinesOf, WellFormed, Simple, Solution;
    }
  }

  /** Whatever a file says, a bool symbol is never set to `m`. */
  lemma {:induction false} ReadingKeepsBool(t: Table, us: Users, lines: seq<Line>, i: nat)
    requires |us| == |t| && (forall k :: 0 <= k < |lines| ==> lines[k].id < |t|) && i < |t|
    requires t[i].stype.Boolean? && us[i].tri != MOD
    ensures ReadAll(t, us, lines)[i].tri != MOD
    decreases lines
  {
    if lines != [] {
      var j := lines[0].id;
      ReadingKeepsBool(t, us[j := Understood(t[j], us[j], lines[0])], lines[1..], i);
    }
  }

  /** The lines come in the order of the menus. */
  lemma {:induction false} LinesInOrder(t: Table, v: Assignment, xs: seq<nat>, ys: seq<nat>, done: set<nat>)
    requires (forall k :: 0 <= k < |xs| ==> xs[k] < |t|) && (forall k :: 0 <= k < |ys| ==> ys[k] < |t|)
    ensures Lines(t, v, xs + ys, done) == Lines(t, v, xs, done) + Lines(t, v, ys, done + (set x | x in xs))
    decreases xs
  {
    hide *;
    if xs == [] {
      assert xs + ys == ys && done + (set x | x in xs) == done;
      NoLines(t, v, xs, done);
      assert [] + Lines(t, v, ys, done) == Lines(t, v, ys, done);
    } else {
      assert (xs + ys)[0] == xs[0] && (xs + ys)[1..] == xs[1..] + ys;
      LinesInOrder(t, v, xs[1..], ys, done + {xs[0]});
      AllOf(xs, done);
      LinesStep(t, v, xs, done);
      LinesStep(t, v, xs + ys, done);
      var here := if xs[0] in done then [] else LinesOf(t, v, xs[0]);
      var more, rest := Lines(t, v, xs[1..], done + {xs[0]}), Lines(t, v, ys, done + (set x | x in xs));
      assert here + (more + rest) == here + more + rest;
    }
  }

  lemma AllOf(xs: seq<nat>, done: set<nat>)
    requires xs != []
    ensures done + {xs[0]} + (set x | x in xs[1..]) == done + (set x | x in xs)
  {
  }

  lemma LinesStep(t: Table, v: Assignment, order: seq<nat>, done: set<nat>)
    requires order != [] && forall k :: 0 <= k < |order| ==> order[k] < |t|
    ensures Lines(t, v, order, done) ==
            (if order[0] in done then [] else LinesOf(t, v, order[0])) + Lines(t, v, order[1..], done + {order[0]})
  {
  }

  lemma NoLines(t: Table, v: Assignment, order: seq<nat>, done: set<nat>)
    requires order == []
    ensures Lines(t, v, order, done) == []
  {
  }

  /** A line gives back the input it was written for. */
  lemma LineUnderstood(t: Table, us: Users, i: nat, v: Assignment)
    requires WellFormed(t) && KnownUsers(t, us) && i < |t| && SimpleDecl(t[i]) && SolvedAt(t, us, i, v) && Saved(t, i, v)
    ensures Understood(t[i], EMPTY, LineFor(t[i], i, StrOf(SymbolAt(t, i), v))) == InputBack(t, i, v)
  {
    var d, text := t[i], StrOf(SymbolAt(t, i), v);
    assert KnownDecl(t, i);
    TextsDiffer();
    if IsTri(d.stype) {
      var val := v.tri(SymbolAt(t, i));
      assert val == OwnTri(d, us[i], v);
      assert v.modules == NO || d.stype.Boolean? ==> val != MOD;
    } else {
      EscapeRoundTrip(text, "");
      assert Escaped(text)[1..] == EscapedBody(text) + [QUOTE] + "";
    }
  }

  lemma {:induction false} LinesUnderstood(t: Table, us: Users, v: Assignment, order: seq<nat>, done: set<nat>, us1: Users)
    requires WellFormed(t) && KnownUsers(t, us) && Simple(t) && Solution(t, us, v)
    requires |us1| == |t| && (forall k :: 0 <= k < |order| ==> order[k] < |t|)
    requires forall i :: 0 <= i < |t| && i !in done ==> us1[i] == EMPTY
    ensures var lines := Lines(t, v, order, done);
            && (forall k :: 0 <= k < |lines| ==> lines[k].id < |t|)
            && forall i :: 0 <= i < |t| ==>
                 ReadAll(t, us1, lines)[i] == if i !in done && i in order then InputBack(t, i, v) else us1[i]
    decreases order
  {
    if order != [] {
      hide Understood, LineFor, Saved, InputBack, SimpleDecl, WellFormed, KnownUsers;
      var i := order[0];
      var rest := Lines(t, v, order[1..], done + {i});
      assert SimpleDecl(t[i]) && SolvedAt(t, us, i, v);
      if i !in done && Saved(t, i, v) {
        LineUnderstood(t, us, i, v);
        var line := LineFor(t[i], i, StrOf(SymbolAt(t, i), v));
        LineId(t[i], i, StrOf(SymbolAt(t, i), v));
        assert Lines(t, v, order, done) == [line] + rest;
        assert ([line] + rest)[1..] == rest;
        LinesUnderstood(t, us, v, order[1..], done + {i}, us1[i := InputBack(t, i, v)]);
        OneMore(t, v, order, done, us1, us1[i := InputBack(t, i, v)]);
      } else {
        NotSaved(t, i, v);
        assert Lines(t, v, order, done) == [] + rest == rest;
        LinesUnderstood(t, us, v, order[1..], done + {i}, us1);
        OneMore(t, v, order, done, us1, us1);
      }
      hide *;
    }
  }

  lemma OneMore(t: Table, v: Assignment, order: seq<nat>, done: set<nat>, us1: Users, us2: Users)
    requires order != [] && |us1| == |us2| == |t| && order[0] < |t|
    requires us2 == if order[0] in done then us1 else us1[order[0] := InputBack(t, order[0], v)]
    ensures forall i :: 0 <= i < |t| ==>
              (if i !in done + {order[0]} && i in order[1..] then InputBack(t, i, v) else us2[i]) ==
              (if i !in done && i in order then InputBack(t, i, v) else us1[i])
  {
    assert forall i :: i in order <==> i == order[0] || i in order[1..];
  }

  lemma LineId(d: Decl, i: nat, text: string)
    ensures LineFor(d, i, text).id == i
  {
  }

  lemma NotSaved(t: Table, i: nat, v: Assignment)
    requires i < |t|
    ensures !Saved(t, i, v) ==> InputBack(t, i, v) == EMPTY && LinesOf(t, v, i) == []
  {
  }
}
