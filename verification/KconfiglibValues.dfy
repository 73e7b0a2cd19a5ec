/** Which default, range or entry makes the value of an int or hex symbol of kconfiglib.py, and which
    symbols have write_to_conf set. */
module KconfiglibValues {
  import opened Tristates
  import opened Expressions
  import opened Formulas
  import opened Kconfiglib
  import opened KconfiglibChoices

  // ---------------------------------------------------------------- the first that holds

  /** Range `k` holds, and none before it; the number of ranges stands for none. */
  predicate RangeHolds(s: Setup, d: SymDecl, v: seq<Value>, k: nat) {
    && k <= |d.ranges| && (k < |d.ranges| ==> Condition(d.ranges[k].cond, s.modules, v) != NO)
    && forall j :: 0 <= j < k ==> Condition(d.ranges[j].cond, s.modules, v) == NO
  }

  lemma {:induction false} FirstRangeIs(s: Setup, d: SymDecl, v: seq<Value>, j: nat, k: nat)
    requires RangeHolds(s, d, v, k) && j <= k
    ensures FirstRange(d.ranges, s.modules, v, j) == if k < |d.ranges| then Some(d.ranges[k]) else None
    decreases k - j
  {
    if j < k {
      FirstRangeIs(s, d, v, j + 1, k);
    }
  }

  /** The number that the text of an int or hex symbol stands for. */
  function NumberOf(s: Setup, d: SymDecl, text: string): Option<int> {
    s.parse(text, BaseOf(d.stype))
  }

  function Low(s: Setup, d: SymDecl, v: seq<Value>, k: nat): int
    requires k < |d.ranges|
  {
    BoundValue(s, d.ranges[k].low, BaseOf(d.stype), v)
  }

  function High(s: Setup, d: SymDecl, v: seq<Value>, k: nat): int
    requires k < |d.ranges|
  {
    BoundValue(s, d.ranges[k].high, BaseOf(d.stype), v)
  }

  predicate WithinRange(s: Setup, d: SymDecl, v: seq<Value>, r: nat, n: int)
    requires r <= |d.ranges|
  {
    r < |d.ranges| ==> Low(s, d, v, r) <= n <= High(s, d, v, r)
  }

  // ---------------------------------------------------------------- entries

  /** A number that was entered is the value, as it was entered, if the symbol is visible and the number
      is in the active range. */
  lemma EntryIsTaken(s: Setup, u: Entries, v: seq<Value>, i: nat, r: nat)
    requires Known(s) && KnownEntries(s, u) && Solves(s, u, v) && i < |s.syms| && s.syms[i].special.None?
    requires (s.syms[i].stype.Int? || s.syms[i].stype.Hex?) && RangeHolds(s, s.syms[i], v, r)
    requires Visibility(s, i, v) != NO && u.vals[i].Some? && NumberOf(s, s.syms[i], u.vals[i].value).Some?
    requires WithinRange(s, s.syms[i], v, r, NumberOf(s, s.syms[i], u.vals[i].value).value)
    ensures v[i] == Text(u.vals[i].value)
  {
    assert KnownSym(s, i) && v[i] == ValueOf(s, u, i, v).0;
    FirstRangeIs(s, s.syms[i], v, 0, r);
    hide Visibility, NumberDefault;
  }

  /** No entry counts. */
  predicate Unentered(s: Setup, u: Entries, v: seq<Value>, i: nat, r: nat)
    requires Known(s) && KnownEntries(s, u) && i < |s.syms| && r <= |s.syms[i].ranges|
  {
    Visibility(s, i, v) != NO && u.vals[i].Some? && NumberOf(s, s.syms[i], u.vals[i].value).Some? ==>
      !WithinRange(s, s.syms[i], v, r, NumberOf(s, s.syms[i], u.vals[i].value).value)
  }

  lemma DefaultIsTaken(s: Setup, u: Entries, v: seq<Value>, i: nat, r: nat)
    requires Known(s) && KnownEntries(s, u) && Solves(s, u, v) && i < |s.syms| && s.syms[i].special.None?
    requires (s.syms[i].stype.Int? || s.syms[i].stype.Hex?) && RangeHolds(s, s.syms[i], v, r) && Unentered(s, u, v, i, r)
    ensures v[i] == Text(NumberFrom(s, s.syms[i], v, 0, ""))
  {
    assert KnownSym(s, i) && v[i] == ValueOf(s, u, i, v).0;
    FirstRangeIs(s, s.syms[i], v, 0, r);
    hide Visibility, NumberFrom;
  }

  // ---------------------------------------------------------------- defaults

  predicate Holding(s: Setup, d: SymDecl, v: seq<Value>, k: nat)
    requires k < |d.defaults|
  {
    Condition(d.defaults[k].cond, s.modules, v) != NO
  }

  /** Default `k` holds and is a number. */
  predicate Numeric(s: Setup, d: SymDecl, v: seq<Value>, k: nat)
    requires k < |d.defaults|
  {
    Holding(s, d, v, k) && NumberOf(s, d, DefaultText(d.defaults[k].value, v)).Some?
  }

  lemma {:induction false} NumberFromIs(s: Setup, d: SymDecl, v: seq<Value>, j: nat, k: nat, text: string)
    requires j <= k < |d.defaults| && Numeric(s, d, v, k) && forall i :: j <= i < k ==> !Numeric(s, d, v, i)
    ensures NumberFrom(s, d, v, j, text) == Clamped(s, d, DefaultText(d.defaults[k].value, v), v)
    decreases k - j
  {
    if j < k {
      assert !Numeric(s, d, v, j);
      NumberFromIs(s, d, v, j + 1, k, text);
      NumberFromIs(s, d, v, j + 1, k, DefaultText(d.defaults[j].value, v));
    }
  }

  /** Otherwise the first default counts that holds and is a number: as it stands if it is in the active
      range or none is active, and else as the bound that is nearer to it. */
  lemma NumericDefaultDecides(s: Setup, u: Entries, v: seq<Value>, i: nat, r: nat, k: nat)
    requires Known(s) && KnownEntries(s, u) && Solves(s, u, v) && i < |s.syms| && s.syms[i].special.None?
    requires (s.syms[i].stype.Int? || s.syms[i].stype.Hex?) && RangeHolds(s, s.syms[i], v, r) && Unentered(s, u, v, i, r)
    requires k < |s.syms[i].defaults| && Numeric(s, s.syms[i], v, k) && forall j :: 0 <= j < k ==> !Numeric(s, s.syms[i], v, j)
    ensures var d := s.syms[i];
            var text, base := DefaultText(d.defaults[k].value, v), BaseOf(d.stype);
            var n := NumberOf(s, d, text).value;
            && (WithinRange(s, d, v, r, n) ==> v[i] == Text(text))
            && (r < |d.ranges| && n < Low(s, d, v, r) ==> v[i] == Text(s.show(Low(s, d, v, r), base)))
            && (r < |d.ranges| && Low(s, d, v, r) <= n && n > High(s, d, v, r) ==> v[i] == Text(s.show(High(s, d, v, r), base)))
  {
    DefaultIsTaken(s, u, v, i, r);
    NumberFromIs(s, s.syms[i], v, 0, k, "");
    FirstRangeIs(s, s.syms[i], v, 0, r);
    hide NumberFrom, Solves, Unentered, Known;
  }

  /** The text of the last default that holds, from `j` on. */
  function LastText(s: Setup, d: SymDecl, v: seq<Value>, k: nat): string
    requires k <= |d.defaults|
  {
    if k == 0 then ""
    else if Holding(s, d, v, k - 1) then DefaultText(d.defaults[k - 1].value, v)
    else LastText(s, d, v, k - 1)
  }

  lemma {:induction false} NumberFromNone(s: Setup, d: SymDecl, v: seq<Value>, j: nat)
    requires j <= |d.defaults| && forall k :: 0 <= k < |d.defaults| ==> !Numeric(s, d, v, k)
    ensures NumberFrom(s, d, v, j, LastText(s, d, v, j)) == NumberFrom(s, d, v, |d.defaults|, LastText(s, d, v, |d.defaults|))
    decreases |d.defaults| - j
  {
    if j < |d.defaults| {
      assert !Numeric(s, d, v, j);
      NumberFromNone(s, d, v, j + 1);
    }
  }

  /** Without one, the low end of the active range counts if it is positive, and else the last default
      that holds, although it is no number. */
  lemma NoNumericDefault(s: Setup, u: Entries, v: seq<Value>, i: nat, r: nat)
    requires Known(s) && KnownEntries(s, u) && Solves(s, u, v) && i < |s.syms| && s.syms[i].special.None?
    requires (s.syms[i].stype.Int? || s.syms[i].stype.Hex?) && RangeHolds(s, s.syms[i], v, r) && Unentered(s, u, v, i, r)
    requires forall k :: 0 <= k < |s.syms[i].defaults| ==> !Numeric(s, s.syms[i], v, k)
    ensures var d := s.syms[i];
            v[i] == Text(if r < |d.ranges| && Low(s, d, v, r) > 0 then s.show(Low(s, d, v, r), BaseOf(d.stype))
                         else LastText(s, d, v, |d.defaults|))
  {
    var d := s.syms[i];
    DefaultIsTaken(s, u, v, i, r);
    NumberFromNone(s, d, v, 0);
    FirstRangeIs(s, d, v, 0, r);
    assert LastText(s, d, v, 0) == "";
    hide Solves, Unentered, Known;
  }

  // ---------------------------------------------------------------- ranges

  lemma {:induction false} FirstNumeric(s: Setup, d: SymDecl, v: seq<Value>, k: nat) returns (first: nat)
    requires k < |d.defaults| && Numeric(s, d, v, k)
    ensures first <= k && Numeric(s, d, v, first) && forall j :: 0 <= j < first ==> !Numeric(s, d, v, j)
  {
    first := k;
    if j :| 0 <= j < k && Numeric(s, d, v, j) {
      first := FirstNumeric(s, d, v, j);
    }
  }

  lemma {:induction false} LastIsNoNumber(s: Setup, d: SymDecl, v: seq<Value>, k: nat)
    requires k <= |d.defaults| && NumberOf(s, d, "").None? && forall j :: 0 <= j < |d.defaults| ==> !Numeric(s, d, v, j)
    ensures NumberOf(s, d, LastText(s, d, v, k)).None?
  {
    if k > 0 {
      assert !Numeric(s, d, v, k - 1);
      LastIsNoNumber(s, d, v, k - 1);
    }
  }

  /** Where str and hex write numbers that int reads back, a number that is the value is in the active
      range, unless the range is empty. */
  lemma NumberIsInRange(s: Setup, u: Entries, v: seq<Value>, i: nat, r: nat)
    requires Known(s) && KnownEntries(s, u) && Solves(s, u, v) && i < |s.syms| && s.syms[i].special.None?
    requires (s.syms[i].stype.Int? || s.syms[i].stype.Hex?) && RangeHolds(s, s.syms[i], v, r) && r < |s.syms[i].ranges|
    requires Low(s, s.syms[i], v, r) <= High(s, s.syms[i], v, r) && NumberOf(s, s.syms[i], "").None?
    requires forall n :: s.parse(s.show(n, BaseOf(s.syms[i].stype)), BaseOf(s.syms[i].stype)) == Some(n)
    ensures v[i].Text?
    ensures NumberOf(s, s.syms[i], v[i].s).Some? ==> WithinRange(s, s.syms[i], v, r, NumberOf(s, s.syms[i], v[i].s).value)
  {
    var d := s.syms[i];
    if !Unentered(s, u, v, i, r) {
      EntryIsTaken(s, u, v, i, r);
    } else if k :| 0 <= k < |d.defaults| && Numeric(s, d, v, k) {
      var first := FirstNumeric(s, d, v, k);
      NumericDefaultDecides(s, u, v, i, r, first);
      hide Solves, Unentered, Known, BoundValue, DefaultText;
    } else {
      NoNumericDefault(s, u, v, i, r);
      LastIsNoNumber(s, d, v, |d.defaults|);
    }
  }

  // ---------------------------------------------------------------- what is written

  lemma {:induction false} SomeDefault(s: Setup, d: SymDecl, v: seq<Value>, k: nat)
    requires k <= |d.defaults|
    ensures FirstDefault(d.defaults, s.modules, v, k).Some? <==> exists j :: k <= j < |d.defaults| && Holding(s, d, v, j)
    decreases |d.defaults| - k
  {
    if k < |d.defaults| {
      SomeDefault(s, d, v, k + 1);
      assert Holding(s, d, v, k) <==> Condition(d.defaults[k].cond, s.modules, v) != NO;
    }
  }

  /** Symbols outside choices are written that are visible, have a default that holds, or are selected. */
  lemma PlainWrittenIff(s: Setup, u: Entries, v: seq<Value>, i: nat)
    requires Known(s) && KnownEntries(s, u) && i < |s.syms| && (s.syms[i].choice.None? || !IsTri(s.syms[i].stype))
    ensures KnownSym(s, i)
    ensures ValueOf(s, u, i, v).1 <==>
            && s.syms[i].special.None? && !s.syms[i].stype.Unknown?
            && (|| Visibility(s, i, v) != NO
                || (exists k :: 0 <= k < |s.syms[i].defaults| && Holding(s, s.syms[i], v, k))
                || (IsTri(s.syms[i].stype) && Condition(Some(s.syms[i].revDep), s.modules, v) != NO))
  {
    assert KnownSym(s, i);
    SomeDefault(s, s.syms[i], v, 0);
    hide Visibility, FirstDefault, NumberFrom, Known;
  }

  /** Bool and tristate symbols of choices that are visible, while the choice is set. */
  lemma MemberWrittenIff(s: Setup, u: Entries, v: seq<Value>, i: nat, c: nat)
    requires Known(s) && KnownEntries(s, u) && Solves(s, u, v) && c < |s.choices|
    requires i in s.choices[c].actual && i < |s.syms| && IsTri(s.syms[i].stype)
    ensures ValueOf(s, u, i, v).1 <==> Visibility(s, i, v) != NO && IsSet(s, u, c)
  {
    MemberIs(s, u, v, c, i);
    ModeIs(s, u, c, v);
    assert Visibility(s, i, v) != NO ==> ChoiceVisibility(s, c, v) != NO;
    hide Visibility, Mode;
  }
}
