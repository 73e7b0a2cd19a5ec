/** What the properties of a declaration make of a symbol in the C program, one by one: which prompt
    makes it visible, which default and range count, and whether it goes into the .config file. */
module Declarations {
  import opened Tristates
  import opened Expressions
  import opened Numbers
  import opened Semantics

  // ---------------------------------------------------------------- visibility

  /** Some prompt has a condition that is at least `tri`. */
  predicate Prompted(d: Decl, v: Assignment, tri: Tristate) {
    exists j :: 0 <= j < |d.prompts| && EvalOpt(d.prompts[j], v) >= tri
  }

  lemma {:induction false} PromptValueIff(prompts: seq<Option<Expr>>, v: Assignment, k: nat, tri: Tristate)
    requires k <= |prompts| && tri != NO
    ensures PromptValue(prompts, v, k) >= tri <==> exists j :: k <= j < |prompts| && EvalOpt(prompts[j], v) >= tri
    decreases |prompts| - k
  {
    if k < |prompts| {
      PromptValueIff(prompts, v, k + 1, tri);
    }
  }

  /** A symbol is visible if one of its prompts is, and at `y` if that one's condition is `y` or `m` is
      no value for it. */
  lemma VisibleIff(d: Decl, v: Assignment)
    ensures Visibility(d, v) != NO <==> Prompted(d, v, MOD)
    ensures Visibility(d, v) == YES <==>
            Prompted(d, v, MOD) && (d.stype.ThreeState? && v.modules != NO ==> Prompted(d, v, YES))
  {
    PromptValueIff(d.prompts, v, 0, MOD);
    PromptValueIff(d.prompts, v, 0, YES);
  }

  /** Direct dependencies that are not `n` count as `y`, and so do none. */
  lemma DirDepIff(d: Decl, v: Assignment)
    ensures DirDep(d, v) == NO <==> d.dirDep.Some? && Eval(d.dirDep.value, v) == NO
    ensures DirDep(d, v) != MOD
  {
  }

  // ---------------------------------------------------------------- the first that holds

  /** Default `k` holds, and none before it; the number of defaults stands for none. */
  predicate DefaultHolds(d: Decl, v: Assignment, k: nat) {
    && k <= |d.defaults| && (k < |d.defaults| ==> EvalOpt(d.defaults[k].cond, v) != NO)
    && forall j :: 0 <= j < k ==> EvalOpt(d.defaults[j].cond, v) == NO
  }

  predicate RangeHolds(d: Decl, v: Assignment, k: nat) {
    && k <= |d.ranges| && (k < |d.ranges| ==> EvalOpt(d.ranges[k].cond, v) != NO)
    && forall j :: 0 <= j < k ==> EvalOpt(d.ranges[j].cond, v) == NO
  }

  lemma {:induction false} FirstDefaultIs(d: Decl, v: Assignment, j: nat, k: nat)
    requires DefaultHolds(d, v, k) && j <= k
    ensures FirstDefault(d.defaults, v, j) ==
            if k < |d.defaults| then Some((d.defaults[k].value, EvalOpt(d.defaults[k].cond, v))) else None
    decreases k - j
  {
    if j < k {
      FirstDefaultIs(d, v, j + 1, k);
    }
  }

  lemma {:induction false} FirstRangeIs(d: Decl, v: Assignment, j: nat, k: nat)
    requires RangeHolds(d, v, k) && j <= k
    ensures FirstRange(d.ranges, v, j) == if k < |d.ranges| then Some(d.ranges[k]) else None
    decreases k - j
  {
    if j < k {
      FirstRangeIs(d, v, j + 1, k);
    }
  }

  // ---------------------------------------------------------------- ranges

  /** The number that the text of an int or hex symbol denotes. */
  function NumberOf(d: Decl, text: string): LongLong {
    StrToLL(text, NumberBase(d.stype))
  }

  /** sym_validate_range forces a number into its active range, whatever the user entered, exactly
      when the range is not empty and, for a hex symbol out of range, the bound it is moved to is
      not negative. A text that was in range stays as it is. */
  lemma RangeIsEnforced(d: Decl, text: string, v: Assignment, k: nat)
    requires d.stype.Int? || d.stype.Hex?
    requires RangeHolds(d, v, k) && k < |d.ranges|
    ensures var r, base := d.ranges[k], NumberBase(d.stype);
            var low, high, n := RangeValue(r.low, base, v), RangeValue(r.high, base, v), NumberOf(d, text);
            var bound := if n < low then low else high;
            && ((low <= NumberOf(d, Validated(d, text, v)) <= high) <==>
                low <= n <= high || (low <= high && (d.stype.Int? || bound >= 0 || high == LLONG_MAX)))
            && (low <= n <= high ==> Validated(d, text, v) == text)
            && (n < low || n > high ==> d.stype.Int? || bound >= 0 ==> NumberOf(d, Validated(d, text, v)) == bound)
  {
    FirstRangeIs(d, v, 0, k);
    var r, base := d.ranges[k], NumberBase(d.stype);
    var low, high, n := RangeValue(r.low, base, v), RangeValue(r.high, base, v), NumberOf(d, text);
    DecTextRoundTrip(low);
    DecTextRoundTrip(high);
    HexTextRoundTrip(low);
    HexTextRoundTrip(high);
  }

  /** Without an active range, and for strings, nothing is moved. */
  lemma NoRange(d: Decl, text: string, v: Assignment)
    requires RangeHolds(d, v, |d.ranges|) || d.stype.Str?
    ensures Validated(d, text, v) == text
  {
    if RangeHolds(d, v, |d.ranges|) {
      FirstRangeIs(d, v, 0, |d.ranges|);
    }
  }

  /** The bounds of a range: an int symbol is read as a decimal and a hex symbol as a hexadecimal
      number, whichever of the two is bounded; a constant as the bounded symbol is. */
  lemma BoundIs(s: Symbol, base: nat, v: Assignment, n: LongLong)
    ensures s.Config? && s.stype.Int? && v.str(s) == DecText(n) ==> RangeValue(s, base, v) == n
    ensures s.Config? && s.stype.Hex? && v.str(s) == HexText(n) && n >= 0 ==> RangeValue(s, base, v) == n
    ensures s.Constant? && s.text == DecText(n) && base == 10 ==> RangeValue(s, base, v) == n
    ensures s.Constant? && s.text == HexText(n) && n >= 0 && base == 16 ==> RangeValue(s, base, v) == n
  {
    DecTextRoundTrip(n);
    HexTextRoundTrip(n);
  }

  // ---------------------------------------------------------------- values

  /** The text before it is moved: input that is visible, else that of the first default that holds
      if it is a symbol, else nothing. */
  predicate Source(d: Decl, u: User, v: Assignment, k: nat, text: string)
    requires DefaultHolds(d, v, k)
  {
    if Visibility(d, v) != NO && u.isSet then text == u.text
    else if k < |d.defaults| && d.defaults[k].value.Sym? then text == RawText(d.defaults[k].value.s, v)
    else text == ""
  }

  /** A string has that text; an int or hex symbol too if no range is active or it is in range, and
      else it has the bound that it was moved to. */
  lemma TextValueIs(d: Decl, u: User, v: Assignment, k: nat, text: string, r: nat)
    requires IsText(d.stype) && DefaultHolds(d, v, k) && RangeHolds(d, v, r) && Source(d, u, v, k, text)
    ensures d.stype.Str? || r == |d.ranges| ==> TextValue(d, u, v) == text
    ensures !d.stype.Str? && r < |d.ranges| ==>
              var base := NumberBase(d.stype);
              var low, high, n := RangeValue(d.ranges[r].low, base, v), RangeValue(d.ranges[r].high, base, v), NumberOf(d, text);
              var bound := if n < low then low else high;
              && (low <= n <= high ==> TextValue(d, u, v) == text)
              && (n < low || n > high ==> d.stype.Int? || bound >= 0 ==> NumberOf(d, TextValue(d, u, v)) == bound)
  {
    FirstDefaultIs(d, v, 0, k);
    if d.stype.Str? || r == |d.ranges| {
      NoRange(d, text, v);
    } else {
      RangeIsEnforced(d, text, v, r);
    }
    hide Validated, RangeValue, StrToLL;
  }

  // ---------------------------------------------------------------- what is written

  /** Which symbols that are no choice members have SYMBOL_WRITE set: those that are visible, selected,
      or have a value by default. */
  lemma WritesIff(d: Decl, v: Assignment, k: nat)
    requires DefaultHolds(d, v, k)
    ensures Writes(d, v) <==>
            && !d.auto
            && (|| Prompted(d, v, MOD)
                || (IsTri(d.stype) && RevDep(d, v) != NO)
                || (!d.role.Choice? && k < |d.defaults| && (IsTri(d.stype) || d.defaults[k].value.Sym?)))
  {
    FirstDefaultIs(d, v, 0, k);
    VisibleIff(d, v);
    hide Visibility, Prompted, FirstDefault;
  }
}
