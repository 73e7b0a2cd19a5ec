/** write_config followed by load_config: exactly when it gives every symbol its value back. */
module KconfiglibRoundTrip {
  import opened Tristates
  import opened RankNumbers
  import opened Expressions
  import opened Formulas
  import opened Kconfiglib
  import opened Assignments
  import opened Escaping
  import opened KconfiglibLines
  import opened KconfiglibFiles
  import T = ConfigText

  // ---------------------------------------------------------------- where texts come from

  /** What a Kconfig file can say: constants and special symbols hold no line break, and those that
      are the values of int and hex symbols do not end in a backslash. A number is not a string by
      default. */
  predicate CleanSym(s: Setup, d: SymDecl) {
    && (d.special.Some? && d.special.value.Text? ==> CleanText(s.chars, d.special.value.s))
    && (forall k :: 0 <= k < |d.defaults| && d.defaults[k].value.Leaf? ==> CleanDefault(s, d.stype, d.defaults[k].value.x))
  }

  predicate CleanDefault(s: Setup, stype: SymbolType, x: Operand) {
    match x
    case Literal(text) => if stype.Str? then !T.HasBreak(s.chars, text) else CleanText(s.chars, text)
    case Ref(j) => !stype.Str? && j < |s.syms| ==> !s.syms[j].stype.Str? || s.syms[j].special.Some?
  }

  predicate CleanKconfig(s: Setup) {
    forall i :: 0 <= i < |s.syms| ==> CleanSym(s, s.syms[i])
  }

  /** A text without a line break, or that of a number, or it was entered. */
  ghost predicate Traced(s: Setup, v: seq<Value>, i: nat, t: string)
    requires Known(s) && |v| == |s.syms| && i < |s.syms|
  {
    || CleanText(s.chars, t) || NumberLike(s, t)
    || (s.syms[i].stype.Str? && (!T.HasBreak(s.chars, t) || exists j :: 0 <= j < |s.syms| && BrokenEntry(s, v, j)))
  }

  lemma {:induction false} FirstDefaultAmong(ds: seq<Default>, modules: bool, v: seq<Value>, k: nat)
    requires k <= |ds|
    ensures FirstDefault(ds, modules, v, k).Some? ==>
              exists j :: 0 <= j < |ds| && ds[j].value == FirstDefault(ds, modules, v, k).value.0
    decreases |ds| - k
  {
    if k < |ds| && Condition(ds[k].cond, modules, v) == NO {
      FirstDefaultAmong(ds, modules, v, k + 1);
    }
  }

  lemma WordIsClean(s: Setup, t: string)
    requires PythonText(s) && (T.IsName(s.chars, t) || t == "y" || t == "m" || t == "n")
    ensures CleanText(s.chars, t)
  {
  }

  /** Every text that a symbol can have as its value is such a text. */
  lemma {:induction false} TextIsTraced(s: Setup, u: Entries, rank: Ranks, v: seq<Value>, i: nat)
    requires Known(s) && Ranked(s, rank) && KnownEntries(s, u) && Solves(s, u, v) && Plain(s, v) && CleanKconfig(s)
    requires i < |s.syms| && v[i].Text?
    ensures Traced(s, v, i, v[i].s)
    decreases rank[i], 1
  {
    var d := s.syms[i];
    assert v[i] == ValueOf(s, u, i, v).0;
    if d.special.Some? {
      assert CleanSym(s, d);
    } else if d.stype.Unknown? {
      WordIsClean(s, d.name);
    } else {
      forall k | 0 <= k < |d.defaults| ensures Traced(s, v, i, DefaultText(d.defaults[k].value, v)) {
        DefaultIsTraced(s, u, rank, v, i, k);
      }
      hide *;
      OwnTextIsTraced(s, u, v, i);
    }
  }

  lemma OwnTextIsTraced(s: Setup, u: Entries, v: seq<Value>, i: nat)
    requires Known(s) && KnownEntries(s, u) && |v| == |s.syms| && PythonText(s) && i < |s.syms| && s.syms[i].special.None?
    requires v[i].Text? && v[i] == ValueOf(s, u, i, v).0 && !s.syms[i].stype.Unknown?
    requires forall k :: 0 <= k < |s.syms[i].defaults| ==> Traced(s, v, i, DefaultText(s.syms[i].defaults[k].value, v))
    ensures Traced(s, v, i, v[i].s)
  {
    assert KnownSym(s, i);
    if s.syms[i].stype.Str? {
      StringIs(s, u, v, i);
      FirstDefaultAmong(s.syms[i].defaults, s.modules, v, 0);
      assert v[i].s == "" || !T.HasBreak(s.chars, v[i].s) || BrokenEntry(s, v, i)
             || exists k :: 0 <= k < |s.syms[i].defaults| && v[i].s == DefaultText(s.syms[i].defaults[k].value, v);
    } else {
      NumberIs(s, u, v, i);
      NumberFromTraced(s, v, i, 0, "");
      hide Visibility, Traced, FirstDefault, ValueOf, NumberFrom;
      assert v[i].s == NumberFrom(s, s.syms[i], v, 0, "") || NumberLike(s, v[i].s);
      hide *;
      NumberIsTraced(s, v, i, v[i].s);
    }
  }

  lemma NumberIsTraced(s: Setup, v: seq<Value>, i: nat, t: string)
    requires Known(s) && |v| == |s.syms| && i < |s.syms|
    ensures NumberLike(s, t) ==> Traced(s, v, i, t)
  {
  }

  lemma {:induction false} NumberFromTraced(s: Setup, v: seq<Value>, i: nat, k: nat, text: string)
    requires Known(s) && |v| == |s.syms| && PythonText(s) && i < |s.syms| && k <= |s.syms[i].defaults|
    requires Traced(s, v, i, text)
    requires forall j :: 0 <= j < |s.syms[i].defaults| ==> Traced(s, v, i, DefaultText(s.syms[i].defaults[j].value, v))
    ensures Traced(s, v, i, NumberFrom(s, s.syms[i], v, k, text))
    decreases |s.syms[i].defaults| - k
  {
    var d := s.syms[i];
    if k < |d.defaults| {
      var t := DefaultText(d.defaults[k].value, v);
      NumberFromTraced(s, v, i, k + 1, text);
      NumberFromTraced(s, v, i, k + 1, t);
      ClampedTraced(s, v, i, t);
    } else {
      ShownTraced(s, v, i);
    }
  }

  lemma ShownTraced(s: Setup, v: seq<Value>, i: nat)
    requires Known(s) && |v| == |s.syms| && PythonText(s) && i < |s.syms|
    ensures forall n :: Traced(s, v, i, s.show(n, BaseOf(s.syms[i].stype)))
  {
    forall n ensures Traced(s, v, i, s.show(n, BaseOf(s.syms[i].stype))) {
      assert CleanText(s.chars, s.show(n, 10)) && CleanText(s.chars, s.show(n, 16));
    }
  }

  lemma ClampedTraced(s: Setup, v: seq<Value>, i: nat, t: string)
    requires Known(s) && |v| == |s.syms| && PythonText(s) && i < |s.syms| && Traced(s, v, i, t)
    ensures Traced(s, v, i, Clamped(s, s.syms[i], t, v))
  {
    ShownTraced(s, v, i);
    hide Traced, FirstRange, BoundValue;
  }

  lemma DefaultIsTraced(s: Setup, u: Entries, rank: Ranks, v: seq<Value>, i: nat, k: nat)
    requires Known(s) && Ranked(s, rank) && KnownEntries(s, u) && Solves(s, u, v) && Plain(s, v) && CleanKconfig(s)
    requires i < |s.syms| && v[i].Text? && s.syms[i].special.None? && !s.syms[i].stype.Unknown? && k < |s.syms[i].defaults|
    ensures Traced(s, v, i, DefaultText(s.syms[i].defaults[k].value, v))
    decreases rank[i], 0
  {
    var d := s.syms[i];
    var e := d.defaults[k];
    if e.value.Leaf? {
      assert CleanSym(s, d) && CleanDefault(s, d.stype, e.value.x);
      if e.value.x.Ref? {
        var j := e.value.x.id;
        assert KnownSym(s, i) && RankedSym(s, rank, i);
        assert j in Refs(e.value) + OptRefs(e.cond);
        assert j in Reads(s, i);
        if v[j].Truth? {
          WordIsClean(s, TruthText(v[j].t));
        } else {
          TextIsTraced(s, u, rank, v, j);
          assert CleanSym(s, s.syms[j]);
        }
      }
    }
  }

  // ---------------------------------------------------------------- a broken string never comes back

  /** After assignments of texts without a line break, one of them to `i`, its entry is such a text. */
  lemma {:induction false} EntryUnbroken(s: Setup, e: Entries, lines: seq<(nat, string)>, i: nat)
    requires Known(s) && KnownEntries(s, e) && i < |s.syms| && s.syms[i].stype.Str? && s.syms[i].special.None?
    requires forall k :: 0 <= k < |lines| ==> lines[k].0 < |s.syms| && !T.HasBreak(s.chars, lines[k].1)
    requires (exists k :: 0 <= k < |lines| && lines[k].0 == i) || (e.vals[i].Some? && !T.HasBreak(s.chars, e.vals[i].value))
    ensures var a := AssignedAll(s, e, lines); a.vals[i].Some? && !T.HasBreak(s.chars, a.vals[i].value)
    decreases lines
  {
    if lines != [] {
      var e1 := Assigned(s, e, lines[0].0, lines[0].1);
      assert lines[0].0 == i ==> e1.vals[i] == Some(lines[0].1);
      assert lines[0].0 != i ==> e1.vals[i] == e.vals[i];
      if k :| 0 <= k < |lines| && lines[k].0 == i && lines[0].0 != i {
        assert lines[1..][k - 1].0 == i;
      }
      EntryUnbroken(s, e1, lines[1..], i);
    }
  }

  /** Such a string is lost, whatever the rest of the file is read as. */
  lemma BrokenIsLost(s: Setup, u: Entries, rank: Ranks, v: seq<Value>, order: seq<Item>, i: nat)
    requires Known(s) && Ranked(s, rank) && KnownEntries(s, u) && Solves(s, u, v) && Plain(s, v)
    requires KnownItems(s, order) && Tidy(s, u, v, order) && i < |s.syms| && OfSymbol(i) in order && BrokenEntry(s, v, i)
    ensures !Survives(s, u, i, v)
    ensures var r := ReadText(s, FileText(s, Written(s, u, v, order, {})));
            r.1 ==> FromScratch(s, AssignedAll(s, NoEntries(s), r.0), rank) != v
  {
    BrokenWritten(s, u, v, i);
    FileIsRead(s, u, v, order);
    var text := FileText(s, Written(s, u, v, order, {}));
    var r := ReadText(s, text);
    if r.1 {
      BrokenReplaced(s, u, v, order, i, text);
      EntryIsValue(s, AssignedAll(s, NoEntries(s), r.0), rank, v, i);
    }
  }

  lemma BrokenReplaced(s: Setup, u: Entries, v: seq<Value>, order: seq<Item>, i: nat, text: string)
    requires Known(s) && KnownEntries(s, u) && Plain(s, v)
    requires KnownItems(s, order) && Tidy(s, u, v, order) && i < |s.syms| && OfSymbol(i) in order
    requires BrokenString(s, v, i) && s.syms[i].special.None? && ValueOf(s, u, i, v).1
    requires ReadText(s, text) == ReadBlocks(s, Written(s, u, v, order, {})) && ReadText(s, text).1
    ensures var a := AssignedAll(s, NoEntries(s), ReadText(s, text).0); a.vals[i].Some? && !T.HasBreak(s.chars, a.vals[i].value)
  {
    var r := ReadText(s, text);
    LineAmong(s, u, v, order, {}, i);
    ItemTidy(s, u, v, order, i);
    SymbolEnds(s, u, v, i);
    FirstAssigned(s, i, [QUOTE] + PythonEscaped(v[i].s) + [QUOTE]);
    var first := ReadBlock(s, MakeConf(s.syms[i], i, v[i])).0[0];
    assert first in r.0 && first.0 == i;
    hide *;
    forall k | 0 <= k < |r.0| ensures r.0[k].0 < |s.syms| && !T.HasBreak(s.chars, r.0[k].1) {
      TextsAssigned(s, text, k);
    }
    EntryUnbroken(s, NoEntries(s), r.0, i);
  }

  lemma BrokenWritten(s: Setup, u: Entries, v: seq<Value>, i: nat)
    requires Known(s) && KnownEntries(s, u) && |v| == |s.syms| && i < |s.syms| && BrokenEntry(s, v, i)
    ensures ValueOf(s, u, i, v).1 && s.syms[i].special.None? && !Survives(s, u, i, v)
  {
    assert KnownSym(s, i);
  }

  /** If values come back, those of strings that could be entered are their entries. */
  lemma EntryIsValue(s: Setup, e: Entries, rank: Ranks, v: seq<Value>, i: nat)
    requires Known(s) && Ranked(s, rank) && KnownEntries(s, e) && |v| == |s.syms| && i < |s.syms|
    requires s.syms[i].stype.Str? && s.syms[i].special.None? && Visibility(s, i, v) != NO && e.vals[i].Some?
    ensures FromScratch(s, e, rank) == v ==> v[i] == Text(e.vals[i].value)
  {
    FromScratchSolves(s, e, rank);
    if FromScratch(s, e, rank) == v {
      assert v[i] == ValueOf(s, e, i, v).0;
    }
  }

  // ---------------------------------------------------------------- nor can a broken number be read as a string

  lemma {:induction false} ReplaceNone(t: string, x: char, with: string)
    requires x !in t
    ensures Replace(t, [x], with) == t
  {
    if t != "" {
      assert t[..1] == [t[0]] && t[0] in t;
      ReplaceNone(t[1..], x, with);
    }
  }

  /** A string that is the text of a number with a line break is malformed. */
  lemma NumberInQuotes(s: Setup, u: Entries, v: seq<Value>, i: nat)
    requires Known(s) && KnownEntries(s, u) && Plain(s, v) && i < |s.syms|
    requires BrokenString(s, v, i) && NumberLike(s, v[i].s) && ValueOf(s, u, i, v).1
    ensures !Readable(s, u, v, i)
  {
    var t := v[i].s;
    NumberClean(s, v[i]);
    ReplaceNone(t, SLASH, [SLASH, SLASH]);
    ReplaceNone(t, QUOTE, [SLASH, QUOTE]);
    assert MakeConf(s.syms[i], i, v[i]) == Set(i, [QUOTE] + t + [QUOTE]);
    QuotedNumber(s, i, t);
  }

  lemma QuotedNumber(s: Setup, i: nat, t: string)
    requires PythonText(s) && KnownNames(s) && i < |s.syms|
    requires T.HasBreak(s.chars, t) && SLASH !in t && QUOTE !in t && 'G' !in t
    ensures !ReadBlock(s, Set(i, [QUOTE] + t + [QUOTE])).1
  {
    var rhs := [QUOTE] + t + [QUOTE];
    QuotedBreak(s.chars, t);
    QuotedPart(s, t);
    SetBlock(s, i, rhs);
  }

  lemma QuotedBreak(c: Chars, t: string)
    requires T.HasBreak(c, t)
    ensures T.HasBreak(c, [QUOTE] + t + [QUOTE])
  {
    var rhs := [QUOTE] + t + [QUOTE];
    var k :| 0 <= k < |t| && T.Breaks(c, t[k]);
    assert rhs[k + 1] == t[k];
  }

  lemma QuotedPart(s: Setup, t: string)
    requires PythonText(s) && T.HasBreak(s.chars, t) && QUOTE !in t
    ensures Back(s, [QUOTE] + t + [QUOTE]) == None
  {
    var c, rhs := s.chars, [QUOTE] + t + [QUOTE];
    var part := T.FirstPart(c, rhs);
    QuotedBreak(c, t);
    T.FirstPartIs(c, rhs);
    assert !T.Breaks(c, rhs[0]) && !c.space(QUOTE) && T.Breaks(c, rhs[|part|]);
    FirstPartOf(c, rhs, part);
    assert T.Breaks(c, rhs[|rhs| - 1]) == false;
    BeforeBreak(t, rhs, part);
    T.RStripTail(c, [QUOTE], part[1..]);
    T.RStripIs(c, part[1..]);
    Unclosed(T.RStrip(c, part[1..]));
  }

  lemma FirstPartOf(c: Chars, rhs: string, part: string)
    requires part == T.FirstPart(c, rhs) && rhs != "" && !T.Breaks(c, rhs[0])
    ensures part != "" && part[0] == rhs[0]
  {
  }

  lemma BeforeBreak(t: string, rhs: string, part: string)
    requires rhs == [QUOTE] + t + [QUOTE] && part <= rhs && 0 < |part| < |rhs| && QUOTE !in t
    ensures part == [QUOTE] + part[1..] && QUOTE !in part[1..]
  {
    assert part[1..] <= t;
  }

  lemma Unclosed(t: string)
    requires QUOTE !in t
    ensures T.TextOf([QUOTE] + t) == None
  {
  }

  // ---------------------------------------------------------------- the round trip

  /** Writing a configuration and loading the file into an empty one works exactly if every line can
      be read, and gives every symbol its value back exactly if every symbol survives; bool symbols
      and strings without a line break always do. The file lists every symbol, some perhaps more than
      once. */
  lemma WriteLoadRoundTrip(s: Setup, u: Entries, rank: Ranks, v: seq<Value>, order: seq<Item>)
    requires Known(s) && Ranked(s, rank) && KnownEntries(s, u) && Solves(s, u, v) && Plain(s, v) && CleanKconfig(s)
    requires KnownItems(s, order) && HarmlessTitles(s, order) && forall i :: 0 <= i < |s.syms| ==> OfSymbol(i) in order
    ensures var r := ReadText(s, FileText(s, Written(s, u, v, order, {})));
            && (r.1 <==> forall i :: 0 <= i < |s.syms| ==> Readable(s, u, v, i))
            && (r.1 && FromScratch(s, AssignedAll(s, NoEntries(s), r.0), rank) == v <==>
                forall i :: 0 <= i < |s.syms| ==> Survives(s, u, i, v))
    ensures forall i :: 0 <= i < |s.syms| && (s.syms[i].stype.Boolean? || (s.syms[i].stype.Str? && !BrokenString(s, v, i))) ==>
              Survives(s, u, i, v)
  {
    AllTidy(s, u, rank, v);
    FileIsRead(s, u, v, order);
    LinesReadable(s, u, v, order, {});
    hide *;
    SurviveReadable(s, u, v);
    if i :| 0 <= i < |s.syms| && BrokenString(s, v, i) {
      BrokenSomewhere(s, u, rank, v, i);
      if j :| 0 <= j < |s.syms| && BrokenEntry(s, v, j) {
        BrokenIsLost(s, u, rank, v, order, j);
      }
    } else if forall i :: 0 <= i < |s.syms| ==> Readable(s, u, v, i) {
      UnbrokenBack(s, u, rank, v, order);
    }
    OthersSurvive(s, u, v);
  }

  lemma SurviveReadable(s: Setup, u: Entries, v: seq<Value>)
    requires Known(s) && KnownEntries(s, u) && |v| == |s.syms|
    ensures forall i :: 0 <= i < |s.syms| && Survives(s, u, i, v) ==> Readable(s, u, v, i)
  {
  }

  lemma OthersSurvive(s: Setup, u: Entries, v: seq<Value>)
    requires Known(s) && KnownEntries(s, u) && |v| == |s.syms| && Solves(s, u, v) && Plain(s, v)
    requires forall i :: 0 <= i < |s.syms| ==> TidySym(s, u, v, i)
    ensures forall i :: 0 <= i < |s.syms| && (s.syms[i].stype.Boolean? || (s.syms[i].stype.Str? && !BrokenString(s, v, i))) ==>
              Survives(s, u, i, v)
  {
    hide *;
    forall i | 0 <= i < |s.syms| && (s.syms[i].stype.Boolean? || (s.syms[i].stype.Str? && !BrokenString(s, v, i)))
      ensures Survives(s, u, i, v)
    {
      AlwaysSurvives(s, u, v, i);
    }
  }

  lemma AllTidy(s: Setup, u: Entries, rank: Ranks, v: seq<Value>)
    requires Known(s) && Ranked(s, rank) && KnownEntries(s, u) && Solves(s, u, v) && Plain(s, v) && CleanKconfig(s)
    ensures forall i :: 0 <= i < |s.syms| ==> TidySym(s, u, v, i)
  {
    forall i | 0 <= i < |s.syms| ensures TidySym(s, u, v, i) {
      if v[i].Text? {
        TextIsTraced(s, u, rank, v, i);
      }
    }
  }

  /** Where a string holds a line break, some line is unreadable, or a string that was entered does. */
  lemma BrokenSomewhere(s: Setup, u: Entries, rank: Ranks, v: seq<Value>, i: nat)
    requires Known(s) && Ranked(s, rank) && KnownEntries(s, u) && Solves(s, u, v) && Plain(s, v) && CleanKconfig(s)
    requires i < |s.syms| && BrokenString(s, v, i)
    ensures !Readable(s, u, v, i) || exists j :: 0 <= j < |s.syms| && BrokenEntry(s, v, j)
  {
    TextIsTraced(s, u, rank, v, i);
    assert v[i] == ValueOf(s, u, i, v).0;
    if NumberLike(s, v[i].s) {
      BrokenIsWritten(s, u, v, i);
      NumberInQuotes(s, u, v, i);
    }
  }

  lemma BrokenIsWritten(s: Setup, u: Entries, v: seq<Value>, i: nat)
    requires Known(s) && KnownEntries(s, u) && |v| == |s.syms| && i < |s.syms| && CleanKconfig(s)
    requires BrokenString(s, v, i) && v[i] == ValueOf(s, u, i, v).0
    ensures ValueOf(s, u, i, v).1
  {
    assert CleanSym(s, s.syms[i]);
  }

  lemma AlwaysSurvives(s: Setup, u: Entries, v: seq<Value>, i: nat)
    requires Known(s) && KnownEntries(s, u) && Solves(s, u, v) && Plain(s, v) && i < |s.syms| && TidySym(s, u, v, i)
    requires s.syms[i].stype.Boolean? || (s.syms[i].stype.Str? && !BrokenString(s, v, i))
    ensures Survives(s, u, i, v)
  {
    AlwaysReadable(s, u, v, i);
    SymbolBack(s, u, v, i);
  }

  lemma UnbrokenBack(s: Setup, u: Entries, rank: Ranks, v: seq<Value>, order: seq<Item>)
    requires Known(s) && Ranked(s, rank) && KnownEntries(s, u) && Solves(s, u, v) && Plain(s, v)
    requires KnownItems(s, order) && Tidy(s, u, v, order) && forall i :: 0 <= i < |s.syms| ==> OfSymbol(i) in order
    requires forall i :: 0 <= i < |s.syms| ==> !BrokenString(s, v, i) && Readable(s, u, v, i)
    requires ReadText(s, FileText(s, Written(s, u, v, order, {}))).1
    ensures var r := ReadText(s, FileText(s, Written(s, u, v, order, {})));
            FromScratch(s, AssignedAll(s, NoEntries(s), r.0), rank) == v <==> forall i :: 0 <= i < |s.syms| ==> Survives(s, u, i, v)
  {
    FileIsRead(s, u, v, order);
    LinesBack(s, u, v, order, {}, NoEntries(s));
    var r := ReadBlocks(s, Written(s, u, v, order, {}));
    assert AssignedAll(s, NoEntries(s), r.0).vals == Reloaded(s, u, v).vals;
    assert AssignedAll(s, NoEntries(s), r.0) == Reloaded(s, u, v);
    ReloadedBack(s, u, rank, v);
  }
}
