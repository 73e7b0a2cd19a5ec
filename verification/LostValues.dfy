/** Values that write_config followed by load_config does not give back. */
module LostValues {
  import opened Tristates
  import opened Expressions
  import opened Formulas
  import opened Kconfiglib
  import opened Assignments
  import opened Escaping
  import opened KconfiglibLines
  import opened KconfiglibFiles
  import T = ConfigText

  /** One symbol with a prompt if `cond`, and a default. */
  function OneSymbol(stype: SymbolType, cond: Option<Formula>, default: seq<Default>,
                     parse: (string, nat) -> Option<int>, show: (int, nat) -> string, chars: Chars): Setup {
    Setup(true, None, parse, show, chars, [SymDecl("X", stype, None, [cond], default, NEVER, [], None)], [])
  }

  lemma OneSymbolKnown(s: Setup, stype: SymbolType, cond: Option<Formula>, default: seq<Default>)
    requires s == OneSymbol(stype, cond, default, s.parse, s.show, s.chars) && !stype.Other?
    requires OptRefs(cond) == {} && |default| <= 1
    requires forall k :: 0 <= k < |default| ==> default[k].value.Leaf? && Refs(default[k].value) + OptRefs(default[k].cond) == {}
    ensures Known(s) && Ranked(s, [0]) && KnownEntries(s, NoEntries(s))
  {
    var d := s.syms[0];
    assert d.name[0] == 'X' && d.prompts[0] == cond;
    assert PromptRefs(d.prompts) == {} && DefaultRefs(d.defaults) == {} && RangeRefs(d.ranges) == {};
    assert KnownSym(s, 0);
  }

  lemma EnteredValue(s: Setup, u: Entries, v: seq<Value>, stype: SymbolType, t: string)
    requires s == OneSymbol(stype, None, [], s.parse, s.show, s.chars)
    requires Known(s) && KnownEntries(s, u) && Solves(s, u, v) && u.vals[0] == Some(t)
    requires stype.Str? || (stype.Int? && s.parse(t, 10).Some?)
    ensures v == [Text(t)] && ValueOf(s, u, 0, v) == (Text(t), true) && Visibility(s, 0, v) == YES
  {
    assert v[0] == ValueOf(s, u, 0, v).0;
  }

  /** A string with a line break can be entered, but the file cannot be read back. */
  lemma StringIsLost(s: Setup)
    requires s == OneSymbol(Str, None, [], s.parse, s.show, s.chars) && PythonText(s) && KnownNames(s) && !s.chars.space('a')
    ensures Known(s) && Ranked(s, [0]) && KnownEntries(s, NoEntries(s))
    ensures var u := Assigned(s, NoEntries(s), 0, "a\nb");
            var v := FromScratch(s, u, [0]);
            && v == [Text("a\nb")] && !Survives(s, u, 0, v)
            && !ReadText(s, FileText(s, Written(s, u, v, [OfSymbol(0)], {}))).1
  {
    OneSymbolKnown(s, Str, None, []);
    var u := Assigned(s, NoEntries(s), 0, "a\nb");
    var v := FromScratch(s, u, [0]);
    FromScratchSolves(s, u, [0]);
    EnteredValue(s, u, v, Str, "a\nb");
    EnteredIsLost(s, u, v);
  }

  lemma EnteredIsLost(s: Setup, u: Entries, v: seq<Value>)
    requires Known(s) && KnownEntries(s, u) && |v| == |s.syms| == 1 && PythonText(s) && KnownNames(s) && !s.chars.space('a')
    requires s.syms[0].stype.Str? && v == [Text("a\nb")] && ValueOf(s, u, 0, v).1
    ensures !Survives(s, u, 0, v) && !ReadText(s, FileText(s, Written(s, u, v, [OfSymbol(0)], {}))).1
  {
    var line := Set(0, "\"a\nb\"");
    EscapedIs();
    assert line == MakeConf(s.syms[0], 0, v[0]);
    OneWritten(s, u, v, line);
    MalformedLine(s);
    LineLost(s, u, v, line);
  }

  lemma LineLost(s: Setup, u: Entries, v: seq<Value>, line: Line)
    requires Known(s) && KnownEntries(s, u) && |v| == |s.syms| == 1 && ValueOf(s, u, 0, v).1 && line == MakeConf(s.syms[0], 0, v[0])
    requires !ReadBlock(s, line).1
    ensures !Survives(s, u, 0, v) && !ReadText(s, FileText(s, [line])).1
  {
    assert !Readable(s, u, v, 0);
    hide *;
    NotReadable(s, u, v);
    OneLineText(s, line);
  }

  lemma NotReadable(s: Setup, u: Entries, v: seq<Value>)
    requires Known(s) && KnownEntries(s, u) && |v| == |s.syms| == 1 && !Readable(s, u, v, 0)
    ensures !Survives(s, u, 0, v)
  {
  }

  lemma OneLineText(s: Setup, line: Line)
    ensures ReadText(s, FileText(s, [line])) == ReadBlock(s, line)
  {
    JoinFirst(s, [line]);
    assert LineText(s, line) + "\n" + "" == LineText(s, line) + "\n";
  }

  lemma OneWritten(s: Setup, u: Entries, v: seq<Value>, line: Line)
    requires Known(s) && KnownEntries(s, u) && |v| == |s.syms| == 1 && ValueOf(s, u, 0, v).1 && line == MakeConf(s.syms[0], 0, v[0])
    ensures Written(s, u, v, [OfSymbol(0)], {}) == [line]
  {
    var items := [OfSymbol(0)];
    assert Written(s, u, v, items[1..], {} + {0}) == [];
  }

  lemma EscapedIs()
    ensures PythonEscaped("a\nb") == "a\nb"
  {
    PythonEscapesAlike("a\nb");
    assert "a\nb"[1..] == "\nb" && "\nb"[1..] == "b" && "b"[1..] == "";
    assert EscapedBody("b") == "b" && EscapedBody("\nb") == "\nb";
  }

  lemma MalformedLine(s: Setup)
    requires PythonText(s) && KnownNames(s) && |s.syms| > 0 && !s.chars.space('a')
    ensures !ReadBlock(s, Set(0, "\"a\nb\"")).1
  {
    var p := T.SET_PREFIX + NameOf(s, 0) + "=";
    NamesAreClean(s, 0);
    assert forall x :: x in p ==> !T.Breaks(s.chars, x) && x != SLASH;
    PrefixClean(s, p, "\"a");
    var rest1 := T.Broken(s.chars, p + "\"a", '\n', "b\"\n");
    assert LineText(s, Set(0, "\"a\nb\"")) + "\n" == p + "\"a" + ['\n'] + "b\"\n";
    T.SetRead(s.chars, NameOf(s, 0), "\"a");
    T.RStripIs(s.chars, "\"a");
    assert T.TextOf("\"a") == None;
    ReadFirst(s, p + "\"a" + "\n", T.LinesOf(s.chars, rest1));
  }

  /** A number after a line break can be entered, but is lost. */
  lemma NumberIsLost(s: Setup)
    requires s == OneSymbol(Int, None, [], s.parse, s.show, s.chars) && PythonText(s) && KnownNames(s)
    requires s.parse("\n12", 10) == Some(12) && s.parse("", 10) == None
    ensures Known(s) && Ranked(s, [0]) && KnownEntries(s, NoEntries(s))
    ensures var u := Assigned(s, NoEntries(s), 0, "\n12");
            var v := FromScratch(s, u, [0]);
            && v == [Text("\n12")] && Readable(s, u, v, 0) && !Survives(s, u, 0, v)
            && FromScratch(s, Reloaded(s, u, v), [0]) == [Text("")]
  {
    OneSymbolKnown(s, Int, None, []);
    var u := Assigned(s, NoEntries(s), 0, "\n12");
    var v := FromScratch(s, u, [0]);
    FromScratchSolves(s, u, [0]);
    EnteredValue(s, u, v, Int, "\n12");
    EnteredNumberIsLost(s, u, v);
    assert Reloaded(s, u, v).vals[0] == None;
    hide Survives, Readable, TextBack;
    var e := Reloaded(s, u, v);
    FromScratchSolves(s, e, [0]);
    NoNumber(s, e, FromScratch(s, e, [0]));
  }

  lemma EnteredNumberIsLost(s: Setup, u: Entries, v: seq<Value>)
    requires s == OneSymbol(Int, None, [], s.parse, s.show, s.chars) && PythonText(s) && KnownNames(s)
    requires s.parse("\n12", 10) == Some(12) && s.parse("", 10) == None
    requires Known(s) && KnownEntries(s, u) && v == [Text("\n12")] && ValueOf(s, u, 0, v).1 && Visibility(s, 0, v) == YES
    ensures TextBack(s, s.syms[0], v[0]) == Some("") && Readable(s, u, v, 0) && !Survives(s, u, 0, v)
  {
    hide TextBack, ReadBlock, PythonText, KnownNames;
    NothingBack(s);
    SymbolBlock(s, u, v, 0);
  }

  lemma NothingBack(s: Setup)
    requires s == OneSymbol(Int, None, [], s.parse, s.show, s.chars) && PythonText(s)
    ensures TextBack(s, s.syms[0], Text("\n12")) == Some("")
  {
  }

  lemma NoNumber(s: Setup, u: Entries, v: seq<Value>)
    requires s == OneSymbol(Int, None, [], s.parse, s.show, s.chars) && Known(s) && KnownEntries(s, u) && Solves(s, u, v)
    requires u.vals[0] == None
    ensures v == [Text("")]
  {
    assert v[0] == ValueOf(s, u, 0, v).0;
  }

  /** A tristate symbol that is visible at `m`, and `y` by default: written as `y`, it comes back as an
      entry, which the visibility limits to `m`. */
  lemma DefaultIsLost(s: Setup)
    requires s == OneSymbol(ThreeState, Some(Leaf(Literal("m"))), [Default(Leaf(Literal("y")), None)], s.parse, s.show, s.chars)
    requires PythonText(s) && KnownNames(s)
    ensures Known(s) && Ranked(s, [0]) && KnownEntries(s, NoEntries(s))
    ensures var u := NoEntries(s); var v := FromScratch(s, u, [0]);
            !Survives(s, u, 0, v) && v == [Truth(YES)] && FromScratch(s, Reloaded(s, u, v), [0]) == [Truth(MOD)]
  {
    OneSymbolKnown(s, ThreeState, Some(Leaf(Literal("m"))), [Default(Leaf(Literal("y")), None)]);
    var u := NoEntries(s);
    var v := FromScratch(s, u, [0]);
    FromScratchSolves(s, u, [0]);
    DefaultedValue(s, u, v);
    LineBack(s, v, 0);
    var e := Reloaded(s, u, v);
    FromScratchSolves(s, e, [0]);
    DefaultedValue(s, e, FromScratch(s, e, [0]));
  }

  lemma DefaultedValue(s: Setup, u: Entries, v: seq<Value>)
    requires s == OneSymbol(ThreeState, Some(Leaf(Literal("m"))), [Default(Leaf(Literal("y")), None)], s.parse, s.show, s.chars)
    requires Known(s) && KnownEntries(s, u) && Solves(s, u, v) && (u.vals[0] == None || u.vals[0] == Some("y"))
    ensures v == [ValueOf(s, u, 0, v).0] && Visibility(s, 0, v) == MOD
    ensures ValueOf(s, u, 0, v) == (Truth(if u.vals[0].None? then YES else MOD), true)
  {
    TextsDiffer();
    assert FirstDefault(s.syms[0].defaults, true, v, 0) == Some((Leaf(Literal("y")), YES));
    assert Condition(s.syms[0].prompts[0], true, v) == MOD && PromptMax(s.syms[0].prompts, true, v, 1) == NO;
  }
}
