/** Config.write_config and Config.load_config on a live configuration. */
module ConfigFiles {
  import opened Tristates
  import opened RankNumbers
  import opened Expressions
  import opened Formulas
  import opened Kconfiglib
  import opened Assignments
  import opened ModulesSymbol
  import opened KconfiglibLines
  import opened KconfiglibFiles
  import opened KconfiglibRoundTrip
  import opened KconfiglibCache
  import T = ConfigText

  /** The conditions of menus and comments mention known symbols. */
  predicate KnownTitles(s: Setup, order: seq<Item>) {
    forall k :: 0 <= k < |order| && order[k].Heading? ==> KnownConds(s, order[k].conds)
  }

  predicate KnownConds(s: Setup, conds: seq<Option<Formula>>) {
    forall k, x :: 0 <= k < |conds| && x in OptRefs(conds[k]) ==> x < |s.syms|
  }

  /** Config.write_config; `order` lists the items of the blocks as they come. */
  method WriteConfig(c: Config, order: seq<Item>) returns (text: string)
    requires c.Valid() && KnownItems(c.s, order) && KnownTitles(c.s, order)
    modifies c`cells, c`choiceCells
    ensures c.Valid() && KnownItems(c.now, order)
    ensures text == FileText(c.now, Written(c.now, c.entries, c.Fresh(), order, {}))
  {
    c.FreshFits();
    var texts := WriteItems(c, order, c.Fresh());
    text := Join(texts) + "\n";
  }

  method WriteItems(c: Config, order: seq<Item>, ghost v: seq<Value>) returns (texts: seq<string>)
    requires c.Ready(v) && KnownItems(c.s, order) && KnownTitles(c.s, order)
    modifies c`cells, c`choiceCells
    ensures c.Ready(v) && KnownItems(c.now, order) && texts == Texts(c.now, Written(c.now, c.entries, v, order, {}))
  {
    hide *;
    var done: set<nat> := {};
    texts := [];
    ReadyKnown(c, v, order);
    assert order[0..] == order;
    for k := 0 to |order|
      invariant c.Ready(v) && Known(c.now) && KnownEntries(c.now, c.entries) && |v| == |c.now.syms| == |c.s.syms|
      invariant KnownItems(c.s, order) && KnownItems(c.now, order) && KnownItems(c.now, order[k..]) && KnownTitles(c.s, order)
      invariant Texts(c.now, Written(c.now, c.entries, v, order, {})) ==
                texts + Texts(c.now, Written(c.now, c.entries, v, order[k..], done))
    {
      WrittenStep(c.now, c.entries, v, order[k..], done);
      ItemKnown(c, order, k);
      assert order[k..][1..] == order[k + 1..];
      var here := WriteItem(c, order[k], done, v);
      texts := texts + here;
      done := DoneWith(order[k], done);
    }
    NothingWritten(c.now, c.entries, v, order[|order|..], done);
  }

  lemma ReadyKnown(c: Config, v: seq<Value>, order: seq<Item>)
    requires c.Ready(v) && KnownItems(c.s, order)
    ensures Known(c.now) && KnownEntries(c.now, c.entries) && |v| == |c.now.syms| == |c.s.syms| && KnownItems(c.now, order)
  {
  }

  lemma ItemKnown(c: Config, order: seq<Item>, k: nat)
    requires KnownItems(c.s, order) && KnownTitles(c.s, order) && k < |order|
    ensures if order[k].OfSymbol? then order[k].id < |c.s.syms| else KnownConds(c.s, order[k].conds)
  {
  }

  lemma NothingWritten(s: Setup, u: Entries, v: seq<Value>, order: seq<Item>, done: set<nat>)
    requires Known(s) && KnownEntries(s, u) && |v| == |s.syms| && order == []
    ensures KnownItems(s, order) && Texts(s, Written(s, u, v, order, done)) == []
  {
  }

  lemma WrittenStep(s: Setup, u: Entries, v: seq<Value>, order: seq<Item>, done: set<nat>)
    requires Known(s) && KnownEntries(s, u) && |v| == |s.syms| && KnownItems(s, order) && order != []
    ensures KnownItems(s, order[1..]) && (order[0].OfSymbol? ==> order[0].id < |s.syms|)
    ensures Texts(s, Written(s, u, v, order, done)) ==
            Texts(s, WrittenFor(s, u, v, order[0], done)) + Texts(s, Written(s, u, v, order[1..], DoneWith(order[0], done)))
  {
  }

  /** _make_conf of an item. */
  method WriteItem(c: Config, item: Item, done: set<nat>, ghost v: seq<Value>) returns (texts: seq<string>)
    requires c.Ready(v) && if item.OfSymbol? then item.id < |c.s.syms| else KnownConds(c.s, item.conds)
    modifies c`cells, c`choiceCells
    ensures c.Ready(v) && texts == Texts(c.now, WrittenFor(c.now, c.entries, v, item, done))
  {
    texts := [];
    match item
    case OfSymbol(i) =>
      if i !in done {
        var val := c.GetValue(i, v);
        assert CellOk(c.now, c.entries, v, i, c.cells[i]);
        if c.cells[i].write {
          texts := [LineText(c.s, MakeConf(c.s.syms[i], i, val))];
        }
      }
    case Heading(title, conds) =>
      var shown := ShownNow(c, conds, v);
      if shown {
        texts := [LineText(c.s, Title(title))];
      }
  }

  method ShownNow(c: Config, conds: seq<Option<Formula>>, ghost v: seq<Value>) returns (shown: bool)
    requires c.Ready(v) && KnownConds(c.s, conds)
    modifies c`cells, c`choiceCells
    ensures c.Ready(v) && shown == Shown(c.now, conds, v)
  {
    for k := 0 to |conds|
      invariant c.Ready(v) && forall j :: 0 <= j < k ==> Condition(conds[j], c.now.modules, v) != NO
    {
      var t := c.EvalExpr(conds[k], v, MaxRank(c.rank) + 1);
      if t == NO {
        return false;
      }
    }
    shown := true;
  }

  /** Saving a configuration and loading the file back: it works exactly if every line can be read,
      and the symbols keep their values exactly if each of them survives. */
  method SaveAndLoad(c: Config, order: seq<Item>) returns (ok: bool)
    requires c.Valid() && KnownItems(c.s, order) && KnownTitles(c.s, order)
    requires Plain(c.now, c.Fresh()) && CleanKconfig(c.now) && HarmlessTitles(c.now, order)
    requires forall i :: 0 <= i < |c.s.syms| ==> OfSymbol(i) in order
    modifies c
    ensures c.Valid()
    ensures ok <==> forall i :: 0 <= i < |c.s.syms| ==> Readable(old(c.now), old(c.entries), old(c.Fresh()), i)
    ensures ok && c.Fresh() == old(c.Fresh()) <==>
            forall i :: 0 <= i < |c.s.syms| ==> Survives(old(c.now), old(c.entries), i, old(c.Fresh()))
  {
    ghost var t, u, v := c.now, c.entries, c.Fresh();
    c.FreshFits();
    var text := WriteConfig(c, order);
    FileBack(c.s, t, u, c.rank, v, order, text);
    hide *;
    var read;
    read, ok := ReadFile(c.s, text);
    c.LoadConfig(read, true);
    if ok {
      SameValues(c, t, v);
    }
  }

  /** The round trip, with the file read under the Kconfig that does not say whether modules are on. */
  lemma FileBack(s: Setup, t: Setup, u: Entries, rank: Ranks, v: seq<Value>, order: seq<Item>, text: string)
    requires t == Switched(s, t.modules) && Known(s)
    requires Known(t) && Ranked(t, rank) && KnownEntries(t, u) && Solves(t, u, v) && Plain(t, v)
    requires KnownItems(t, order) && CleanKconfig(t) && HarmlessTitles(t, order) && forall i :: 0 <= i < |t.syms| ==> OfSymbol(i) in order
    requires text == FileText(t, Written(t, u, v, order, {}))
    ensures var r := ReadText(s, text); var none := NoEntries(s);
            && (r.1 <==> forall i :: 0 <= i < |s.syms| ==> Readable(t, u, v, i))
            && KnownEntries(t, AssignedAll(s, none, r.0))
            && (r.1 && FromScratch(t, AssignedAll(s, none, r.0), rank) == v <==>
                forall i :: 0 <= i < |s.syms| ==> Survives(t, u, i, v))
  {
    WriteLoadRoundTrip(t, u, rank, v, order);
    ReadAlike(t, s, text);
    AssignedAlike(t, s, NoEntries(s), ReadText(s, text).0);
  }

  /** Whether modules are on or off means nothing to a file. */
  lemma ReadAlike(t: Setup, s: Setup, text: string)
    requires t == Switched(s, t.modules)
    ensures ReadText(t, text) == ReadText(s, text)
  {
    LinesAlike(t, s, T.LinesOf(s.chars, text));
  }

  lemma {:induction false} LinesAlike(t: Setup, s: Setup, lines: seq<string>)
    requires t == Switched(s, t.modules)
    ensures ReadLines(t, lines) == ReadLines(s, lines)
  {
    if lines != [] {
      LinesAlike(t, s, lines[1..]);
      var r := T.ReadLine(s.chars, lines[0]);
      if r.Assign? {
        NamedAlike(t, s, r.name, 0);
      }
    }
  }

  lemma {:induction false} NamedAlike(t: Setup, s: Setup, name: string, k: nat)
    requires t == Switched(s, t.modules) && k <= |s.syms|
    ensures SymbolNamed(t, name, k) == SymbolNamed(s, name, k)
    decreases |s.syms| - k
  {
    if k < |s.syms| {
      NamedAlike(t, s, name, k + 1);
    }
  }

  lemma {:induction false} AssignedAlike(t: Setup, s: Setup, u: Entries, lines: seq<(nat, string)>)
    requires t == Switched(s, t.modules) && Known(s) && Known(t) && KnownEntries(s, u) && KnownEntries(t, u)
    requires forall k :: 0 <= k < |lines| ==> lines[k].0 < |s.syms|
    ensures NoEntries(t) == NoEntries(s)
    ensures AssignedAll(t, u, lines) == AssignedAll(s, u, lines)
    decreases lines
  {
    if lines != [] {
      AssignedAlike(t, s, Assigned(s, u, lines[0].0, lines[0].1), lines[1..]);
    }
  }

  /** The values under the new entries are the old ones whether _has_modules is asked again or not. */
  lemma SameValues(c: Config, t: Setup, v: seq<Value>)
    requires c.Sound() && t == Switched(c.s, t.modules) && Known(t) && KnownEntries(t, c.entries)
    requires |v| == |c.s.syms| && ModulesOn(t, v) == t.modules
    ensures c.Fresh() == v <==> FromScratch(t, c.entries, c.rank) == v
  {
    c.FreshFits();
    LiveFits(c.s, c.entries, c.rank, t.modules);
  }
}
