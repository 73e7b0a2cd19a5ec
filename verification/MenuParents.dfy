/** Where menu_finalize may put an entry, and what that means for the user who opens the menu. */
module MenuParents {
  import opened Tristates
  import opened Expressions
  import opened Menus
  import opened MenuLinks
  import Nesting

  /** Whether the second entry may stand directly below the first. */
  type Link = (nat, nat) -> bool

  /** Down from `p` to `m` over links, past entries without a prompt. */
  predicate Leads(link: Link, promptless: nat -> bool, p: nat, path: seq<nat>, m: nat)
    decreases |path|
  {
    if path == [] then link(p, m)
    else link(p, path[0]) && promptless(path[0]) && Leads(link, promptless, path[0], path[1..], m)
  }

  ghost predicate Placed(link: Link, promptless: nat -> bool, p: nat, m: nat) {
    exists path :: Leads(link, promptless, p, path, m)
  }

  ghost predicate AllPlaced(link: Link, promptless: nat -> bool, p: nat, ts: seq<Tree>)
    decreases ts
  {
    ts != [] ==>
      && Placed(link, promptless, p, ts[0].id) && AllPlaced(link, promptless, ts[0].id, ts[0].kids)
      && AllPlaced(link, promptless, p, ts[1..])
  }

  /** The entries `ts` are linked to `p`, and those below them to their parents. */
  predicate AllLinked(link: Link, p: nat, ts: seq<Tree>)
    decreases ts
  {
    ts != [] ==> link(p, ts[0].id) && AllLinked(link, ts[0].id, ts[0].kids) && AllLinked(link, p, ts[1..])
  }

  predicate LinkedInside(link: Link, ts: seq<Tree>) {
    ts != [] ==> AllLinked(link, ts[0].id, ts[0].kids) && LinkedInside(link, ts[1..])
  }

  // ---------------------------------------------------------------- paths

  lemma {:induction false} LeadsOn(link: Link, promptless: nat -> bool, p: nat, a: seq<nat>, q: nat, b: seq<nat>, m: nat)
    requires Leads(link, promptless, p, a, q) && promptless(q) && Leads(link, promptless, q, b, m)
    ensures Leads(link, promptless, p, a + [q] + b, m)
    decreases |a|
  {
    var c := a + [q] + b;
    if a == [] {
      assert c[0] == q && c[1..] == b;
    } else {
      assert c[0] == a[0] && c[1..] == a[1..] + [q] + b;
      LeadsOn(link, promptless, a[0], a[1..], q, b, m);
    }
  }

  lemma OneLink(link: Link, promptless: nat -> bool, p: nat, m: nat)
    requires link(p, m)
    ensures Placed(link, promptless, p, m)
  {
    assert Leads(link, promptless, p, [], m);
  }

  /** Entries below a promptless one may be put beside it. */
  lemma {:induction false} Raised(link: Link, promptless: nat -> bool, p: nat, q: nat, ts: seq<Tree>)
    requires Placed(link, promptless, p, q) && promptless(q) && AllPlaced(link, promptless, q, ts)
    ensures AllPlaced(link, promptless, p, ts)
    decreases ts
  {
    if ts != [] {
      var a :| Leads(link, promptless, p, a, q);
      var b :| Leads(link, promptless, q, b, ts[0].id);
      LeadsOn(link, promptless, p, a, q, b, ts[0].id);
      Raised(link, promptless, p, q, ts[1..]);
    }
  }

  lemma {:induction false} PlacedAppend(link: Link, promptless: nat -> bool, p: nat, xs: seq<Tree>, ys: seq<Tree>)
    requires AllPlaced(link, promptless, p, xs) && AllPlaced(link, promptless, p, ys)
    ensures AllPlaced(link, promptless, p, xs + ys)
    decreases xs
  {
    if xs == [] {
      assert xs + ys == ys;
    } else {
      assert (xs + ys)[1..] == xs[1..] + ys;
      PlacedAppend(link, promptless, p, xs[1..], ys);
    }
  }

  lemma OnePlaced(link: Link, promptless: nat -> bool, p: nat, t: Tree)
    requires Placed(link, promptless, p, t.id) && AllPlaced(link, promptless, t.id, t.kids)
    ensures AllPlaced(link, promptless, p, [t])
  {
    assert [t][1..] == [];
    assert AllPlaced(link, promptless, p, []);
  }

  lemma {:induction false} LiftedPlaces(f: Facts, link: Link, p: nat, ts: seq<Tree>)
    requires AllPlaced(link, f.promptless, p, ts)
    ensures AllPlaced(link, f.promptless, p, Lifted(f, ts))
    decreases Count(ts)
  {
    if ts != [] {
      LiftedStep(f, ts);
      if ts[0].kids != [] && f.promptless(ts[0].id) {
        CountAppend(ts[0].kids, ts[1..]);
        Raised(link, f.promptless, p, ts[0].id, ts[0].kids);
        PlacedAppend(link, f.promptless, p, ts[0].kids, ts[1..]);
        LiftedPlaces(f, link, p, ts[0].kids + ts[1..]);
        var t := Tree(ts[0].id, []);
        OnePlaced(link, f.promptless, p, t);
        PlacedAppend(link, f.promptless, p, [t], Lifted(f, ts[0].kids + ts[1..]));
      } else {
        LiftedPlaces(f, link, p, ts[1..]);
        OnePlaced(link, f.promptless, p, ts[0]);
        PlacedAppend(link, f.promptless, p, [ts[0]], Lifted(f, ts[1..]));
      }
    }
  }

  // ---------------------------------------------------------------- menu_finalize

  /** What stays behind is linked as before. */
  ghost predicate Remains(link: Link, before: seq<Tree>, after: seq<Tree>) {
    && (LinkedInside(link, before) ==> LinkedInside(link, after))
    && forall p :: AllLinked(link, p, before) ==> AllLinked(link, p, after)
  }

  lemma {:induction false} FinalizePlaces(f: Facts, link: Link, t: Tree, rest: seq<Tree>)
    requires (forall p, m :: f.nests(p, m) ==> link(p, m))
    requires AllLinked(link, t.id, t.kids) && LinkedInside(link, rest)
    ensures var r := Menus.Finalize(f, t, rest);
            AllPlaced(link, f.promptless, t.id, r.0.kids) && Remains(link, rest, r.1)
    decreases 1 + Count(t.kids) + Count(rest), 0
  {
    if t.kids != [] {
      FinalizeAllPlaces(f, link, t.id, t.kids);
      LiftedPlaces(f, link, t.id, FinalizeAll(f, t.kids));
    } else if f.hasSym(t.id) {
      AbsorbPlaces(f, link, t.id, rest);
      LiftedPlaces(f, link, t.id, Absorb(f, t.id, rest).0);
    }
  }

  lemma {:induction false} FinalizeAllPlaces(f: Facts, link: Link, p: nat, ts: seq<Tree>)
    requires (forall p, m :: f.nests(p, m) ==> link(p, m)) && AllLinked(link, p, ts)
    ensures AllPlaced(link, f.promptless, p, FinalizeAll(f, ts))
    decreases Count(ts), 1
  {
    if ts != [] {
      LinkedIsInside(link, p, ts[1..]);
      FinalizePlaces(f, link, ts[0], ts[1..]);
      var r := Menus.Finalize(f, ts[0], ts[1..]);
      OneLink(link, f.promptless, p, r.0.id);
      FinalizeAllPlaces(f, link, p, r.1);
      assert ([r.0] + FinalizeAll(f, r.1))[1..] == FinalizeAll(f, r.1);
    }
  }

  lemma {:induction false} AbsorbPlaces(f: Facts, link: Link, p: nat, rest: seq<Tree>)
    requires (forall p, m :: f.nests(p, m) ==> link(p, m)) && LinkedInside(link, rest)
    ensures var a := Absorb(f, p, rest);
            AllPlaced(link, f.promptless, p, a.0) && Remains(link, rest, a.1)
    decreases Count(rest), 1
  {
    if rest != [] && f.nests(p, rest[0].id) {
      FinalizePlaces(f, link, rest[0], rest[1..]);
      var r := Menus.Finalize(f, rest[0], rest[1..]);
      OneLink(link, f.promptless, p, r.0.id);
      AbsorbPlaces(f, link, p, r.1);
      var more := Absorb(f, p, r.1);
      assert ([r.0] + more.0)[1..] == more.0;
    }
  }

  lemma {:induction false} LinkedIsInside(link: Link, p: nat, ts: seq<Tree>)
    requires AllLinked(link, p, ts)
    ensures LinkedInside(link, ts)
  {
    if ts != [] {
      LinkedIsInside(link, p, ts[1..]);
    }
  }

  // ---------------------------------------------------------------- parent pointers

  /** In linked trees that is what the parent pointers say. */
  lemma {:induction false} ParentsPlaced(link: Link, promptless: nat -> bool, h: Links, p: nat, ts: seq<Tree>, first: Option<nat>, end: Option<nat>)
    requires Chain(h, ts, Some(p), first, end) && AllPlaced(link, promptless, p, ts)
    ensures forall x :: x in Preorder(ts) ==> x < |h| && h[x].parent.Some? && Placed(link, promptless, h[x].parent.value, x)
    decreases ts
  {
    if ts != [] {
      var t := ts[0];
      FirstTree(ts);
      ParentsPlaced(link, promptless, h, t.id, t.kids, h[t.id].list, None);
      ParentsPlaced(link, promptless, h, p, ts[1..], h[t.id].next, end);
    }
  }

  // ---------------------------------------------------------------- conditions

  /** `p` is an entry whose symbol is on or whose prompt is visible, or that is no bool or tristate symbol. */
  predicate Open(infos: seq<Info>, p: nat, v: Assignment) {
    && p < |infos| && infos[p].sym.Some?
    && (!infos[p].sym.value.IsTristateLike() || TriOf(infos[p].sym.value, v) != NO || EvalOpt(infos[p].prompt, v) != NO)
  }

  /** `m` was below `p` before, or is visible only if `p` is open. */
  function StaysOrOpens(infos: seq<Info>, below: Link, v: Assignment): Link {
    (p: nat, m: nat) => below(p, m) || (m < |infos| && EvalOpt(infos[m].dep, v) != NO ==> Open(infos, p, v))
  }

  ghost predicate DefiniteInfos(infos: seq<Info>, v: Assignment) {
    forall i :: 0 <= i < |infos| ==> Nesting.CrispOpt(infos[i].prompt, v) && Nesting.CrispOpt(infos[i].dep, v)
  }

  lemma NestsOpens(infos: seq<Info>, below: Link, v: Assignment, p: nat, m: nat)
    requires Legal(v) && DefiniteInfos(infos, v) && FactsOf(infos).nests(p, m)
    ensures StaysOrOpens(infos, below, v)(p, m)
  {
    hide Nesting.AutoNests, Nesting.CrispOpt, EvalOpt, TriOf, Legal;
    if EvalOpt(infos[m].dep, v) != NO && infos[p].sym.value.IsTristateLike() {
      Nesting.NestedEntryHasOpenParent(infos[p].sym.value, infos[p].prompt, infos[m].dep, v);
    }
    assert EvalOpt(infos[m].dep, v) != NO ==> Open(infos, p, v);
    assert StaysOrOpens(infos, below, v)(p, m) <==> below(p, m) || (m < |infos| && EvalOpt(infos[m].dep, v) != NO ==> Open(infos, p, v));
  }

  lemma {:induction false} LinkedMore(a: Link, b: Link, p: nat, ts: seq<Tree>)
    requires AllLinked(a, p, ts) && forall p, m :: a(p, m) ==> b(p, m)
    ensures AllLinked(b, p, ts)
    decreases ts
  {
    if ts != [] {
      LinkedMore(a, b, ts[0].id, ts[0].kids);
      LinkedMore(a, b, p, ts[1..]);
    }
  }

  /** menu_finalize of the root menu, with the conditions that decide about nesting: afterwards the
      parent pointer of every entry leads to one that it was below before, or that is open whenever
      the entry is visible, if not at once then past entries that have no prompt. */
  method FinalizeByConditions(tree: MenuTree, root: nat, ghost t: Tree, ghost infos: seq<Info>, ghost below: Link, ghost v: Assignment)
    requires Chain(tree.entries, [t], None, Some(root), None) && NoDup(Preorder([t])) && tree.finalized == []
    requires tree.facts == FactsOf(infos) && Legal(v) && DefiniteInfos(infos, v) && AllLinked(below, t.id, t.kids)
    modifies tree`entries, tree`finalized
    ensures forall x :: x in Preorder(t.kids) ==>
              && x < |tree.entries| && tree.entries[x].parent.Some?
              && Placed(StaysOrOpens(infos, below, v), tree.facts.promptless, tree.entries[x].parent.value, x)
  {
    ghost var link, r := StaysOrOpens(infos, below, v), Menus.Finalize(tree.facts, t, []);
    LinksHold(tree.facts, t, infos, below, v);
    FinalizeKeepsOrder(tree.facts, t, []);
    assert [t] + [] == [t] && r.1 == [] && [r.0] + r.1 == [r.0];
    tree.Finalize(root, t, [], None);
    ParentsPlaced(link, tree.facts.promptless, tree.entries, t.id, r.0.kids, tree.entries[root].list, None);
    SameBelow(r.0, t);
  }

  lemma LinksHold(f: Facts, t: Tree, infos: seq<Info>, below: Link, v: Assignment)
    requires f == FactsOf(infos) && Legal(v) && DefiniteInfos(infos, v) && AllLinked(below, t.id, t.kids)
    ensures AllPlaced(StaysOrOpens(infos, below, v), f.promptless, t.id, Menus.Finalize(f, t, []).0.kids)
  {
    var link := StaysOrOpens(infos, below, v);
    LinkedMore(below, link, t.id, t.kids);
    forall p, m | f.nests(p, m) ensures link(p, m) {
      NestsOpens(infos, below, v, p, m);
    }
    FinalizePlaces(f, link, t, []);
  }

  lemma SameBelow(r: Tree, t: Tree)
    requires r.id == t.id && Preorder([r] + []) == Preorder([t] + [])
    ensures Preorder(r.kids) == Preorder(t.kids)
  {
    assert [r] + [] == [r] && [t] + [] == [t];
    SinglePreorder(r);
    SinglePreorder(t);
    assert Preorder([r])[1..] == Preorder(r.kids) && Preorder([t])[1..] == Preorder(t.kids);
  }
}
