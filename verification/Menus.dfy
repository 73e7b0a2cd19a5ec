/** The menu tree: menu_finalize moves entries below the entry they depend on and lifts the entries
    of promptless ones, by relinking list, next and parent pointers. Here as trees. */
module Menus {
  import opened Tristates
  import opened Expressions
  import Nesting

  /** A menu entry with the entries below it. */
  datatype Tree = Tree(id: nat, kids: seq<Tree>)

  /** What menu_finalize asks about entries: whether one has a symbol, whether the second depends on
      the first in the way that nests it, and whether one has no prompt text. */
  datatype Facts = Facts(hasSym: nat -> bool, nests: (nat, nat) -> bool, promptless: nat -> bool)

  function Count(ts: seq<Tree>): nat
    decreases ts
  {
    if ts == [] then 0 else 1 + Count(ts[0].kids) + Count(ts[1..])
  }

  /** The entries in the order in which they were written in the Kconfig files. */
  function Preorder(ts: seq<Tree>): seq<nat>
    decreases ts
  {
    if ts == [] then [] else [ts[0].id] + Preorder(ts[0].kids) + Preorder(ts[1..])
  }

  lemma FirstTree(ts: seq<Tree>)
    requires ts != []
    ensures Preorder(ts) == [ts[0].id] + Preorder(ts[0].kids) + Preorder(ts[1..])
    ensures Count(ts) == 1 + Count(ts[0].kids) + Count(ts[1..])
  {
  }

  lemma BareKids(t: Tree)
    requires t.kids == []
    ensures [t.id] + Preorder(t.kids) == [t.id]
  {
  }

  lemma Assoc<T>(a: seq<T>, b: seq<T>, c: seq<T>)
    ensures a + b + c == a + (b + c)
  {
  }

  lemma {:induction false} CountAppend(xs: seq<Tree>, ys: seq<Tree>)
    ensures Count(xs + ys) == Count(xs) + Count(ys)
    decreases xs
  {
    if xs == [] {
      assert xs + ys == ys;
    } else {
      assert (xs + ys)[0] == xs[0] && (xs + ys)[1..] == xs[1..] + ys;
      CountAppend(xs[1..], ys);
    }
  }

  lemma {:induction false} PreorderAppend(xs: seq<Tree>, ys: seq<Tree>)
    ensures Preorder(xs + ys) == Preorder(xs) + Preorder(ys)
    decreases xs
  {
    if xs == [] {
      assert xs + ys == ys;
    } else {
      assert (xs + ys)[0] == xs[0] && (xs + ys)[1..] == xs[1..] + ys;
      PreorderAppend(xs[1..], ys);
      var a, b, c, d := [xs[0].id], Preorder(xs[0].kids), Preorder(xs[1..]), Preorder(ys);
      assert a + b + (c + d) == a + b + c + d;
    }
  }

  lemma PreorderOne(t: Tree, rest: seq<Tree>)
    ensures Preorder([t] + rest) == [t.id] + Preorder(t.kids) + Preorder(rest)
    ensures Count([t] + rest) == 1 + Count(t.kids) + Count(rest)
  {
    assert ([t] + rest)[1..] == rest;
  }

  /** menu_finalize of the entry `t` with the entries `rest` after it: `t` as it is then, and what is
      left of `rest`. */
  function Finalize(f: Facts, t: Tree, rest: seq<Tree>): (r: (Tree, seq<Tree>))
    ensures r.0.id == t.id && Count(r.1) <= Count(rest)
    decreases 1 + Count(t.kids) + Count(rest), 0
  {
    if t.kids != [] then (Tree(t.id, Lifted(f, FinalizeAll(f, t.kids))), rest)
    else if f.hasSym(t.id) then
      var a := Absorb(f, t.id, rest);
      (Tree(t.id, Lifted(f, a.0)), a.1)
    else (t, rest)
  }

  /** The loop over the entries of a menu. */
  function FinalizeAll(f: Facts, ts: seq<Tree>): seq<Tree>
    decreases Count(ts), 1
  {
    if ts == [] then []
    else
      var r := Finalize(f, ts[0], ts[1..]);
      [r.0] + FinalizeAll(f, r.1)
  }

  /** The entries after `p` that move below it, finalised, and the others. */
  function Absorb(f: Facts, p: nat, rest: seq<Tree>): (r: (seq<Tree>, seq<Tree>))
    ensures Count(r.1) <= Count(rest)
    decreases Count(rest), 1
  {
    if rest == [] || !f.nests(p, rest[0].id) then ([], rest)
    else
      var r := Finalize(f, rest[0], rest[1..]);
      var more := Absorb(f, p, r.1);
      ([r.0] + more.0, more.1)
  }

  /** Entries below a promptless entry move up behind it. */
  function Lifted(f: Facts, ts: seq<Tree>): seq<Tree>
    decreases Count(ts)
  {
    if ts == [] then []
    else if ts[0].kids != [] && f.promptless(ts[0].id) then
      CountAppend(ts[0].kids, ts[1..]);
      [Tree(ts[0].id, [])] + Lifted(f, ts[0].kids + ts[1..])
    else [ts[0]] + Lifted(f, ts[1..])
  }

  // ---------------------------------------------------------------- the order of entries is kept

  lemma LiftedStep(f: Facts, ts: seq<Tree>)
    requires ts != []
    ensures Lifted(f, ts) ==
            if ts[0].kids != [] && f.promptless(ts[0].id) then [Tree(ts[0].id, [])] + Lifted(f, ts[0].kids + ts[1..])
            else [ts[0]] + Lifted(f, ts[1..])
  {
  }

  lemma {:induction false} LiftedKeepsOrder(f: Facts, ts: seq<Tree>)
    ensures Preorder(Lifted(f, ts)) == Preorder(ts)
    decreases Count(ts)
  {
    if ts != [] {
      var t, rest := ts[0], ts[1..];
      LiftedStep(f, ts);
      FirstTree(ts);
      CountAppend(t.kids, rest);
      hide *;
      if t.kids != [] && f.promptless(t.id) {
        LiftedKeepsOrder(f, t.kids + rest);
        PreorderOne(Tree(t.id, []), Lifted(f, t.kids + rest));
        BareKids(Tree(t.id, []));
        PreorderAppend(t.kids, rest);
        Assoc([t.id], Preorder(t.kids), Preorder(rest));
      } else {
        LiftedKeepsOrder(f, rest);
        PreorderOne(t, Lifted(f, rest));
      }
    }
  }

  /** Finalising an entry keeps the order of all entries, the ones that move included. */
  lemma {:induction false} FinalizeKeepsOrder(f: Facts, t: Tree, rest: seq<Tree>)
    ensures var r := Finalize(f, t, rest);
            [t.id] + Preorder(r.0.kids) + Preorder(r.1) == [t.id] + Preorder(t.kids) + Preorder(rest)
    decreases 1 + Count(t.kids) + Count(rest), 0
  {
    if t.kids != [] {
      FinalizeAllKeepsOrder(f, t.kids);
      LiftedKeepsOrder(f, FinalizeAll(f, t.kids));
    } else if f.hasSym(t.id) {
      assert Finalize(f, t, rest) == (Tree(t.id, Lifted(f, Absorb(f, t.id, rest).0)), Absorb(f, t.id, rest).1);
      AbsorbKeepsOrder(f, t.id, rest);
      LiftedKeepsOrder(f, Absorb(f, t.id, rest).0);
      var a := Absorb(f, t.id, rest);
      hide *;
      BareKids(t);
      Assoc([t.id], Preorder(a.0), Preorder(a.1));
    }
  }

  lemma {:induction false} FinalizeAllKeepsOrder(f: Facts, ts: seq<Tree>)
    ensures Preorder(FinalizeAll(f, ts)) == Preorder(ts)
    decreases Count(ts), 1
  {
    if ts != [] {
      var r := Finalize(f, ts[0], ts[1..]);
      FinalizeKeepsOrder(f, ts[0], ts[1..]);
      FinalizeAllKeepsOrder(f, r.1);
      PreorderOne(r.0, FinalizeAll(f, r.1));
    }
  }

  lemma AbsorbStep(f: Facts, p: nat, rest: seq<Tree>)
    requires rest != [] && f.nests(p, rest[0].id)
    ensures var r := Finalize(f, rest[0], rest[1..]); var more := Absorb(f, p, r.1);
            Absorb(f, p, rest) == ([r.0] + more.0, more.1) && Count(r.1) < Count(rest)
  {
  }

  lemma {:induction false} AbsorbKeepsOrder(f: Facts, p: nat, rest: seq<Tree>)
    ensures var a := Absorb(f, p, rest); Preorder(a.0) + Preorder(a.1) == Preorder(rest)
    decreases Count(rest), 1
  {
    if rest != [] && f.nests(p, rest[0].id) {
      var r := Finalize(f, rest[0], rest[1..]);
      var more := Absorb(f, p, r.1);
      AbsorbStep(f, p, rest);
      FirstTree(rest);
      FinalizeKeepsOrder(f, rest[0], rest[1..]);
      AbsorbKeepsOrder(f, p, r.1);
      hide *;
      PreorderOne(r.0, more.0);
      assert r.0.id == rest[0].id;
      Assoc([r.0.id] + Preorder(r.0.kids), Preorder(more.0), Preorder(more.1));
    } else {
      assert Preorder([]) + Preorder(rest) == Preorder(rest);
    }
  }

  // ---------------------------------------------------------------- what the new tree looks like

  /** Every promptless entry has been emptied. */
  predicate NoPromptlessParent(f: Facts, ts: seq<Tree>) {
    forall k :: 0 <= k < |ts| ==> ts[k].kids == [] || !f.promptless(ts[k].id)
  }

  lemma {:induction false} LiftedIsFlat(f: Facts, ts: seq<Tree>)
    ensures NoPromptlessParent(f, Lifted(f, ts))
    decreases Count(ts)
  {
    if ts != [] {
      if ts[0].kids != [] && f.promptless(ts[0].id) {
        CountAppend(ts[0].kids, ts[1..]);
        LiftedIsFlat(f, ts[0].kids + ts[1..]);
      } else {
        LiftedIsFlat(f, ts[1..]);
      }
    }
  }

  /** The entries that move below `p` all nest there, and the next one does not. */
  lemma {:induction false} AbsorbedNest(f: Facts, p: nat, rest: seq<Tree>)
    ensures var a := Absorb(f, p, rest);
            && (forall k :: 0 <= k < |a.0| ==> f.nests(p, a.0[k].id))
            && (a.1 != [] ==> !f.nests(p, a.1[0].id))
    decreases Count(rest)
  {
    if rest != [] && f.nests(p, rest[0].id) {
      AbsorbedNest(f, p, Finalize(f, rest[0], rest[1..]).1);
    }
  }

  /** What is not taken stays as it was. */
  lemma {:induction false} FinalizeLeaves(f: Facts, t: Tree, rest: seq<Tree>) returns (n: nat)
    ensures n <= |rest| && Finalize(f, t, rest).1 == rest[n..]
    ensures t.kids == [] && f.hasSym(t.id) && n < |rest| ==> !f.nests(t.id, rest[n].id)
    ensures t.kids != [] || !f.hasSym(t.id) ==> n == 0
    decreases 1 + Count(t.kids) + Count(rest), 0
  {
    if t.kids == [] && f.hasSym(t.id) {
      n := AbsorbLeaves(f, t.id, rest);
    } else {
      n := 0;
    }
  }

  lemma {:induction false} AbsorbLeaves(f: Facts, p: nat, rest: seq<Tree>) returns (n: nat)
    ensures n <= |rest| && Absorb(f, p, rest).1 == rest[n..]
    ensures n < |rest| ==> !f.nests(p, rest[n].id)
    decreases Count(rest), 1
  {
    if rest == [] || !f.nests(p, rest[0].id) {
      n := 0;
    } else {
      var k := FinalizeLeaves(f, rest[0], rest[1..]);
      var r := Finalize(f, rest[0], rest[1..]).1;
      n := AbsorbLeaves(f, p, r);
      n := 1 + k + n;
      assert rest[1..][k..] == rest[1 + k..];
    }
  }

  /** `x` was an entry that has entries below it, or no symbol, or `y` does not nest below it. */
  ghost predicate SettledAt(f: Facts, before: seq<Tree>, x: nat, y: nat) {
    exists j :: 0 <= j < |before| && before[j].id == x && (before[j].kids == [] && f.hasSym(x) ==> !f.nests(x, y))
  }

  /** Among the entries of a menu, none is left that could have moved below the one before it. */
  lemma {:induction false} FinalizeAllSettles(f: Facts, ts: seq<Tree>)
    ensures var r := FinalizeAll(f, ts);
            && (forall k :: 0 <= k < |r| - 1 ==> SettledAt(f, ts, r[k].id, r[k + 1].id))
            && (r == [] <==> ts == []) && (ts != [] ==> r[0].id == ts[0].id)
    decreases Count(ts)
  {
    if ts != [] {
      var r := Finalize(f, ts[0], ts[1..]);
      var n := FinalizeLeaves(f, ts[0], ts[1..]);
      var more := FinalizeAll(f, r.1);
      FinalizeAllSettles(f, r.1);
      var all := FinalizeAll(f, ts);
      assert all == [r.0] + more;
      assert forall j :: 0 <= j < |r.1| ==> ts[1 + n + j] == r.1[j];
      forall k | 0 <= k < |all| - 1 ensures SettledAt(f, ts, all[k].id, all[k + 1].id) {
        if k == 0 {
          assert r.1 != [] && r.1[0] == ts[1..][n];
          assert ts[0].id == all[0].id && all[1].id == r.1[0].id;
        } else {
          assert SettledAt(f, r.1, more[k - 1].id, more[k].id);
          SettledBefore(f, ts, r.1, 1 + n, more[k - 1].id, more[k].id);
        }
      }
    }
  }

  lemma SettledBefore(f: Facts, ts: seq<Tree>, rest: seq<Tree>, n: nat, x: nat, y: nat)
    requires n <= |ts| && rest == ts[n..] && SettledAt(f, rest, x, y)
    ensures SettledAt(f, ts, x, y)
  {
    var j :| 0 <= j < |rest| && rest[j].id == x && (rest[j].kids == [] && f.hasSym(x) ==> !f.nests(x, y));
    assert ts[n + j] == rest[j];
  }

  /** The symbol of an entry, the condition of its prompt, and the condition that decides about
      nesting: the prompt's, or the entry's own dependencies. */
  datatype Info = Info(sym: Option<Symbol>, prompt: Option<Expr>, dep: Option<Expr>, promptless: bool)

  /** The facts as menu_finalize finds them. */
  function FactsOf(infos: seq<Info>): Facts {
    Facts((i: nat) => i < |infos| && infos[i].sym.Some?,
          (p: nat, m: nat) => p < |infos| && m < |infos| && infos[p].sym.Some? &&
                              Nesting.AutoNests(infos[p].sym.value, infos[p].prompt, infos[m].dep),
          (i: nat) => i < |infos| && infos[i].promptless)
  }

  /** Where bool conditions are definite, an entry that was moved below another one is visible only
      if that one's symbol is on or its prompt is visible. */
  lemma MovedEntryHasOpenParent(infos: seq<Info>, p: nat, rest: seq<Tree>, k: nat, v: Assignment)
    requires p < |infos| && infos[p].sym.Some? && infos[p].sym.value.IsTristateLike() && Legal(v)
    requires Nesting.CrispOpt(infos[p].prompt, v)
    requires forall m :: 0 <= m < |infos| ==> Nesting.CrispOpt(infos[m].dep, v)
    requires var a := Absorb(FactsOf(infos), p, rest).0;
             k < |a| && a[k].id < |infos| && EvalOpt(infos[a[k].id].dep, v) != NO
    ensures TriOf(infos[p].sym.value, v) != NO || EvalOpt(infos[p].prompt, v) != NO
  {
    AbsorbedNest(FactsOf(infos), p, rest);
    var m := Absorb(FactsOf(infos), p, rest).0[k].id;
    assert FactsOf(infos).nests(p, m);
    Nesting.NestedEntryHasOpenParent(infos[p].sym.value, infos[p].prompt, infos[m].dep, v);
  }
}
