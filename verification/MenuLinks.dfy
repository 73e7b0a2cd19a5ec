/** struct menu: entries linked by list, next and parent, the surgery of menu_finalize on them, and
    the walk of conf_write that follows parent pointers back up. */
module MenuLinks {
  import opened Expressions
  import opened Menus

  /** The links of one entry; entries are known by their number. */
  datatype Entry = Entry(list: Option<nat>, next: Option<nat>, parent: Option<nat>)

  type Links = seq<Entry>

  predicate NoDup(s: seq<nat>) {
    forall i, j :: 0 <= i < j < |s| ==> s[i] != s[j]
  }

  lemma NoDupParts(a: seq<nat>, b: seq<nat>)
    requires NoDup(a + b)
    ensures NoDup(a) && NoDup(b) && forall x :: x in a ==> x !in b
  {
    var s := a + b;
    forall i, j | 0 <= i < j < |a| ensures a[i] != a[j] {
      assert s[i] == a[i] && s[j] == a[j];
    }
    forall i, j | 0 <= i < j < |b| ensures b[i] != b[j] {
      assert s[|a| + i] == b[i] && s[|a| + j] == b[j];
    }
    forall x | x in a ensures x !in b {
      var i :| 0 <= i < |a| && a[i] == x;
      forall j | 0 <= j < |b| ensures b[j] != x {
        assert s[i] != s[|a| + j];
      }
    }
  }

  /** The trees `ts` are linked from `first` on with parent `p`, and what follows them is `end`. */
  predicate Chain(h: Links, ts: seq<Tree>, p: Option<nat>, first: Option<nat>, end: Option<nat>)
    decreases ts
  {
    if ts == [] then first == end
    else
      var t := ts[0];
      && first == Some(t.id) && t.id < |h| && h[t.id].parent == p
      && Chain(h, t.kids, Some(t.id), h[t.id].list, None)
      && Chain(h, ts[1..], p, h[t.id].next, end)
  }

  /** The links of some entries are the same in both. */
  predicate SameAt(h: Links, h1: Links, ids: seq<nat>) {
    |h| == |h1| && forall x :: x in ids && x < |h| ==> h[x] == h1[x]
  }

  /** The links of all but some entries are the same in both. */
  predicate SameBut(h: Links, h1: Links, ids: seq<nat>) {
    |h| == |h1| && forall x :: 0 <= x < |h| && x !in ids ==> h[x] == h1[x]
  }

  /** A chain looks only at its own entries. */
  lemma {:induction false} ChainFrame(h: Links, h1: Links, ts: seq<Tree>, p: Option<nat>, first: Option<nat>, end: Option<nat>)
    requires Chain(h, ts, p, first, end) && SameAt(h, h1, Preorder(ts))
    ensures Chain(h1, ts, p, first, end)
    decreases ts
  {
    if ts != [] {
      var t := ts[0];
      var pre := Preorder(ts);
      assert t.id in pre;
      assert forall x :: x in Preorder(t.kids) ==> x in pre;
      assert forall x :: x in Preorder(ts[1..]) ==> x in pre;
      ChainFrame(h, h1, t.kids, Some(t.id), h[t.id].list, None);
      ChainFrame(h, h1, ts[1..], p, h[t.id].next, end);
    }
  }

  /** Two chains, one after the other. */
  lemma {:induction false} ChainAppend(h: Links, xs: seq<Tree>, ys: seq<Tree>, p: Option<nat>, first: Option<nat>, mid: Option<nat>, end: Option<nat>)
    requires Chain(h, xs, p, first, mid)
    ensures Chain(h, xs + ys, p, first, end) <==> Chain(h, ys, p, mid, end)
    decreases xs
  {
    if xs == [] {
      assert xs + ys == ys;
    } else {
      assert (xs + ys)[0] == xs[0] && (xs + ys)[1..] == xs[1..] + ys;
      ChainAppend(h, xs[1..], ys, p, h[xs[0].id].next, mid, end);
    }
  }

  lemma ChainUntouched(h: Links, h1: Links, ts: seq<Tree>, p: Option<nat>, first: Option<nat>, end: Option<nat>, ids: seq<nat>)
    requires Chain(h, ts, p, first, end) && SameBut(h, h1, ids) && forall x :: x in Preorder(ts) ==> x !in ids
    ensures Chain(h1, ts, p, first, end)
  {
    ChainFrame(h, h1, ts, p, first, end);
  }

  lemma {:induction false} LastInPreorder(ts: seq<Tree>)
    requires ts != []
    ensures ts[|ts| - 1].id in Preorder(ts) && ts[0].id in Preorder(ts)
    decreases ts
  {
    if |ts| > 1 {
      LastInPreorder(ts[1..]);
    }
  }

  /** The entries of a tree list are apart from each other. */
  lemma TreeParts(ts: seq<Tree>)
    requires ts != [] && NoDup(Preorder(ts))
    ensures NoDup(Preorder(ts[0].kids)) && NoDup(Preorder(ts[1..]))
    ensures ts[0].id !in Preorder(ts[0].kids) && ts[0].id !in Preorder(ts[1..])
    ensures forall x :: x in Preorder(ts[0].kids) ==> x !in Preorder(ts[1..])
  {
    hide *;
    var i, a, b := [ts[0].id], Preorder(ts[0].kids), Preorder(ts[1..]);
    FirstTree(ts);
    NoDupParts(i + a, b);
    NoDupParts(i, a);
    assert ts[0].id in i && ts[0].id in i + a;
    assert forall x :: x in a ==> x in i + a;
  }

  /** Changing what follows the last of some trees. */
  lemma {:induction false} Relinked(h: Links, ts: seq<Tree>, p: Option<nat>, first: Option<nat>, end: Option<nat>, end1: Option<nat>)
    requires ts != [] && Chain(h, ts, p, first, end) && NoDup(Preorder(ts))
    ensures ts[|ts| - 1].id < |h|
    ensures Chain(h[ts[|ts| - 1].id := h[ts[|ts| - 1].id].(next := end1)], ts, p, first, end1)
    decreases ts
  {
    var t, last := ts[0], ts[|ts| - 1].id;
    var h1 := if last < |h| then h[last := h[last].(next := end1)] else h;
    TreeParts(ts);
    if |ts| == 1 {
      ChainFrame(h, h1, t.kids, Some(t.id), h[t.id].list, None);
    } else {
      LastInPreorder(ts[1..]);
      Relinked(h, ts[1..], p, h[t.id].next, end, end1);
      ChainFrame(h, h1, t.kids, Some(t.id), h[t.id].list, None);
    }
  }

  // ---------------------------------------------------------------- the walk

  /** What is still to be visited: the chain that starts at the current entry, then the entries
      after its parent, and so on up. */
  ghost predicate ToVisit(h: Links, menu: Option<nat>, frames: seq<seq<Tree>>) {
    match menu
    case None => frames == []
    case Some(m) =>
      && m < |h| && frames != [] && frames[0] != []
      && Chain(h, frames[0], h[m].parent, menu, None)
      && Above(h, h[m].parent, frames[1..])
  }

  /** The frames above a chain with parent `p`. */
  ghost predicate Above(h: Links, p: Option<nat>, frames: seq<seq<Tree>>)
    decreases |frames|
  {
    if frames == [] then p == None
    else
      && p.Some? && p.value < |h|
      && Chain(h, frames[0], h[p.value].parent, h[p.value].next, None)
      && Above(h, h[p.value].parent, frames[1..])
  }

  lemma ChainStart(h: Links, ts: seq<Tree>, p: Option<nat>, first: Option<nat>)
    requires Chain(h, ts, p, first, None)
    ensures first.None? <==> ts == []
    ensures first.Some? ==> first.value < |h| && h[first.value].parent == p
  {
  }

  lemma VisitDown(h: Links, m: nat, ts: seq<Tree>, above: seq<seq<Tree>>)
    requires m < |h| && ToVisit(h, Some(m), [ts] + above)
    ensures ts != [] && ts[0].id == m
    ensures h[m].list.None? <==> ts[0].kids == []
    ensures h[m].next.None? <==> ts[1..] == []
    ensures h[m].list.Some? ==> ToVisit(h, h[m].list, [ts[0].kids] + ([ts[1..]] + above))
    ensures h[m].next.Some? ==> ToVisit(h, h[m].next, [ts[1..]] + above)
    ensures Above(h, h[m].parent, above)
  {
    assert ([ts] + above)[1..] == above;
    assert Chain(h, ts, h[m].parent, Some(m), None);
    ChainStart(h, ts[0].kids, Some(m), h[m].list);
    ChainStart(h, ts[1..], h[m].parent, h[m].next);
    assert ([ts[0].kids] + ([ts[1..]] + above))[1..] == [ts[1..]] + above;
    assert ([ts[1..]] + above)[1..] == above;
  }

  lemma VisitNext(h: Links, up: nat, frames: seq<seq<Tree>>)
    requires Above(h, Some(up), frames)
    ensures frames != [] && up < |h|
    ensures h[up].next.Some? ==> ToVisit(h, h[up].next, frames)
    ensures h[up].next.None? ==> frames[0] == [] && Above(h, h[up].parent, frames[1..])
  {
  }

  // ---------------------------------------------------------------- entries

  class MenuTree {
    var entries: Links
    const facts: Facts
    /** The entries in the order in which menu_finalize was called for them. */
    var finalized: seq<nat>

    constructor (entries: Links, facts: Facts)
      ensures this.entries == entries && this.facts == facts && finalized == []
    {
      this.entries, this.facts, finalized := entries, facts, [];
    }

    /** The inner loop of the walk: up to the first entry that has one after it. */
    method Climb(m: nat, ghost above: seq<seq<Tree>>) returns (menu: Option<nat>, ghost frames: seq<seq<Tree>>)
      requires m < |entries| && Above(entries, entries[m].parent, above)
      ensures ToVisit(entries, menu, frames) && Remaining(frames) == Remaining(above) && Left(frames) == Left(above)
    {
      menu, frames := entries[m].parent, above;
      while menu.Some?
        invariant Above(entries, menu, frames) && Remaining(frames) == Remaining(above) && Left(frames) == Left(above)
        decreases |frames|
      {
        var up := menu.value;
        VisitNext(entries, up, frames);
        if entries[up].next.Some? {
          return entries[up].next, frames;
        }
        assert frames == [[]] + frames[1..];
        Pop([], frames[1..]);
        assert [] + Remaining(frames[1..]) == Remaining(frames[1..]);
        menu, frames := entries[up].parent, frames[1..];
      }
    }

    /** The loop of conf_write and conf_write_defconfig: every entry below the root is visited once, in
        preorder. */
    method Walk(root: nat, ghost t: Tree) returns (visited: seq<nat>)
      requires Chain(entries, [t], None, Some(root), None)
      ensures visited == Preorder(t.kids)
    {
      var menu := entries[root].list;
      visited := [];
      ghost var frames := Begin(entries, root, t);
      hide *;
      while menu.Some?
        invariant ToVisit(entries, menu, frames) && visited + Remaining(frames) == Preorder(t.kids)
        decreases Left(frames)
      {
        ghost var seen, rest := visited, Remaining(frames);
        visited := visited + [menu.value];
        var m := menu.value;
        menu, frames := Advance(m, frames);
        assert seen + ([m] + Remaining(frames)) == visited + Remaining(frames);
      }
      Ended(entries, frames);
      assert visited + [] == visited;
    }

    /** One step of the walk: below, after, or up and after. */
    method Advance(m: nat, ghost frames: seq<seq<Tree>>) returns (menu: Option<nat>, ghost next: seq<seq<Tree>>)
      requires ToVisit(entries, Some(m), frames)
      ensures ToVisit(entries, menu, next) && [m] + Remaining(next) == Remaining(frames) && Left(next) < Left(frames)
    {
      Current(entries, m, frames);
      hide *;
      ghost var ts, above := frames[0], frames[1..];
      assert frames == [ts] + above;
      VisitDown(entries, m, ts, above);
      if entries[m].list.Some? {
        Down(ts, above);
        menu, next := entries[m].list, [ts[0].kids] + ([ts[1..]] + above);
      } else if entries[m].next.Some? {
        Right(ts, above);
        menu, next := entries[m].next, [ts[1..]] + above;
      } else {
        Up(ts, above);
        menu, next := Climb(m, above);
      }
    }

    // -------------------------------------------------------------- menu_finalize

    /** The loop over the entries below `m`: each gets the parent `p`. */
    method Reparent(first: nat, p: nat, ghost ts: seq<Tree>, ghost q: Option<nat>) returns (last: nat)
      requires ts != [] && Chain(entries, ts, q, Some(first), None) && NoDup(Preorder(ts))
      modifies `entries
      ensures SameBut(old(entries), entries, Preorder(ts))
      ensures Chain(entries, ts, Some(p), Some(first), None)
      ensures last == ts[|ts| - 1].id && last < |entries|
    {
      last := first;
      ghost var done: seq<Tree>, todo := [], ts;
      FirstOf(entries, ts, q, first);
      hide *;
      NothingYet(entries, ts, Some(p), Some(first));
      while true
        invariant todo != [] && last == todo[0].id && last < |entries| && done + todo == ts
        invariant SameBut(old(entries), entries, Preorder(ts)) && NoDup(Preorder(ts))
        invariant Chain(entries, done, Some(p), Some(first), Some(last)) && Chain(entries, todo, q, Some(last), None)
        decreases |todo|
      {
        ghost var h, t, rest := entries, todo[0], todo[1..];
        entries := entries[last := entries[last].(parent := Some(p))];
        Reparented(h, done, todo, Some(p), q, first, last);
        StillSameBut(old(entries), h, entries, Preorder(ts), done, todo);
        if entries[last].next.None? {
          assert done + [t] == ts;
          return;
        }
        done, todo := done + [t], rest;
        assert done + todo == ts;
        FirstOf(entries, todo, q, entries[last].next.value);
        last := entries[last].next.value;
      }
    }

    /** One promptless entry: the entries below it come behind it. */
    method LiftOne(p: nat, m: nat, ghost ts: seq<Tree>)
      requires m < |entries| && Chain(entries, ts, Some(p), Some(m), None) && NoDup(Preorder(ts))
      requires ts != [] && ts[0].id == m && entries[m].list.Some?
      modifies `entries
      ensures m < |entries| && SameBut(old(entries), entries, Preorder(ts))
      ensures Chain(entries, [Tree(m, [])], Some(p), Some(m), entries[m].next)
      ensures Chain(entries, ts[0].kids + ts[1..], Some(p), entries[m].next, None)
    {
      ghost var h, t, rest := entries, ts[0], ts[1..];
      Opened(h, ts, Some(p), m);
      hide *;
      var last := Reparent(entries[m].list.value, p, t.kids, Some(m));
      ghost var h1 := entries;
      entries := entries[last := entries[last].(next := entries[m].next)];
      ghost var h2 := entries;
      entries := entries[m := entries[m].(next := entries[m].list, list := None)];
      LiftedOne(h, h1, h2, entries, ts, p, m, last);
    }

    /** The last part of menu_finalize: entries below a promptless entry move up behind it. */
    method Lift(p: nat, ghost ts: seq<Tree>)
      requires p < |entries| && Chain(entries, ts, Some(p), entries[p].list, None) && NoDup([p] + Preorder(ts))
      modifies `entries
      ensures SameBut(old(entries), entries, Preorder(ts))
      ensures p < |entries| && entries[p] == old(entries[p])
      ensures Chain(entries, Lifted(facts, ts), Some(p), entries[p].list, None)
    {
      var menu := entries[p].list;
      ghost var done: seq<Tree>, todo := [], ts;
      NoDupParts([p], Preorder(ts));
      assert p in [p];
      hide *;
      NothingYet(entries, ts, Some(p), menu);
      NoTrees(ts);
      assert done + Lifted(facts, todo) == Lifted(facts, ts);
      while menu.Some?
        invariant p < |entries| && entries[p] == old(entries[p])
        invariant SameBut(old(entries), entries, Preorder(ts))
        invariant Chain(entries, done, Some(p), entries[p].list, menu) && Chain(entries, todo, Some(p), menu, None)
        invariant done + Lifted(facts, todo) == Lifted(facts, ts) && Preorder(done) + Preorder(todo) == Preorder(ts)
        decreases Count(todo)
      {
        var m := menu.value;
        ghost var h := entries;
        NoDupParts(Preorder(done), Preorder(todo));
        Opened(h, todo, Some(p), m);
        StepLifted(facts, done, todo);
        if entries[m].list.Some? && facts.promptless(m) {
          LiftOne(p, m, todo);
          AfterLift(old(entries), h, entries, done, todo, ts, p, m);
          done, todo := done + [Tree(m, [])], todo[0].kids + todo[1..];
        } else {
          ChainSplit(h, done, todo, Some(p), h[p].list, m);
          done, todo := done + [todo[0]], todo[1..];
        }
        menu := entries[m].next;
      }
      Finished(entries, done, todo, Some(p), facts);
      assert done + [] == done;
    }

    /** One entry of a menu. */
    method FinalizeOne(m: nat, ghost todo: seq<Tree>, ghost g: Option<nat>)
      requires todo != [] && todo[0].id == m && Chain(entries, todo, g, Some(m), None) && NoDup(Preorder(todo))
      modifies `entries, `finalized
      ensures m < |entries| && SameBut(old(entries), entries, Preorder(todo))
      ensures var r := Menus.Finalize(facts, todo[0], todo[1..]);
              && r.0.id == m
              && Chain(entries, [r.0], g, Some(m), entries[m].next) && Chain(entries, r.1, g, entries[m].next, None)
              && finalized == old(finalized) + [m] + Preorder(r.0.kids)
      decreases Count(todo), 1
    {
      ghost var t, after := todo[0], todo[1..];
      assert todo == [t] + after;
      hide *;
      FirstTree(todo);
      Finalize(m, t, after, g);
      ghost var r := Menus.Finalize(facts, t, after);
      SameOrder(facts, [], todo);
      FirstAndRest(entries, r.0, r.1, g, m);
    }

    /** What one step does, as a step of FinalizeAll. */
    lemma KidStep(h: Links, done: seq<Tree>, todo: seq<Tree>, m: nat, g: Option<nat>) returns (r: (Tree, seq<Tree>))
      requires Chain(h, todo, g, Some(m), None)
      ensures todo != [] && todo[0].id == m < |h| && r == Menus.Finalize(facts, todo[0], todo[1..])
      ensures r.0.id == m && Count(r.1) < Count(todo)
      ensures done + [r.0] + FinalizeAll(facts, r.1) == done + FinalizeAll(facts, todo)
      ensures Preorder(done + [r.0]) + Preorder(r.1) == Preorder(done) + Preorder(todo)
    {
      FirstOf(h, todo, g, m);
      StepFinalized(facts, done, todo);
      r := Menus.Finalize(facts, todo[0], todo[1..]);
    }

    /** The loop of menu_finalize over the entries of a menu. */
    method FinalizeKids(p: nat, ghost ts: seq<Tree>)
      requires p < |entries| && Chain(entries, ts, Some(p), entries[p].list, None) && NoDup([p] + Preorder(ts))
      modifies `entries, `finalized
      ensures SameBut(old(entries), entries, Preorder(ts))
      ensures p < |entries| && entries[p] == old(entries[p])
      ensures Chain(entries, FinalizeAll(facts, ts), Some(p), entries[p].list, None)
      ensures finalized == old(finalized) + Preorder(ts)
      decreases Count(ts), 2
    {
      var menu := entries[p].list;
      ghost var done: seq<Tree>, todo := [], ts;
      NoDupParts([p], Preorder(ts));
      assert p in [p];
      hide *;
      NothingYet(entries, ts, Some(p), menu);
      NoTrees(ts);
      assert done + FinalizeAll(facts, todo) == FinalizeAll(facts, ts);
      assert finalized + [] == finalized;
      while menu.Some?
        invariant p < |entries| && entries[p] == old(entries[p])
        invariant SameBut(old(entries), entries, Preorder(ts)) && Count(todo) <= Count(ts)
        invariant Chain(entries, done, Some(p), entries[p].list, menu) && Chain(entries, todo, Some(p), menu, None)
        invariant done + FinalizeAll(facts, todo) == FinalizeAll(facts, ts) && Preorder(done) + Preorder(todo) == Preorder(ts)
        invariant finalized == old(finalized) + Preorder(done)
        decreases Count(todo)
      {
        var m := menu.value;
        ghost var h := entries;
        ghost var r := KidStep(h, done, todo, m, Some(p));
        NoDupParts(Preorder(done), Preorder(todo));
        FinalizeOne(m, todo, Some(p));
        AfterFinalize(old(entries), h, entries, done, todo, r.0, ts, p, m);
        FinalizedNow(old(finalized), done, r.0);
        done, todo := done + [r.0], r.1;
        menu := entries[m].next;
      }
      AllFinalized(entries, done, todo, ts, Some(p), facts);
    }

    /** One entry that moves below `p`. */
    method AbsorbOne(p: nat, m: nat, ghost todo: seq<Tree>, ghost g: Option<nat>)
      requires m < |entries| && todo != [] && todo[0].id == m && Chain(entries, todo, g, Some(m), None) && NoDup(Preorder(todo))
      modifies `entries, `finalized
      ensures m < |entries| && SameBut(old(entries), entries, Preorder(todo))
      ensures var r := Menus.Finalize(facts, todo[0], todo[1..]);
              && r.0.id == m
              && Chain(entries, [r.0], Some(p), Some(m), entries[m].next) && Chain(entries, r.1, g, entries[m].next, None)
              && finalized == old(finalized) + [m] + Preorder(r.0.kids)
      decreases Count(todo), 1
    {
      ghost var h, t, after := entries, todo[0], todo[1..];
      assert todo == [t] + after;
      hide *;
      FirstTree(todo);
      Finalize(m, t, after, g);
      ghost var r, h1 := Menus.Finalize(facts, t, after), entries;
      SameOrder(facts, [], todo);
      FirstOf(h1, [r.0] + r.1, g, m);
      entries := entries[m := entries[m].(parent := Some(p))];
      Moved(h, h1, entries, todo, r.0, r.1, p, m, g);
    }

    /** The loop of menu_finalize over the entries after one that has a symbol and no entries yet:
        up to which entry they move, and what comes after it. */
    method AbsorbLoop(p: nat, ghost rest: seq<Tree>, ghost g: Option<nat>)
      returns (last: Option<nat>, ghost menu: Option<nat>, ghost done: seq<Tree>, ghost todo: seq<Tree>)
      requires p < |entries| && Chain(entries, rest, g, entries[p].next, None) && NoDup(Preorder(rest)) && p !in Preorder(rest)
      modifies `entries, `finalized
      ensures p < |entries| && entries[p] == old(entries[p]) && SameBut(old(entries), entries, Preorder(rest))
      ensures Chain(entries, done, Some(p), entries[p].next, menu) && Chain(entries, todo, g, menu, None)
      ensures Absorb(facts, p, rest) == (done, todo) && Preorder(done) + Preorder(todo) == Preorder(rest)
      ensures finalized == old(finalized) + Preorder(done)
      ensures last == if done == [] then None else Some(done[|done| - 1].id)
      decreases Count(rest), 2
    {
      hide *;
      var next := entries[p].next;
      last, done, todo := None, [], rest;
      ghost var h0, f0 := entries, finalized;
      AbsorbStarts(facts, h0, f0, p, rest, next, g);
      while next.Some? && facts.nests(p, next.value)
        invariant Absorbing(facts, h0, entries, f0, finalized, p, rest, done, todo, next, g)
        invariant last == if done == [] then None else Some(done[|done| - 1].id)
        decreases Count(todo)
      {
        var m := next.value;
        ghost var h, f := entries, finalized;
        ghost var r := AbsorbStep(h0, h, f0, f, p, rest, done, todo, m, g);
        AbsorbOne(p, m, todo, g);
        AbsorbNext(facts, h0, h, entries, f0, f, finalized, p, rest, done, todo, m, g, r);
        last, done, todo := Some(m), done + [r.0], r.1;
        next := entries[m].next;
      }
      menu := next;
      AbsorbEnds(facts, h0, entries, f0, finalized, p, rest, done, todo, next, g);
    }

    /** What one step does, as a step of Absorb. */
    lemma AbsorbStep(h0: Links, h: Links, f0: seq<nat>, f: seq<nat>, p: nat, rest: seq<Tree>, done: seq<Tree>, todo: seq<Tree>, m: nat, g: Option<nat>)
      returns (r: (Tree, seq<Tree>))
      requires Absorbing(facts, h0, h, f0, f, p, rest, done, todo, Some(m), g) && NoDup(Preorder(rest)) && facts.nests(p, m)
      ensures Chain(h, todo, g, Some(m), None) && NoDup(Preorder(todo)) && Count(todo) <= Count(rest)
      ensures todo != [] && todo[0].id == m < |h| && r == Menus.Finalize(facts, todo[0], todo[1..])
      ensures r.0.id == m && Count(r.1) < Count(todo)
      ensures done + [r.0] + Absorb(facts, p, r.1).0 == done + Absorb(facts, p, todo).0 && Absorb(facts, p, r.1).1 == Absorb(facts, p, todo).1
      ensures Preorder(done + [r.0]) + Preorder(r.1) == Preorder(done) + Preorder(todo)
    {
      hide Chain, Preorder, NoDup, Absorb, SameBut, Count, Menus.Finalize;
      NoDupParts(Preorder(done), Preorder(todo));
      FirstOf(h, todo, g, m);
      StepAbsorbed(facts, p, done, todo);
      r := Menus.Finalize(facts, todo[0], todo[1..]);
    }

    method AbsorbEntries(p: nat, ghost rest: seq<Tree>, ghost g: Option<nat>)
      requires p < |entries| && entries[p].list.None? && Chain(entries, rest, g, entries[p].next, None)
      requires NoDup([p] + Preorder(rest))
      modifies `entries, `finalized
      ensures SameBut(old(entries), entries, [p] + Preorder(rest))
      ensures p < |entries| && entries[p].parent == old(entries[p].parent)
      ensures var a := Absorb(facts, p, rest);
              && Chain(entries, a.0, Some(p), entries[p].list, None) && Chain(entries, a.1, g, entries[p].next, None)
              && finalized == old(finalized) + Preorder(a.0)
      decreases Count(rest), 3
    {
      NoDupParts([p], Preorder(rest));
      assert p in [p];
      hide *;
      var last; ghost var menu, done, todo;
      last, menu, done, todo := AbsorbLoop(p, rest, g);
      ghost var h := entries;
      if last.Some? {
        LastIsOther(done, todo, rest, p);
        ChainLast(h, done, Some(p), h[p].next, menu);
        entries := entries[p := entries[p].(list := entries[p].next)];
        entries := entries[p := entries[p].(next := entries[last.value].next)];
        entries := entries[last.value := entries[last.value].(next := None)];
      }
      Nested(old(entries), h, entries, done, todo, rest, p, menu, g);
    }

    /** menu_finalize for the entry `p`, which is the tree `t` with the entries `rest` after it. The
        links afterwards are those of the finalised trees, parents included, and every entry that
        is now in `t` was finalised exactly once, in the order of the Kconfig files. */
    method Finalize(p: nat, ghost t: Tree, ghost rest: seq<Tree>, ghost g: Option<nat>)
      requires p == t.id && Chain(entries, [t] + rest, g, Some(p), None) && NoDup(Preorder([t] + rest))
      modifies `entries, `finalized
      ensures SameBut(old(entries), entries, Preorder([t] + rest))
      ensures var r := Menus.Finalize(facts, t, rest);
              Chain(entries, [r.0] + r.1, g, Some(p), None) && finalized == old(finalized) + [p] + Preorder(r.0.kids)
      decreases 1 + Count(t.kids) + Count(rest), 0
    {
      ghost var h, f := entries, finalized + [p];
      AtEntry(h, t, rest, g);
      finalized := finalized + [p];
      ghost var kids: seq<Tree>, after := [], rest;
      hide *;
      if entries[p].list.Some? {
        FinalizeKids(p, t.kids);
        kids := FinalizeAll(facts, t.kids);
        WithKids(facts, h, entries, t, rest, g);
        FinalizeAllKeepsOrder(facts, t.kids);
      } else if facts.hasSym(p) {
        AbsorbEntries(p, rest, g);
        kids, after := Absorb(facts, p, rest).0, Absorb(facts, p, rest).1;
        WithAbsorbed(facts, h, entries, t, rest, g);
      } else {
        Untouched(facts, h, t, rest, g);
        NoTrees([]);
        assert f + [] == f;
      }
      ghost var h1 := entries;
      ReadyToLift(facts, h, h1, t, rest, kids, after, g);
      Lift(p, kids);
      Lifting(facts, h, h1, entries, t, rest, kids, after, g);
    }

    /** menu_finalize of the root menu followed by the walk of conf_write: every entry has been
        finalised once, and the walk meets the entries in the order of the Kconfig files, whatever
        was nested or lifted. */
    method FinalizeThenWalk(root: nat, ghost t: Tree) returns (visited: seq<nat>)
      requires Chain(entries, [t], None, Some(root), None) && NoDup(Preorder([t])) && finalized == []
      modifies `entries, `finalized
      ensures visited == Preorder(t.kids)
      ensures finalized == [root] + visited && NoDup(finalized)
    {
      assert [t] + [] == [t];
      ghost var r := Menus.Finalize(facts, t, []);
      FinalizeKeepsOrder(facts, t, []);
      SinglePreorder(t);
      assert r.1 == [];
      assert [r.0] + r.1 == [r.0];
      Finalize(root, t, [], None);
      visited := Walk(root, r.0);
      assert Preorder(r.0.kids) == Preorder(t.kids) by {
        var x, y := [t.id] + Preorder(r.0.kids) + Preorder([]), [t.id] + Preorder(t.kids) + Preorder([]);
        assert Preorder([]) == [];
        assert x[1..] == Preorder(r.0.kids) && y[1..] == Preorder(t.kids);
      }
    }
  }

  lemma FirstOf(h: Links, ts: seq<Tree>, q: Option<nat>, first: nat)
    requires Chain(h, ts, q, Some(first), None)
    ensures ts != [] && ts[0].id == first && first < |h| && h[first].parent == q
  {
  }

  lemma NothingYet(h: Links, ts: seq<Tree>, p: Option<nat>, first: Option<nat>)
    ensures Chain(h, [], p, first, first) && [] + ts == ts && SameBut(h, h, Preorder(ts))
  {
  }

  lemma NoTrees(ts: seq<Tree>)
    ensures Preorder([]) + Preorder(ts) == Preorder(ts)
  {
  }

  /** The first tree of a chain, and the rest. */
  lemma Opened(h: Links, ts: seq<Tree>, p: Option<nat>, m: nat)
    requires Chain(h, ts, p, Some(m), None) && NoDup(Preorder(ts))
    ensures ts != [] && ts[0].id == m < |h| && h[m].parent == p
    ensures Chain(h, ts[0].kids, Some(m), h[m].list, None) && Chain(h, ts[1..], p, h[m].next, None)
    ensures NoDup(Preorder(ts[0].kids)) && (h[m].list.Some? <==> ts[0].kids != [])
  {
    TreeParts(ts);
    ChainStart(h, ts[0].kids, Some(m), h[m].list);
  }

  lemma ChainSplit(h: Links, done: seq<Tree>, todo: seq<Tree>, p: Option<nat>, first: Option<nat>, m: nat)
    requires Chain(h, done, p, first, Some(m)) && Chain(h, todo, p, Some(m), None)
    ensures todo != [] && m < |h|
    ensures Chain(h, done + [todo[0]], p, first, h[m].next) && Chain(h, todo[1..], p, h[m].next, None)
  {
    ChainAppend(h, done, [todo[0]], p, first, Some(m), h[m].next);
    assert Chain(h, [todo[0]], p, Some(m), h[m].next);
  }

  /** One more entry has the parent `p`. */
  lemma Reparented(h: Links, done: seq<Tree>, todo: seq<Tree>, p: Option<nat>, q: Option<nat>, first: nat, m: nat)
    requires todo != [] && m == todo[0].id && m < |h| && NoDup(Preorder(done + todo))
    requires Chain(h, done, p, Some(first), Some(m)) && Chain(h, todo, q, Some(m), None)
    ensures var h1 := h[m := h[m].(parent := p)];
            && Chain(h1, done + [todo[0]], p, Some(first), h[m].next)
            && Chain(h1, todo[1..], q, h[m].next, None)
            && (h[m].next.None? <==> todo[1..] == [])
  {
    var h1 := h[m := h[m].(parent := p)];
    PreorderAppend(done, todo);
    NoDupParts(Preorder(done), Preorder(todo));
    LastInPreorder(todo);
    TreeParts(todo);
    ChainFrame(h, h1, done, p, Some(first), Some(m));
    ChainFrame(h, h1, todo[0].kids, Some(m), h[m].list, None);
    ChainFrame(h, h1, todo[1..], q, h[m].next, None);
    assert Chain(h1, [todo[0]], p, Some(m), h[m].next);
    ChainAppend(h1, done, [todo[0]], p, Some(first), Some(m), h[m].next);
    ChainStart(h, todo[1..], q, h[m].next);
  }

  lemma StillSameBut(h0: Links, h: Links, h1: Links, ids: seq<nat>, done: seq<Tree>, todo: seq<Tree>)
    requires todo != [] && ids == Preorder(done + todo) && SameBut(h0, h, ids)
    requires |h| == |h1| && forall x :: 0 <= x < |h| && x != todo[0].id ==> h[x] == h1[x]
    ensures SameBut(h0, h1, ids)
  {
    PreorderAppend(done, todo);
    LastInPreorder(todo);
  }

  lemma LiftedOne(h: Links, h1: Links, h2: Links, h3: Links, ts: seq<Tree>, p: nat, m: nat, last: nat)
    requires ts != [] && ts[0].id == m < |h| && NoDup(Preorder(ts)) && ts[0].kids != []
    requires Chain(h, ts, Some(p), Some(m), None)
    requires SameBut(h, h1, Preorder(ts[0].kids)) && Chain(h1, ts[0].kids, Some(p), h[m].list, None)
    requires last == ts[0].kids[|ts[0].kids| - 1].id && last < |h1| && m < |h1|
    requires h2 == h1[last := h1[last].(next := h1[m].next)]
    requires h3 == h2[m := h2[m].(next := h2[m].list, list := None)]
    ensures SameBut(h, h3, Preorder(ts))
    ensures Chain(h3, [Tree(m, [])], Some(p), Some(m), h3[m].next)
    ensures Chain(h3, ts[0].kids + ts[1..], Some(p), h3[m].next, None)
  {
    hide *;
    var kids, rest := ts[0].kids, ts[1..];
    TreeParts(ts);
    Opened(h, ts, Some(p), m);
    LiftedIds(ts);
    KidsMoved(h, h1, h2, kids, rest, p, m, last);
    MovedOut(h2, h3, kids + rest, p, m, h[m].list);
    SameAfterLift(h, h1, h2, h3, Preorder(kids), Preorder(ts), m, last);
  }

  lemma LiftedIds(ts: seq<Tree>)
    requires ts != [] && ts[0].kids != [] && NoDup(Preorder(ts))
    ensures Preorder(ts[0].kids + ts[1..]) == Preorder(ts[0].kids) + Preorder(ts[1..])
    ensures ts[0].id in Preorder(ts) && ts[0].id !in Preorder(ts[0].kids + ts[1..])
    ensures ts[0].kids[|ts[0].kids| - 1].id in Preorder(ts[0].kids)
    ensures forall x :: x in Preorder(ts[0].kids) ==> x in Preorder(ts)
  {
    FirstTree(ts);
    TreeParts(ts);
    LastInPreorder(ts[0].kids);
    LastInPreorder(ts);
    PreorderAppend(ts[0].kids, ts[1..]);
  }

  lemma KidsMoved(h: Links, h1: Links, h2: Links, kids: seq<Tree>, rest: seq<Tree>, p: nat, m: nat, last: nat)
    requires m < |h| && kids != [] && NoDup(Preorder(kids)) && Chain(h, rest, Some(p), h[m].next, None)
    requires m !in Preorder(kids) && forall x :: x in Preorder(kids) ==> x !in Preorder(rest)
    requires SameBut(h, h1, Preorder(kids)) && Chain(h1, kids, Some(p), h[m].list, None)
    requires last == kids[|kids| - 1].id && last in Preorder(kids) && last < |h1| && h2 == h1[last := h1[last].(next := h1[m].next)]
    ensures Chain(h2, kids + rest, Some(p), h[m].list, None)
    ensures h1[m] == h[m] == h2[m]
  {
    assert h1[m] == h[m];
    hide Chain, Preorder, NoDup;
    ChainUntouched(h, h1, rest, Some(p), h[m].next, None, Preorder(kids));
    Relinked(h1, kids, Some(p), h[m].list, None, h[m].next);
    ChainFrame(h1, h2, rest, Some(p), h[m].next, None);
    ChainAppend(h2, kids, rest, Some(p), h[m].list, h[m].next, None);
  }

  lemma MovedOut(h2: Links, h3: Links, ts: seq<Tree>, p: nat, m: nat, first: Option<nat>)
    requires m < |h2| && h2[m].parent == Some(p) && h2[m].list == first && Chain(h2, ts, Some(p), first, None) && m !in Preorder(ts)
    requires h3 == h2[m := h2[m].(next := h2[m].list, list := None)]
    ensures Chain(h3, [Tree(m, [])], Some(p), Some(m), h3[m].next) && Chain(h3, ts, Some(p), h3[m].next, None)
  {
    hide Chain, Preorder;
    ChainFrame(h2, h3, ts, Some(p), first, None);
    BareChain(h3, Some(p), m);
  }

  lemma SameAfterLift(h: Links, h1: Links, h2: Links, h3: Links, inner: seq<nat>, ids: seq<nat>, m: nat, last: nat)
    requires SameBut(h, h1, inner) && (forall x :: x in inner ==> x in ids) && m in ids && last in inner
    requires m < |h| && last < |h1| && |h1| == |h2| == |h3|
    requires h2 == h1[last := h1[last].(next := h1[m].next)] && h3 == h2[m := h2[m].(next := h2[m].list, list := None)]
    ensures SameBut(h, h3, ids)
  {
  }

  lemma BareChain(h: Links, p: Option<nat>, m: nat)
    requires m < |h| && h[m].list.None? && h[m].parent == p
    ensures Chain(h, [Tree(m, [])], p, Some(m), h[m].next)
  {
  }

  lemma StepLifted(f: Facts, done: seq<Tree>, todo: seq<Tree>)
    requires todo != []
    ensures if todo[0].kids != [] && f.promptless(todo[0].id) then
              var d, r := done + [Tree(todo[0].id, [])], todo[0].kids + todo[1..];
              && Count(r) < Count(todo)
              && d + Lifted(f, r) == done + Lifted(f, todo)
              && Preorder(d) + Preorder(r) == Preorder(done) + Preorder(todo)
            else
              && Count(todo[1..]) < Count(todo)
              && done + [todo[0]] + Lifted(f, todo[1..]) == done + Lifted(f, todo)
              && Preorder(done + [todo[0]]) + Preorder(todo[1..]) == Preorder(done) + Preorder(todo)
  {
    var t, rest := todo[0], todo[1..];
    FirstTree(todo);
    SinglePreorder(t);
    PreorderAppend(done, [t]);
    if t.kids != [] && f.promptless(t.id) {
      var bare := Tree(t.id, []);
      CountAppend(t.kids, rest);
      PreorderAppend(t.kids, rest);
      PreorderAppend(done, [bare]);
      SinglePreorder(bare);
      BareKids(bare);
      Assoc(done, [bare], Lifted(f, t.kids + rest));
      Assoc(Preorder(done), [t.id], Preorder(t.kids) + Preorder(rest));
      Assoc([t.id], Preorder(t.kids), Preorder(rest));
    } else {
      Assoc(done, [t], Lifted(f, rest));
      Assoc(Preorder(done), [t.id] + Preorder(t.kids), Preorder(rest));
    }
  }

  lemma SinglePreorder(t: Tree)
    ensures Preorder([t]) == [t.id] + Preorder(t.kids)
  {
    PreorderOne(t, []);
    assert [t] + [] == [t];
    assert [t.id] + Preorder(t.kids) + [] == [t.id] + Preorder(t.kids);
  }

  lemma AfterLift(h0: Links, h: Links, h1: Links, done: seq<Tree>, todo: seq<Tree>, ts: seq<Tree>, p: nat, m: nat)
    requires todo != [] && p < |h| && m < |h1| && p !in Preorder(ts)
    requires Preorder(done) + Preorder(todo) == Preorder(ts) && NoDup(Preorder(ts))
    requires SameBut(h0, h, Preorder(ts)) && SameBut(h, h1, Preorder(todo))
    requires Chain(h, done, Some(p), h[p].list, Some(m))
    requires Chain(h1, [Tree(m, [])], Some(p), Some(m), h1[m].next)
    ensures SameBut(h0, h1, Preorder(ts)) && p < |h1| && h1[p] == h[p]
    ensures Chain(h1, done + [Tree(m, [])], Some(p), h1[p].list, h1[m].next)
  {
    NoDupParts(Preorder(done), Preorder(todo));
    assert forall x :: x in Preorder(todo) ==> x in Preorder(ts);
    ChainUntouched(h, h1, done, Some(p), h[p].list, Some(m), Preorder(todo));
    ChainAppend(h1, done, [Tree(m, [])], Some(p), h[p].list, Some(m), h1[m].next);
  }

  lemma Finished(h: Links, done: seq<Tree>, todo: seq<Tree>, p: Option<nat>, f: Facts)
    requires Chain(h, todo, p, None, None)
    ensures todo == [] && Lifted(f, todo) == []
  {
  }

  lemma StepFinalized(f: Facts, done: seq<Tree>, todo: seq<Tree>)
    requires todo != []
    ensures var r := Menus.Finalize(f, todo[0], todo[1..]);
            && r.0.id == todo[0].id && Count(r.1) < Count(todo)
            && done + [r.0] + FinalizeAll(f, r.1) == done + FinalizeAll(f, todo)
            && Preorder([r.0] + r.1) == Preorder(todo)
            && Preorder(done + [r.0]) + Preorder(r.1) == Preorder(done) + Preorder(todo)
  {
    var t, rest := todo[0], todo[1..];
    var r := Menus.Finalize(f, t, rest);
    assert FinalizeAll(f, todo) == [r.0] + FinalizeAll(f, r.1);
    SameOrder(f, done, todo);
    Assoc(done, [r.0], FinalizeAll(f, r.1));
  }

  lemma SameOrder(f: Facts, done: seq<Tree>, todo: seq<Tree>)
    requires todo != []
    ensures var r := Menus.Finalize(f, todo[0], todo[1..]);
            && r.0.id == todo[0].id && Count(r.1) < Count(todo) && Preorder([r.0] + r.1) == Preorder(todo)
            && Preorder(done + [r.0]) + Preorder(r.1) == Preorder(done) + Preorder(todo)
  {
    var t, rest := todo[0], todo[1..];
    var r := Menus.Finalize(f, t, rest);
    FinalizeKeepsOrder(f, t, rest);
    FirstTree(todo);
    PreorderOne(r.0, r.1);
    hide *;
    PreorderAppend(done, [r.0]);
    SinglePreorder(r.0);
    Assoc(Preorder(done), [r.0.id] + Preorder(r.0.kids), Preorder(r.1));
  }

  lemma FinalizedNow(f0: seq<nat>, done: seq<Tree>, t: Tree)
    ensures f0 + Preorder(done) + [t.id] + Preorder(t.kids) == f0 + Preorder(done + [t])
  {
    hide *;
    PreorderAppend(done, [t]);
    SinglePreorder(t);
    Assoc(f0 + Preorder(done), [t.id], Preorder(t.kids));
    Assoc(f0, Preorder(done), [t.id] + Preorder(t.kids));
  }

  lemma FirstAndRest(h: Links, t: Tree, rest: seq<Tree>, g: Option<nat>, m: nat)
    requires Chain(h, [t] + rest, g, Some(m), None)
    ensures m < |h| && Chain(h, [t], g, Some(m), h[m].next) && Chain(h, rest, g, h[m].next, None)
  {
    assert ([t] + rest)[1..] == rest;
  }

  lemma AfterFinalize(h0: Links, h: Links, h1: Links, done: seq<Tree>, todo: seq<Tree>, t1: Tree, ts: seq<Tree>, p: nat, m: nat)
    requires p < |h| && p !in Preorder(ts) && NoDup(Preorder(ts)) && m < |h1|
    requires Preorder(done) + Preorder(todo) == Preorder(ts)
    requires SameBut(h0, h, Preorder(ts)) && SameBut(h, h1, Preorder(todo))
    requires Chain(h, done, Some(p), h[p].list, Some(m)) && Chain(h1, [t1], Some(p), Some(m), h1[m].next)
    ensures SameBut(h0, h1, Preorder(ts)) && p < |h1| && h1[p] == h[p]
    ensures Chain(h1, done + [t1], Some(p), h1[p].list, h1[m].next)
  {
    NoDupParts(Preorder(done), Preorder(todo));
    assert forall x :: x in Preorder(todo) ==> x in Preorder(ts);
    ChainUntouched(h, h1, done, Some(p), h[p].list, Some(m), Preorder(todo));
    ChainAppend(h1, done, [t1], Some(p), h[p].list, Some(m), h1[m].next);
  }

  lemma AllFinalized(h: Links, done: seq<Tree>, todo: seq<Tree>, ts: seq<Tree>, p: Option<nat>, f: Facts)
    requires Chain(h, todo, p, None, None) && done + FinalizeAll(f, todo) == FinalizeAll(f, ts)
    requires Preorder(done) + Preorder(todo) == Preorder(ts)
    ensures done == FinalizeAll(f, ts) && Preorder(done) == Preorder(ts)
  {
    assert todo == [];
    assert done + [] == done && Preorder(done) + [] == Preorder(done);
  }

  lemma StepAbsorbed(f: Facts, p: nat, done: seq<Tree>, todo: seq<Tree>)
    requires todo != [] && f.nests(p, todo[0].id)
    ensures var r := Menus.Finalize(f, todo[0], todo[1..]);
            && r.0.id == todo[0].id && Count(r.1) < Count(todo)
            && done + [r.0] + Absorb(f, p, r.1).0 == done + Absorb(f, p, todo).0 && Absorb(f, p, r.1).1 == Absorb(f, p, todo).1
            && Preorder([r.0] + r.1) == Preorder(todo)
            && Preorder(done + [r.0]) + Preorder(r.1) == Preorder(done) + Preorder(todo)
  {
    var r := Menus.Finalize(f, todo[0], todo[1..]);
    assert Absorb(f, p, todo).0 == [r.0] + Absorb(f, p, r.1).0;
    SameOrder(f, done, todo);
    Assoc(done, [r.0], Absorb(f, p, r.1).0);
  }

  lemma Moved(h: Links, h1: Links, h2: Links, todo: seq<Tree>, t1: Tree, rest1: seq<Tree>, p: nat, m: nat, g: Option<nat>)
    requires Preorder([t1] + rest1) == Preorder(todo) && NoDup(Preorder(todo)) && t1.id == m < |h1|
    requires SameBut(h, h1, Preorder(todo)) && Chain(h1, [t1] + rest1, g, Some(m), None)
    requires h2 == h1[m := h1[m].(parent := Some(p))]
    ensures SameBut(h, h2, Preorder(todo))
    ensures Chain(h2, [t1], Some(p), Some(m), h2[m].next) && Chain(h2, rest1, g, h2[m].next, None)
  {
    var all := [t1] + rest1;
    assert all[1..] == rest1;
    LastInPreorder(all);
    TreeParts(all);
    ChainFrame(h1, h2, t1.kids, Some(m), h1[m].list, None);
    ChainFrame(h1, h2, rest1, g, h1[m].next, None);
  }

  lemma AfterAbsorb(h0: Links, h: Links, h2: Links, done: seq<Tree>, todo: seq<Tree>, t1: Tree, ts: seq<Tree>, p: nat, m: nat)
    requires p < |h| && p !in Preorder(ts) && NoDup(Preorder(ts)) && m < |h2|
    requires Preorder(done) + Preorder(todo) == Preorder(ts)
    requires SameBut(h0, h, Preorder(ts)) && SameBut(h, h2, Preorder(todo))
    requires Chain(h, done, Some(p), h[p].next, Some(m)) && Chain(h2, [t1], Some(p), Some(m), h2[m].next)
    ensures SameBut(h0, h2, Preorder(ts)) && p < |h2| && h2[p] == h[p]
    ensures Chain(h2, done + [t1], Some(p), h2[p].next, h2[m].next)
  {
    NoDupParts(Preorder(done), Preorder(todo));
    assert forall x :: x in Preorder(todo) ==> x in Preorder(ts);
    ChainUntouched(h, h2, done, Some(p), h[p].next, Some(m), Preorder(todo));
    ChainAppend(h2, done, [t1], Some(p), h[p].next, Some(m), h2[m].next);
  }

  /** The state of that loop: `done` is what has moved below `p`, `todo` what has not been looked at. */
  ghost predicate Absorbing(f: Facts, h0: Links, h: Links, f0: seq<nat>, fin: seq<nat>, p: nat, rest: seq<Tree>,
                            done: seq<Tree>, todo: seq<Tree>, next: Option<nat>, g: Option<nat>)
  {
    && p < |h0| == |h| && h[p] == h0[p] && SameBut(h0, h, Preorder(rest)) && Count(todo) <= Count(rest)
    && Chain(h, done, Some(p), h[p].next, next) && Chain(h, todo, g, next, None)
    && done + Absorb(f, p, todo).0 == Absorb(f, p, rest).0 && Absorb(f, p, todo).1 == Absorb(f, p, rest).1
    && Preorder(done) + Preorder(todo) == Preorder(rest) && fin == f0 + Preorder(done)
  }

  lemma AbsorbStarts(f: Facts, h: Links, fin: seq<nat>, p: nat, rest: seq<Tree>, next: Option<nat>, g: Option<nat>)
    requires p < |h| && next == h[p].next && Chain(h, rest, g, next, None)
    ensures Absorbing(f, h, h, fin, fin, p, rest, [], rest, next, g)
  {
    NothingYet(h, rest, Some(p), next);
    NoTrees(rest);
    assert fin + Preorder([]) == fin;
    assert [] + Absorb(f, p, rest).0 == Absorb(f, p, rest).0;
  }

  lemma AbsorbNext(f: Facts, h0: Links, h: Links, h2: Links, f0: seq<nat>, fin: seq<nat>, fin2: seq<nat>, p: nat, rest: seq<Tree>,
                   done: seq<Tree>, todo: seq<Tree>, m: nat, g: Option<nat>, r: (Tree, seq<Tree>))
    requires Absorbing(f, h0, h, f0, fin, p, rest, done, todo, Some(m), g)
    requires p !in Preorder(rest) && NoDup(Preorder(rest)) && m < |h2| && SameBut(h, h2, Preorder(todo))
    requires Chain(h2, [r.0], Some(p), Some(m), h2[m].next) && Chain(h2, r.1, g, h2[m].next, None)
    requires fin2 == fin + [m] + Preorder(r.0.kids) && r.0.id == m && Count(r.1) < Count(todo)
    requires done + [r.0] + Absorb(f, p, r.1).0 == done + Absorb(f, p, todo).0 && Absorb(f, p, r.1).1 == Absorb(f, p, todo).1
    requires Preorder(done + [r.0]) + Preorder(r.1) == Preorder(done) + Preorder(todo)
    ensures Absorbing(f, h0, h2, f0, fin2, p, rest, done + [r.0], r.1, h2[m].next, g)
  {
    hide Chain, Preorder, NoDup, Absorb, SameBut, Count;
    AfterAbsorb(h0, h, h2, done, todo, r.0, rest, p, m);
    FinalizedNow(f0, done, r.0);
    SameSize(h0, h2, Preorder(rest));
  }

  lemma SameSize(h: Links, h1: Links, ids: seq<nat>)
    requires SameBut(h, h1, ids)
    ensures |h| == |h1|
  {
  }

  lemma AbsorbEnds(f: Facts, h0: Links, h: Links, f0: seq<nat>, fin: seq<nat>, p: nat, rest: seq<Tree>,
                   done: seq<Tree>, todo: seq<Tree>, next: Option<nat>, g: Option<nat>)
    requires Absorbing(f, h0, h, f0, fin, p, rest, done, todo, next, g) && (next.Some? ==> !f.nests(p, next.value))
    ensures p < |h0| == |h| && h[p] == h0[p] && SameBut(h0, h, Preorder(rest))
    ensures Chain(h, done, Some(p), h[p].next, next) && Chain(h, todo, g, next, None)
    ensures Absorb(f, p, rest) == (done, todo) && Preorder(done) + Preorder(todo) == Preorder(rest)
    ensures fin == f0 + Preorder(done)
  {
    ChainStart(h, todo, g, next);
    assert done + [] == done;
  }

  /** The links after the entries `done` have moved below `p`. */
  lemma Nested(h0: Links, h: Links, h1: Links, done: seq<Tree>, todo: seq<Tree>, rest: seq<Tree>, p: nat, menu: Option<nat>, g: Option<nat>)
    requires p < |h| && p !in Preorder(rest) && NoDup(Preorder(rest)) && SameBut(h0, h, Preorder(rest)) && h[p].list.None?
    requires Preorder(done) + Preorder(todo) == Preorder(rest)
    requires Chain(h, done, Some(p), h[p].next, menu) && Chain(h, todo, g, menu, None)
    requires done == [] ==> h1 == h
    requires done != [] ==> var l := done[|done| - 1].id;
             l < |h| && l != p && h1 == h[p := h[p].(list := h[p].next, next := h[l].next)][l := h[l].(next := None)]
    ensures p < |h1| && h1[p].parent == h[p].parent && SameBut(h0, h1, [p] + Preorder(rest))
    ensures Chain(h1, done, Some(p), h1[p].list, None) && Chain(h1, todo, g, h1[p].next, None)
  {
    hide Chain, Preorder, NoDup;
    NoDupParts(Preorder(done), Preorder(todo));
    assert p in [p] + Preorder(rest) && forall x :: x in Preorder(rest) ==> x in [p] + Preorder(rest);
    if done == [] {
      ChainStartsAt(h, Some(p), h[p].next, menu);
    } else {
      var l := done[|done| - 1].id;
      LastInPreorder(done);
      ChainLast(h, done, Some(p), h[p].next, menu);
      Relinked(h, done, Some(p), h[p].next, menu, None);
      var h2 := h[l := h[l].(next := None)];
      ChainFrame(h2, h1, done, Some(p), h[p].next, None);
      ChainFrame(h, h1, todo, g, menu, None);
    }
  }

  lemma ChainStartsAt(h: Links, p: Option<nat>, first: Option<nat>, end: Option<nat>)
    requires Chain(h, [], p, first, end)
    ensures first == end && Chain(h, [], p, None, None)
  {
  }

  lemma {:induction false} ChainLast(h: Links, ts: seq<Tree>, p: Option<nat>, first: Option<nat>, end: Option<nat>)
    requires ts != [] && Chain(h, ts, p, first, end)
    ensures ts[|ts| - 1].id < |h| && h[ts[|ts| - 1].id].next == end
    decreases ts
  {
    if |ts| > 1 {
      ChainLast(h, ts[1..], p, h[ts[0].id].next, end);
    }
  }

  lemma LastIsOther(done: seq<Tree>, todo: seq<Tree>, rest: seq<Tree>, p: nat)
    requires done != [] && Preorder(done) + Preorder(todo) == Preorder(rest) && p !in Preorder(rest)
    ensures done[|done| - 1].id != p
  {
    LastInPreorder(done);
  }

  lemma AtEntry(h: Links, t: Tree, rest: seq<Tree>, g: Option<nat>)
    requires Chain(h, [t] + rest, g, Some(t.id), None) && NoDup(Preorder([t] + rest))
    ensures t.id < |h| && h[t.id].parent == g
    ensures Chain(h, t.kids, Some(t.id), h[t.id].list, None) && Chain(h, rest, g, h[t.id].next, None)
    ensures h[t.id].list.Some? <==> t.kids != []
    ensures NoDup([t.id] + Preorder(t.kids)) && NoDup([t.id] + Preorder(rest))
  {
    assert ([t] + rest)[1..] == rest;
    TreeParts([t] + rest);
    ChainStart(h, t.kids, Some(t.id), h[t.id].list);
  }

  /** What the links are before the last part of menu_finalize. */
  ghost predicate Prepared(f: Facts, h: Links, h1: Links, t: Tree, rest: seq<Tree>, kids: seq<Tree>, after: seq<Tree>, g: Option<nat>) {
    && t.id < |h1| && h1[t.id].parent == g
    && Chain(h1, kids, Some(t.id), h1[t.id].list, None) && Chain(h1, after, g, h1[t.id].next, None)
    && SameBut(h, h1, Preorder([t] + rest))
    && [t.id] + Preorder(kids) + Preorder(after) == Preorder([t] + rest)
    && NoDup([t.id] + Preorder(kids))
    && Menus.Finalize(f, t, rest) == (Tree(t.id, Lifted(f, kids)), after)
  }

  lemma WithKids(f: Facts, h: Links, h1: Links, t: Tree, rest: seq<Tree>, g: Option<nat>)
    requires Chain(h, [t] + rest, g, Some(t.id), None) && NoDup(Preorder([t] + rest)) && t.kids != []
    requires SameBut(h, h1, Preorder(t.kids)) && t.id < |h1| && t.id < |h| && h1[t.id] == h[t.id]
    requires Chain(h1, FinalizeAll(f, t.kids), Some(t.id), h1[t.id].list, None)
    ensures Prepared(f, h, h1, t, rest, FinalizeAll(f, t.kids), rest, g)
  {
    AtEntry(h, t, rest, g);
    assert ([t] + rest)[1..] == rest;
    TreeParts([t] + rest);
    PreorderOne(t, rest);
    FinalizeAllKeepsOrder(f, t.kids);
    assert forall x :: x in Preorder(t.kids) ==> x in Preorder([t] + rest);
    ChainUntouched(h, h1, rest, g, h[t.id].next, None, Preorder(t.kids));
  }

  lemma WithAbsorbed(f: Facts, h: Links, h1: Links, t: Tree, rest: seq<Tree>, g: Option<nat>)
    requires Chain(h, [t] + rest, g, Some(t.id), None) && NoDup(Preorder([t] + rest)) && t.kids == [] && f.hasSym(t.id)
    requires t.id < |h| && SameBut(h, h1, [t.id] + Preorder(rest)) && t.id < |h1| && h1[t.id].parent == h[t.id].parent
    requires var a := Absorb(f, t.id, rest);
             Chain(h1, a.0, Some(t.id), h1[t.id].list, None) && Chain(h1, a.1, g, h1[t.id].next, None)
    ensures var a := Absorb(f, t.id, rest); Prepared(f, h, h1, t, rest, a.0, a.1, g)
  {
    var a := Absorb(f, t.id, rest);
    AtEntry(h, t, rest, g);
    PreorderOne(t, rest);
    AbsorbKeepsOrder(f, t.id, rest);
    BareKids(t);
    Assoc([t.id], Preorder(a.0), Preorder(a.1));
    NoDupParts([t.id] + Preorder(a.0), Preorder(a.1));
  }

  lemma Untouched(f: Facts, h: Links, t: Tree, rest: seq<Tree>, g: Option<nat>)
    requires Chain(h, [t] + rest, g, Some(t.id), None) && NoDup(Preorder([t] + rest)) && t.kids == [] && !f.hasSym(t.id)
    ensures Prepared(f, h, h, t, rest, [], rest, g)
  {
    AtEntry(h, t, rest, g);
    PreorderOne(t, rest);
    BareKids(t);
    assert t == Tree(t.id, []);
  }

  lemma ReadyToLift(f: Facts, h: Links, h1: Links, t: Tree, rest: seq<Tree>, kids: seq<Tree>, after: seq<Tree>, g: Option<nat>)
    requires Prepared(f, h, h1, t, rest, kids, after, g)
    ensures t.id < |h1| && Chain(h1, kids, Some(t.id), h1[t.id].list, None) && NoDup([t.id] + Preorder(kids))
  {
  }

  lemma Lifting(f: Facts, h: Links, h1: Links, h2: Links, t: Tree, rest: seq<Tree>, kids: seq<Tree>, after: seq<Tree>, g: Option<nat>)
    requires Prepared(f, h, h1, t, rest, kids, after, g) && NoDup(Preorder([t] + rest))
    requires SameBut(h1, h2, Preorder(kids)) && t.id < |h2| && h2[t.id] == h1[t.id]
    requires Chain(h2, Lifted(f, kids), Some(t.id), h2[t.id].list, None)
    ensures SameBut(h, h2, Preorder([t] + rest))
    ensures var r := Menus.Finalize(f, t, rest); Chain(h2, [r.0] + r.1, g, Some(t.id), None) && Preorder(r.0.kids) == Preorder(kids)
  {
    LiftedKeepsOrder(f, kids);
    NoDupParts([t.id] + Preorder(kids), Preorder(after));
    assert forall x :: x in Preorder(kids) ==> x in [t.id] + Preorder(kids);
    assert forall x :: x in [t.id] + Preorder(kids) ==> x in Preorder([t] + rest);
    ChainUntouched(h1, h2, after, g, h1[t.id].next, None, Preorder(kids));
    var r := Menus.Finalize(f, t, rest);
    assert ([r.0] + r.1)[1..] == after;
  }

  lemma Begin(h: Links, root: nat, t: Tree) returns (frames: seq<seq<Tree>>)
    requires Chain(h, [t], None, Some(root), None)
    ensures root < |h| && ToVisit(h, h[root].list, frames) && Remaining(frames) == Preorder(t.kids)
    ensures [] + Remaining(frames) == Remaining(frames)
  {
    Started(t.kids);
    frames := if h[root].list.None? then [] else [t.kids] + [[]];
    if h[root].list.Some? {
      assert frames[1..] == [[]];
      assert Above(h, Some(root), [[]]);
    }
  }

  lemma Current(h: Links, m: nat, frames: seq<seq<Tree>>)
    requires ToVisit(h, Some(m), frames)
    ensures m < |h| && frames != []
  {
  }

  lemma Ended(h: Links, frames: seq<seq<Tree>>)
    requires ToVisit(h, None, frames)
    ensures Remaining(frames) == []
  {
  }

  lemma Started(ts: seq<Tree>)
    ensures Remaining([ts] + [[]]) == Preorder(ts)
  {
    Pop(ts, [[]]);
    Pop([], []);
  }

  lemma Pop(ts: seq<Tree>, above: seq<seq<Tree>>)
    ensures Remaining([ts] + above) == Preorder(ts) + Remaining(above) && Left([ts] + above) == Count(ts) + Left(above)
  {
    assert ([ts] + above)[1..] == above;
  }

  lemma Down(ts: seq<Tree>, above: seq<seq<Tree>>)
    requires ts != []
    ensures [ts[0].id] + Remaining([ts[0].kids] + ([ts[1..]] + above)) == Remaining([ts] + above)
    ensures Left([ts[0].kids] + ([ts[1..]] + above)) < Left([ts] + above)
  {
    hide *;
    FirstTree(ts);
    Pop(ts, above);
    Pop(ts[1..], above);
    Pop(ts[0].kids, [ts[1..]] + above);
    var a, b, c, d := [ts[0].id], Preorder(ts[0].kids), Preorder(ts[1..]), Remaining(above);
    assert a + (b + (c + d)) == a + b + c + d;
  }

  lemma Right(ts: seq<Tree>, above: seq<seq<Tree>>)
    requires ts != [] && ts[0].kids == []
    ensures [ts[0].id] + Remaining([ts[1..]] + above) == Remaining([ts] + above)
    ensures Left([ts[1..]] + above) < Left([ts] + above)
  {
    BareKids(ts[0]);
    hide *;
    FirstTree(ts);
    Pop(ts, above);
    Pop(ts[1..], above);
    Assoc([ts[0].id], Preorder(ts[1..]), Remaining(above));
  }

  lemma Up(ts: seq<Tree>, above: seq<seq<Tree>>)
    requires ts != [] && ts[0].kids == [] && ts[1..] == []
    ensures [ts[0].id] + Remaining(above) == Remaining([ts] + above)
    ensures Left(above) < Left([ts] + above)
  {
    Right(ts, above);
    Pop([], above);
    assert [] + Remaining(above) == Remaining(above);
  }

  ghost function Remaining(frames: seq<seq<Tree>>): seq<nat> {
    if frames == [] then [] else Preorder(frames[0]) + Remaining(frames[1..])
  }

  ghost function Left(frames: seq<seq<Tree>>): nat {
    if frames == [] then 0 else Count(frames[0]) + Left(frames[1..])
  }
}
