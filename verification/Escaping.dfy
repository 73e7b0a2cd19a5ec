/** Quoted strings in .config files: what symbol.c and kconfiglib.py write, and how confdata.c (in
    place, in the line buffer) and kconfiglib.py (two replacements) read it back. */
module Escaping {
  import opened Expressions

  const QUOTE := '\"'
  const SLASH := '\\'
  const NUL := '\0'

  predicate Special(c: char) {
    c == QUOTE || c == SLASH
  }

  /** Every quote and backslash preceded by a backslash. */
  function EscapedBody(s: string): string {
    if s == "" then "" else (if Special(s[0]) then [SLASH, s[0]] else [s[0]]) + EscapedBody(s[1..])
  }

  function Escaped(s: string): string {
    [QUOTE] + EscapedBody(s) + [QUOTE]
  }

  /** What a quoted text stands for, read after its opening quote up to the first quote that no
      backslash precedes; None if there is no such quote. */
  function Unescaped(t: string): Option<string> {
    if t == "" then None
    else if t[0] == QUOTE then Some("")
    else if t[0] == SLASH then
      if |t| == 1 then None else Prepend(t[1], Unescaped(t[2..]))
    else Prepend(t[0], Unescaped(t[1..]))
  }

  function Prepend(c: char, t: Option<string>): Option<string> {
    if t.None? then None else Some([c] + t.value)
  }

  /** Reading gives back what was written, whatever follows the closing quote. */
  lemma {:induction false} EscapeRoundTrip(s: string, rest: string)
    ensures Unescaped(EscapedBody(s) + [QUOTE] + rest) == Some(s)
  {
    var t := EscapedBody(s) + [QUOTE] + rest;
    if s == "" {
      assert t == [QUOTE] + rest;
    } else {
      EscapeRoundTrip(s[1..], rest);
      var u := EscapedBody(s[1..]) + [QUOTE] + rest;
      assert s == [s[0]] + s[1..];
      if Special(s[0]) {
        assert t == [SLASH, s[0]] + u;
        assert t[2..] == u;
      } else {
        assert t == [s[0]] + u;
        assert t[1..] == u;
      }
    }
  }

  /** Different strings are never written alike, not even as prefixes of one another. */
  lemma EscapeIsInjective(s: string, r: string)
    ensures Escaped(s) <= Escaped(r) <==> s == r
  {
    if Escaped(s) <= Escaped(r) {
      EscapeRoundTrip(s, Escaped(r)[|Escaped(s)|..]);
      EscapeRoundTrip(r, "");
      assert Escaped(r)[1..] == EscapedBody(r) + [QUOTE] + "";
      assert Escaped(r) == Escaped(s) + Escaped(r)[|Escaped(s)|..];
      assert Escaped(r)[1..] == EscapedBody(s) + [QUOTE] + Escaped(r)[|Escaped(s)|..];
    }
  }

  // ---------------------------------------------------------------- sym_escape_string_value

  /** strcspn(p, "\"\\") */
  method CountPlain(s: string, p: nat) returns (l: nat)
    requires p <= |s|
    ensures p + l <= |s| && (forall k :: p <= k < p + l ==> !Special(s[k]))
    ensures p + l < |s| ==> Special(s[p + l])
  {
    l := 0;
    while p + l < |s| && !Special(s[p + l])
      invariant p + l <= |s| && (forall k :: p <= k < p + l ==> !Special(s[k]))
    {
      l := l + 1;
    }
  }

  lemma {:induction false} EscapedAppend(s: string, p: nat, q: nat)
    requires p <= q <= |s| && forall k :: p <= k < q ==> !Special(s[k])
    ensures EscapedBody(s[p..]) == s[p..q] + EscapedBody(s[q..])
    decreases q - p
  {
    if p < q {
      EscapedAppend(s, p + 1, q);
      assert s[p..][1..] == s[p + 1..] && s[p..q] == [s[p]] + s[p + 1..q];
    } else {
      assert s[p..q] == "";
    }
  }

  /** The first pass: the size of the buffer, terminating NUL included. */
  method CountEscaped(s: string) returns (reslen: nat)
    ensures reslen == |Escaped(s)| + 1
  {
    reslen := |s| + 2 + 1;
    var p := 0;
    while true
      invariant p <= |s| && reslen == 3 + |s| - p + |EscapedBody(s)| - |EscapedBody(s[p..])|
      decreases |s| - p
    {
      var l := CountPlain(s, p);
      EscapedAppend(s, p, p + l);
      p := p + l;
      if p == |s| {
        break;
      }
      EscapedSpecial(s, p);
      reslen := reslen + 1;
      p := p + 1;
    }
  }

  lemma EscapedSpecial(s: string, p: nat)
    requires p < |s| && Special(s[p])
    ensures EscapedBody(s[p..]) == [SLASH] + [s[p]] + EscapedBody(s[p + 1..])
  {
    assert s[p..][1..] == s[p + 1..];
  }

  /** What the second pass writes fills exactly the size that the first pass counted. */
  method EscapeStringValue(s: string) returns (res: string, reslen: nat)
    ensures res == Escaped(s) && reslen == |res| + 1
  {
    reslen := CountEscaped(s);
    res := [QUOTE];
    var p := 0;
    assert s[0..] == s;
    hide EscapedBody;
    while true
      invariant p <= |s| && res + EscapedBody(s[p..]) == [QUOTE] + EscapedBody(s)
      decreases |s| - p
    {
      var l := CountPlain(s, p);
      EscapedAppend(s, p, p + l);
      ghost var before, rest := res, EscapedBody(s[p + l..]);
      res := res + s[p..p + l];
      Joined(before, s[p..p + l], rest);
      p := p + l;
      if p == |s| {
        break;
      }
      EscapedSpecial(s, p);
      ghost var mid, more := res, EscapedBody(s[p + 1..]);
      res := res + [SLASH];
      res := res + [s[p]];
      Joined(mid, [SLASH] + [s[p]], more);
      Joined(mid, [SLASH], [s[p]]);
      p := p + 1;
    }
    NothingEscaped(s[p..]);
    assert res + "" == res;
    res := res + [QUOTE];
  }

  lemma Joined(a: string, b: string, c: string)
    ensures a + (b + c) == a + b + c
  {
  }

  lemma NothingEscaped(s: string)
    requires s == ""
    ensures EscapedBody(s) == ""
  {
  }

  // ---------------------------------------------------------------- conf_set_sym_val

  /** The C string that starts at `p`: the characters before the first NUL. */
  function CString(b: seq<char>, p: nat): string
    requires p <= |b|
    decreases |b| - p
  {
    if p == |b| || b[p] == NUL then "" else [b[p]] + CString(b, p + 1)
  }

  lemma {:induction false} CStringIs(b: seq<char>, p: nat, n: nat)
    requires p + n < |b| && b[p + n] == NUL && forall k :: p <= k < p + n ==> b[k] != NUL
    ensures CString(b, p) == b[p..p + n]
    decreases n
  {
    if n > 0 {
      CStringIs(b, p + 1, n - 1);
    }
  }

  lemma {:induction false} CStringEnds(b: seq<char>, p: nat)
    requires p <= |b| && NUL in b[p..]
    ensures var n := |CString(b, p)|;
            p + n < |b| && b[p + n] == NUL && CString(b, p) == b[p..p + n] &&
            forall k :: p <= k < p + n ==> b[k] != NUL
    decreases |b| - p
  {
    assert b[p..] == [b[p]] + b[p + 1..];
    if b[p] != NUL {
      CStringEnds(b, p + 1);
      CStringNext(b, p);
      hide *;
      var n := |CString(b, p + 1)|;
      assert b[p..p + n + 1] == [b[p]] + b[p + 1..p + 1 + n];
    } else {
      assert b[p..p] == "";
    }
  }

  lemma CStringNext(b: seq<char>, p: nat)
    requires p < |b| && b[p] != NUL
    ensures CString(b, p) == [b[p]] + CString(b, p + 1)
  {
  }

  /** strpbrk(p, "\"\\") */
  method FindSpecial(b: array<char>, p: nat) returns (q: Option<nat>)
    requires p <= b.Length && NUL in b[p..]
    ensures var n := |CString(b[..], p)|;
            match q
            case None => forall k :: 0 <= k < n ==> !Special(CString(b[..], p)[k])
            case Some(i) => p <= i < p + n && Special(CString(b[..], p)[i - p]) &&
                            forall k :: 0 <= k < i - p ==> !Special(CString(b[..], p)[k])
  {
    ghost var text := CString(b[..], p);
    assert b[..][p..] == b[p..];
    CStringEnds(b[..], p);
    var i := p;
    while b[i] != NUL
      invariant p <= i <= p + |text| < b.Length && b[p + |text|] == NUL
      invariant forall k :: p <= k < p + |text| ==> b[k] == text[k - p] && b[k] != NUL
      invariant forall k :: 0 <= k < i - p ==> !Special(text[k])
      decreases |text| - (i - p)
    {
      if Special(b[i]) {
        return Some(i);
      }
      i := i + 1;
    }
    q := None;
  }

  /** strlen(p) */
  method StrLen(b: array<char>, p: nat) returns (n: nat)
    requires p <= b.Length && NUL in b[p..]
    ensures n == |CString(b[..], p)|
  {
    assert b[..][p..] == b[p..];
    CStringEnds(b[..], p);
    ghost var text := CString(b[..], p);
    n := 0;
    while b[p + n] != NUL
      invariant n <= |text| && p + |text| < b.Length && b[p + |text|] == NUL
      invariant forall k :: p <= k < p + |text| ==> b[k] != NUL
      decreases |text| - n
    {
      n := n + 1;
    }
  }

  /** `n` characters from `q` on replaced by the ones that follow them. */
  predicate Shifted(was: seq<char>, now: seq<char>, q: nat, n: nat) {
    && |was| == |now| && q + n < |was|
    && (forall k :: 0 <= k < q ==> now[k] == was[k])
    && (forall k :: q <= k < q + n ==> now[k] == was[k + 1])
    && (forall k :: q + n <= k < |was| ==> now[k] == was[k])
  }

  /** memmove(dst, dst + 1, n) */
  method ShiftLeft(b: array<char>, dst: nat, n: nat)
    requires dst + n < b.Length
    modifies b
    ensures Shifted(old(b[..]), b[..], dst, n)
  {
    for i := 0 to n
      invariant Shifted(old(b[..]), b[..], dst, i)
    {
      b[dst + i] := b[dst + i + 1];
    }
  }

  function PrependAll(d: string, t: Option<string>): Option<string> {
    if t.None? then None else Some(d + t.value)
  }

  lemma {:induction false} SkipPlain(t: string, k: nat)
    requires k <= |t| && forall j :: 0 <= j < k ==> !Special(t[j])
    ensures Unescaped(t) == PrependAll(t[..k], Unescaped(t[k..]))
  {
    if k > 0 {
      SkipPlain(t[1..], k - 1);
      assert t[1..][k - 1..] == t[k..] && t[..k] == [t[0]] + t[1..][..k - 1];
      assert !Special(t[0]);
      var u := Unescaped(t[k..]);
      if u.Some? {
        assert [t[0]] + (t[1..][..k - 1] + u.value) == t[..k] + u.value;
      }
    } else {
      assert t[..k] == "" && t[k..] == t;
      NothingRead(t);
    }
  }

  /** Removing the backslash at `q`: what the buffer holds behind the character that follows. */
  lemma AfterShift(was: seq<char>, now: seq<char>, p: nat, q: nat, n: nat)
    requires p <= q < p + n < |was| && was[p + n] == NUL && (forall k :: p <= k < p + n ==> was[k] != NUL)
    requires Shifted(was, now, q, p + n - q)
    ensures NUL in now[q + 1..]
    ensures CString(now, q + 1) == if q + 1 == p + n then "" else was[q + 2..p + n]
  {
    assert now[p + n] == NUL;
    assert now[q + 1..][p + n - q - 1] == NUL;
    if q + 1 < p + n {
      assert now[p + n - 1] == NUL;
      forall k | q + 1 <= k < p + n - 1 ensures now[k] == was[k + 1] && now[k] != NUL {
      }
      CStringIs(now, q + 1, p + n - q - 2);
    }
  }

  /** memmove(p2, p2 + 1, strlen(p2)) at the backslash `i`. */
  method RemoveBackslash(b: array<char>, p: nat, p2: nat, i: nat, ghost done: string, ghost rest: string)
    requires p <= p2 <= i < p2 + |rest| < b.Length && b[p2 + |rest|] == NUL && b[i] == SLASH
    requires done == b[..][p..p2] && rest == b[..][p2..p2 + |rest|] && NUL !in done && NUL !in rest
    modifies b
    ensures b[..p] == old(b[..p]) && NUL in b[..][i + 1..]
    ensures |CString(b[..], i + 1)| < |rest|
    ensures PrependAll(done, PrependAll(rest[..i - p2], Unescaped(rest[i - p2..]))) == PrependAll(b[..][p..i + 1], Unescaped(CString(b[..], i + 1)))
    ensures NUL in b[..][p..i + 1] ==> CString(b[..], i + 1) == ""
  {
    hide CString, Unescaped;
    ghost var was := b[..];
    forall k | p2 <= k < p2 + |rest| ensures was[k] != NUL {
      assert was[k] == rest[k - p2];
    }
    CStringIs(was, i, |rest| - (i - p2));
    assert b[i..][|rest| - (i - p2)] == NUL;
    var n := StrLen(b, i);
    ShiftLeft(b, i, n);
    AfterShift(was, b[..], p2, i, |rest|);
    OneUnescaped(was, b[..], p, p2, i, done, rest);
  }

  /** The loop of conf_set_sym_val over the text after the opening quote: each backslash is removed
      in place, and the closing quote becomes the terminating NUL. Nothing before `p` changes. */
  method UnescapeInPlace(b: array<char>, p: nat) returns (ok: bool)
    requires p <= b.Length && NUL in b[p..]
    modifies b
    ensures b[..p] == old(b[..p]) && NUL in b[p..]
    ensures ok == Unescaped(old(CString(b[..], p))).Some?
    ensures ok ==> Some(CString(b[..], p)) == Unescaped(old(CString(b[..], p)))
  {
    ghost var text := CString(b[..], p);
    assert b[..][p..] == b[p..];
    ghost var done, rest: string := "", text;
    Start(b[..], p);
    hide *;
    var p2 := p;
    while true
      invariant Reading(b[..], p, p2, done, rest, text) && p <= b.Length && b[..p] == old(b[..p])
      decreases |rest|
    {
      var step;
      step, p2, done, rest := UnescapeStep(b, p, p2, done, rest, text);
      if !step.More? {
        return step.Closed?;
      }
    }
  }

  datatype Step = More | Closed | Open

  /** The text up to `p2` has been read as `done`, and `rest` is to come. */
  ghost predicate Reading(b: seq<char>, p: nat, p2: nat, done: string, rest: string, text: string) {
    && p <= p2 <= |b| && NUL in b[p2..]
    && done == b[p..p2] && rest == CString(b, p2) && (NUL in done ==> rest == "")
    && Unescaped(text) == PrependAll(done, Unescaped(rest))
  }

  lemma Start(b: seq<char>, p: nat)
    requires p <= |b| && NUL in b[p..]
    ensures Reading(b, p, p, "", CString(b, p), CString(b, p))
  {
    NothingRead(CString(b, p));
  }

  /** One round of the loop, up to the next quote or backslash. */
  method UnescapeStep(b: array<char>, p: nat, p2: nat, ghost done: string, ghost rest: string, ghost text: string)
    returns (step: Step, next: nat, ghost done1: string, ghost rest1: string)
    requires Reading(b[..], p, p2, done, rest, text)
    modifies b
    ensures p <= b.Length && b[..p] == old(b[..p])
    ensures step.More? ==> Reading(b[..], p, next, done1, rest1, text) && |rest1| < |rest|
    ensures step.Closed? ==> NUL in b[p..] && Unescaped(text) == Some(CString(b[..], p))
    ensures step.Open? ==> NUL in b[p..] && Unescaped(text) == None
  {
    hide CString, Unescaped, PrependAll, Reading;
    ghost var was := b[..];
    ReadSoFar(was, p, p2, done, rest, text);
    assert b[p2..] == was[p2..];
    step, next, done1, rest1 := Open, p2, done, rest;
    var q := FindSpecial(b, p2);
    if q.None? {
      NoneLeft(done, rest, text);
      assert b[p..] == was[p..];
      return;
    }
    var i := q.value;
    SkipPlain(rest, i - p2);
    assert rest[i - p2] == was[i];
    if b[i] == QUOTE {
      b[i] := NUL;
      ClosedAt(was, b[..], p, p2, i, done, rest);
      assert b[p..][i - p] == NUL;
      step := Closed;
      return;
    }
    RemoveBackslash(b, p, p2, i, done, rest);
    step, next, done1, rest1 := More, i + 1, b[..][p..i + 1], CString(b[..], i + 1);
    StillReading(b[..], p, i + 1, text);
  }

  lemma ReadSoFar(b: seq<char>, p: nat, p2: nat, done: string, rest: string, text: string)
    requires Reading(b, p, p2, done, rest, text)
    ensures p <= p2 <= |b| && NUL in b[p2..] && NUL in b[p..] && done == b[p..p2] && rest == CString(b, p2)
    ensures p2 + |rest| < |b| && b[p2 + |rest|] == NUL && rest == b[p2..p2 + |rest|] && NUL !in rest
    ensures rest != "" ==> NUL !in done
    ensures Unescaped(text) == PrependAll(done, Unescaped(rest))
  {
    CStringEnds(b, p2);
    assert b[p..][p2 + |rest| - p] == NUL;
    forall k | 0 <= k < |rest| ensures rest[k] != NUL {
      assert rest[k] == b[p2 + k];
    }
  }

  lemma NoneLeft(done: string, rest: string, text: string)
    requires Unescaped(text) == PrependAll(done, Unescaped(rest)) && forall k :: 0 <= k < |rest| ==> !Special(rest[k])
    ensures Unescaped(text) == None
  {
    SkipPlain(rest, |rest|);
    NothingLeft(rest);
  }

  lemma StillReading(b: seq<char>, p: nat, p2: nat, text: string)
    requires p <= p2 <= |b| && NUL in b[p2..] && (NUL in b[p..p2] ==> CString(b, p2) == "")
    requires Unescaped(text) == PrependAll(b[p..p2], Unescaped(CString(b, p2)))
    ensures Reading(b, p, p2, b[p..p2], CString(b, p2), text)
  {
  }

  lemma NothingLeft(t: string)
    ensures Unescaped(t[|t|..]) == None
  {
    assert t[|t|..] == "";
  }

  lemma NothingRead(t: string)
    ensures Unescaped(t) == PrependAll("", Unescaped(t))
  {
    var u := Unescaped(t);
    assert u.Some? ==> "" + u.value == u.value;
  }

  lemma ClosedAt(was: seq<char>, now: seq<char>, p: nat, p2: nat, i: nat, done: string, rest: string)
    requires p <= p2 <= i < p2 + |rest| <= |was| && now == was[i := NUL]
    requires done == was[p..p2] && rest == was[p2..p2 + |rest|] && NUL !in done && NUL !in rest && was[i] == QUOTE
    ensures Some(CString(now, p)) == PrependAll(done, PrependAll(rest[..i - p2], Unescaped(rest[i - p2..])))
  {
    BeforeClose(was, now, p, p2, i, done, rest);
    CStringIs(now, p, i - p);
    var plain, tail := rest[..i - p2], rest[i - p2..];
    assert tail[0] == QUOTE;
    hide CString;
    assert Unescaped(tail) == Some("");
    Assembled(done, plain);
  }

  lemma BeforeClose(was: seq<char>, now: seq<char>, p: nat, p2: nat, i: nat, done: string, rest: string)
    requires p <= p2 <= i < p2 + |rest| <= |was| && now == was[i := NUL]
    requires done == was[p..p2] && rest == was[p2..p2 + |rest|] && NUL !in done && NUL !in rest
    ensures forall k :: p <= k < i ==> now[k] != NUL
    ensures now[p..i] == done + rest[..i - p2]
  {
    forall k | p <= k < i ensures now[k] != NUL {
      if k < p2 {
        assert now[k] == done[k - p];
      } else {
        assert now[k] == rest[k - p2];
      }
    }
  }

  lemma Assembled(done: string, plain: string)
    ensures PrependAll(done, PrependAll(plain, Some(""))) == Some(done + plain)
  {
    assert plain + "" == plain;
  }

  /** One backslash removed, at `i`: the text read so far grows by the character after it. */
  lemma OneUnescaped(was: seq<char>, now: seq<char>, p: nat, p2: nat, i: nat, done: string, rest: string)
    requires p <= p2 <= i < p2 + |rest| < |was| && Shifted(was, now, i, p2 + |rest| - i)
    requires done == was[p..p2] && rest == was[p2..p2 + |rest|] && NUL !in done && NUL !in rest && was[i] == SLASH
    requires CString(now, i + 1) == if i + 1 == p2 + |rest| then "" else was[i + 2..p2 + |rest|]
    ensures PrependAll(done, PrependAll(rest[..i - p2], Unescaped(rest[i - p2..]))) == PrependAll(now[p..i + 1], Unescaped(CString(now, i + 1)))
    ensures NUL in now[p..i + 1] ==> CString(now, i + 1) == ""
  {
    var plain, tail := rest[..i - p2], rest[i - p2..];
    NowDone(was, now, p, p2, i, done, plain);
    assert tail[0] == SLASH && CString(now, i + 1) == tail[if |tail| == 1 then 1 else 2..] by {
      if |tail| > 1 { TailOf(was, rest, tail, p2, i); }
    }
    if |tail| > 1 {
      TailOf(was, rest, tail, p2, i);
      assert now[i] == tail[1];
    }
    hide *;
    SlashRead(done, plain, tail, now[i]);
    NoneIn(done, plain, rest, now[i], i - p2);
  }

  lemma SlashRead(done: string, plain: string, tail: string, c: char)
    requires tail != "" && tail[0] == SLASH && (|tail| > 1 ==> c == tail[1])
    ensures PrependAll(done, PrependAll(plain, Unescaped(tail))) ==
            PrependAll(done + plain + [c], Unescaped(tail[if |tail| == 1 then 1 else 2..]))
  {
    if |tail| > 1 {
      PrependThree(done, plain, c, Unescaped(tail[2..]));
    }
  }

  lemma NoneIn(done: string, plain: string, rest: string, c: char, n: nat)
    requires NUL !in done && NUL !in rest && n < |rest| && plain == rest[..n]
    ensures |rest| > n + 1 && c == rest[n + 1] ==> NUL !in done + plain + [c]
  {
  }

  lemma TailOf(was: seq<char>, rest: string, tail: string, p2: nat, i: nat)
    requires p2 <= i < p2 + |rest| - 1 && p2 + |rest| <= |was| && rest == was[p2..p2 + |rest|] && tail == rest[i - p2..]
    ensures tail[1] == was[i + 1] == rest[i + 1 - p2] && tail[2..] == was[i + 2..p2 + |rest|]
  {
  }

  lemma NowDone(was: seq<char>, now: seq<char>, p: nat, p2: nat, i: nat, done: string, plain: string)
    requires p <= p2 <= i < |was| == |now| && done == was[p..p2] && plain == was[p2..i]
    requires forall k :: p <= k < i ==> now[k] == was[k]
    ensures now[p..i + 1] == done + plain + [now[i]]
  {
  }

  lemma PrependThree(a: string, b: string, c: char, t: Option<string>)
    ensures PrependAll(a, PrependAll(b, Prepend(c, t))) == PrependAll(a + b + [c], t)
  {
    if t.Some? {
      assert a + (b + ([c] + t.value)) == a + b + [c] + t.value;
    }
  }

  datatype Outcome = Ignored | Invalid | Accepted

  /** The S_STRING case of conf_set_sym_val for the text at `p`; an accepted value starts at `p + 1`.
      Text that does not start with a quote is passed over without an error. */
  method ReadString(b: array<char>, p: nat) returns (r: Outcome)
    requires p < b.Length && NUL in b[p..]
    modifies b
    ensures b[..p] == old(b[..p])
    ensures r.Ignored? <==> !([QUOTE] <= old(CString(b[..], p)))
    ensures r.Ignored? ==> b[..] == old(b[..])
    ensures forall s: string :: old(CString(b[..], p)) == Escaped(s) ==> r.Accepted? && CString(b[..], p + 1) == s
  {
    ghost var text := CString(b[..], p);
    assert b[..][p..] == b[p..];
    CStringEnds(b[..], p);
    if b[p] != QUOTE {
      return Ignored;
    }
    assert b[p..] == [b[p]] + b[p + 1..];
    assert text == [QUOTE] + CString(b[..], p + 1);
    ghost var body := CString(b[..], p + 1);
    ghost var before := b[..p + 1];
    var ok := UnescapeInPlace(b, p + 1);
    assert b[..p] == before[..p];
    forall s: string | text == Escaped(s) ensures ok && CString(b[..], p + 1) == s {
      EscapeRoundTrip(s, "");
      assert body == text[1..] == EscapedBody(s) + [QUOTE] + "";
    }
    r := if ok then Accepted else Invalid;
  }

  // ---------------------------------------------------------------- kconfiglib.py

  /** str.replace: occurrences from left to right, not overlapping. */
  function Replace(s: string, what: string, with: string): string
    requires what != ""
  {
    if |s| < |what| then s
    else if s[..|what|] == what then with + Replace(s[|what|..], what, with)
    else [s[0]] + Replace(s[1..], what, with)
  }

  function Doubled(s: string): string {
    Replace(s, [SLASH], [SLASH, SLASH])
  }

  /** The escaping of Symbol._make_conf. */
  function PythonEscaped(s: string): string {
    Replace(Doubled(s), [QUOTE], [SLASH, QUOTE])
  }

  /** The unescaping of Config.load_config, applied between the outer quotes. */
  function PythonUnescaped(t: string): string {
    Replace(Replace(t, [SLASH, QUOTE], [QUOTE]), [SLASH, SLASH], [SLASH])
  }

  /** Two replacements, one after the other, write what the C code writes. */
  lemma {:induction false} PythonEscapesAlike(s: string)
    ensures PythonEscaped(s) == EscapedBody(s)
  {
    if s != "" {
      PythonEscapesAlike(s[1..]);
      assert s[..1] == [s[0]];
      assert Doubled(s) == (if s[0] == SLASH then [SLASH, SLASH] else [s[0]]) + Doubled(s[1..]);
      assert EscapedBody(s) == (if Special(s[0]) then [SLASH, s[0]] else [s[0]]) + EscapedBody(s[1..]);
      assert PythonEscaped(s) == Replace(Doubled(s), [QUOTE], [SLASH, QUOTE]);
      assert PythonEscaped(s[1..]) == Replace(Doubled(s[1..]), [QUOTE], [SLASH, QUOTE]);
      hide *;
      EscapedFirst(s[0], Doubled(s[1..]));
    }
  }

  lemma EscapedFirst(c: char, d: string)
    ensures Replace((if c == SLASH then [SLASH, SLASH] else [c]) + d, [QUOTE], [SLASH, QUOTE]) ==
            (if Special(c) then [SLASH, c] else [c]) + Replace(d, [QUOTE], [SLASH, QUOTE])
  {
    hide Replace;
    if c == SLASH {
      assert [SLASH, SLASH] + d == [SLASH] + ([SLASH] + d);
      Advance(SLASH, [SLASH] + d);
      Advance(SLASH, d);
    } else {
      Advance(c, d);
    }
  }

  /** One step of replacing quotes. */
  lemma Advance(c: char, rest: string)
    ensures Replace([c] + rest, [QUOTE], [SLASH, QUOTE])
         == (if c == QUOTE then [SLASH, QUOTE] else [c]) + Replace(rest, [QUOTE], [SLASH, QUOTE])
  {
    var s := [c] + rest;
    assert s[..1] == [c] && s[1..] == rest;
  }

  /** The two replacements of load_config, in their order, undo it. */
  lemma PythonRoundTrip(s: string)
    ensures PythonUnescaped(PythonEscaped(s)) == s
  {
    PythonEscapesAlike(s);
    QuotesFreed(s);
    SlashesHalved(s);
  }

  lemma NoMatch(c: char, rest: string, what: string, with: string)
    requires |what| == 2 && !(c == what[0] && rest != "" && rest[0] == what[1])
    ensures Replace([c] + rest, what, with) == [c] + Replace(rest, what, with)
  {
    var s := [c] + rest;
    assert s[1..] == rest;
    assert rest != "" ==> s[..2] == [c, rest[0]];
  }

  lemma Match(rest: string, what: string, with: string)
    requires what != ""
    ensures Replace(what + rest, what, with) == with + Replace(rest, what, with)
  {
    assert (what + rest)[..|what|] == what && (what + rest)[|what|..] == rest;
  }

  lemma {:induction false} QuotesFreed(s: string)
    ensures Replace(EscapedBody(s), [SLASH, QUOTE], [QUOTE]) == Doubled(s)
  {
    if s != "" {
      QuotesFreed(s[1..]);
      var t := EscapedBody(s[1..]);
      assert s[..1] == [s[0]];
      assert Doubled(s) == (if s[0] == SLASH then [SLASH, SLASH] else [s[0]]) + Doubled(s[1..]);
      assert EscapedBody(s) == (if Special(s[0]) then [SLASH, s[0]] else [s[0]]) + t && (t == "" || t[0] != QUOTE);
      hide *;
      FreedFirst(s[0], t, Doubled(s[1..]));
    }
  }

  lemma FreedFirst(c: char, t: string, d: string)
    requires Replace(t, [SLASH, QUOTE], [QUOTE]) == d && (t == "" || t[0] != QUOTE)
    ensures Replace((if Special(c) then [SLASH, c] else [c]) + t, [SLASH, QUOTE], [QUOTE]) ==
            (if c == SLASH then [SLASH, SLASH] else [c]) + d
  {
    hide Replace;
    if c == QUOTE {
      Match(t, [SLASH, QUOTE], [QUOTE]);
    } else if c == SLASH {
      assert [SLASH, c] + t == [SLASH] + ([SLASH] + t);
      NoMatch(SLASH, [SLASH] + t, [SLASH, QUOTE], [QUOTE]);
      NoMatch(SLASH, t, [SLASH, QUOTE], [QUOTE]);
      assert [SLASH] + ([SLASH] + d) == [SLASH, SLASH] + d;
    } else {
      NoMatch(c, t, [SLASH, QUOTE], [QUOTE]);
    }
  }

  lemma {:induction false} SlashesHalved(s: string)
    ensures Replace(Doubled(s), [SLASH, SLASH], [SLASH]) == s
  {
    if s != "" {
      SlashesHalved(s[1..]);
      var d := Doubled(s[1..]);
      assert s == [s[0]] + s[1..] && s[..1] == [s[0]];
      if s[0] == SLASH {
        Match(d, [SLASH, SLASH], [SLASH]);
      } else {
        NoMatch(s[0], d, [SLASH, SLASH], [SLASH]);
      }
    }
  }
}
