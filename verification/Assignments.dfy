/** What assigning a value to a symbol does to the user entries of kconfiglib.py. */
module Assignments {
  import opened Tristates
  import opened Expressions
  import opened Kconfiglib

  /** The check of _set_user_value_no_invalidate. */
  predicate ValidText(s: Setup, d: SymDecl, text: string) {
    match d.stype
    case Boolean => text == "y" || text == "n"
    case ThreeState => text == "y" || text == "m" || text == "n"
    case Str => true
    case Int => s.parse(text, 10).Some?
    case Hex => s.parse(text, 16).Some?
    case _ => false
  }

  /** _set_user_value_no_invalidate: an ignored entry changes nothing; `y` for a symbol of a choice
      selects it there, `m` takes the selection away. */
  function Assigned(s: Setup, u: Entries, i: nat, text: string): (r: Entries)
    requires Known(s) && KnownEntries(s, u) && i < |s.syms|
    ensures KnownEntries(s, r)
  {
    assert KnownSym(s, i);
    var d := s.syms[i];
    if d.special.Some? || !ValidText(s, d, text) then u
    else
      var vals := u.vals[i := Some(text)];
      if d.choice.Some? && IsTri(d.stype) && text == "y" then
        Entries(vals, u.picks[d.choice.value := Some(i)], u.modes[d.choice.value := Some(YES)])
      else if d.choice.Some? && IsTri(d.stype) && text == "m" then
        Entries(vals, u.picks[d.choice.value := None], u.modes[d.choice.value := Some(MOD)])
      else u.(vals := vals)
  }

  /** _unset_user_value_no_recursive_invalidate */
  function Unassigned(s: Setup, u: Entries, i: nat): (r: Entries)
    requires Known(s) && KnownEntries(s, u) && i < |s.syms|
    ensures KnownEntries(s, r)
  {
    assert KnownSym(s, i);
    var vals, c := u.vals[i := None], s.syms[i].choice;
    if c.Some? then Entries(vals, u.picks[c.value := None], u.modes[c.value := None]) else u.(vals := vals)
  }

  function NoEntries(s: Setup): Entries {
    Entries(seq(|s.syms|, i => None), seq(|s.choices|, c => None), seq(|s.choices|, c => None))
  }

  /** The assignments of a file, in order. */
  function AssignedAll(s: Setup, u: Entries, lines: seq<(nat, string)>): (r: Entries)
    requires Known(s) && KnownEntries(s, u) && forall k :: 0 <= k < |lines| ==> lines[k].0 < |s.syms|
    ensures KnownEntries(s, r)
    decreases lines
  {
    if lines == [] then u else AssignedAll(s, Assigned(s, u, lines[0].0, lines[0].1), lines[1..])
  }
}
