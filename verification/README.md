# Buildroot's Kconfig engine, and the CRC of mkpimage

Buildroot configures itself with Kconfig, a language of symbols, dependencies and choices. Two
programs in the repository read it: the configurator in C (`support/kconfig`) and the Python library
`support/scripts/kconfiglib.py`. This project models both and proves what each computes, and that they
agree. A last part models the checksum arithmetic of `package/mkpimage`.

## The parts

* **Expressions** (`Tristates`, `Expressions`). Dependencies over no < mod < yes: AND is the minimum, OR the
  maximum, NOT is 2 - x. An assignment is legal if bool symbols are never mod, nor tristate symbols while
  modules are off.
* **The optimiser of expr.c** (`Simplification`, `Equality`, `Spines`, `Duplicates`, `Irredundant`,
  `Nesting`). Unit elimination, negation normal form, equality up to order and nesting, joining of duplicates,
  and comparison pushing. Not every pass keeps all three values. `expr_eliminate_dups` keeps `no` and `yes`
  and may turn `mod` into something else; `Duplicates.EliminateDupsLosesMod` gives a family for which it does,
  with the exact condition; it keeps `mod` too if no operand is contradicted. `Irredundant` says what it
  leaves nothing of. The identity test `e1 == e2` on nodes is a comparison of tree positions.
* **The evaluator of symbol.c** (`Numbers`, `Semantics`, `Declarations`, `RankNumbers`, `Ranking`, `Settings`,
  `Choices`, `Evaluator`, `PendingInput`). `Semantics` says what one symbol's value is, given the values of
  the symbols it mentions; a solution is an assignment in which that holds everywhere. `Ranking` shows that a
  table without recursive dependencies has exactly one solution for every user input, the one that memo-free
  recursion computes. `Evaluator` is the memoised evaluator with its flags, choices included. It terminates on
  every table, cyclic ones too, and on a table without recursive dependencies it leaves every valid symbol
  with its value in the solution, in whatever order symbols are asked for. `Declarations` and `Choices` say
  which prompt, default, range or member decides, and `Settings` what setting values does to the solution. An
  accepted value need not be the value afterwards: input that equals the current value is recorded without a
  new round of evaluation, and may take effect only with the next one. `Evaluator.SetThenCalc` gives the exact
  condition, and `PendingInput` runs an example.
* **Recursive dependencies** (`Recursion`). The depth-first search of `sym_check_deps` prints a cycle exactly
  if there is one, and the order in which it finishes is a ranking. Its top-level answer is always null,
  because the symbol the search started from is cleared from the answer; so `conf_parse`, which gives up when
  it has counted an error, never does on account of this check. This is proved for trees without choices.
* **Saving and loading in C** (`Escaping`, `Defconfig`, `DefconfigFiles`). Quoted strings, written by counting
  first and unescaped in place in the line buffer. The minimal file of `conf_write_defconfig` gives every
  value back exactly if no tristate symbol has input that is overruled by a select, at or above its
  visibility, while its default would be higher; bool and string symbols always come back. No line is written
  without need.
* **Menus** (`Menus`, `MenuLinks`, `MenuParents`). `menu_finalize` relinks list, next and parent pointers;
  every entry is finalised once, the order of entries never changes, and the walk of `conf_write` that climbs
  parent pointers meets the entries in exactly that order. `MenuParents` joins the pointers with the
  conditions that decide about nesting.
* **kconfiglib.py** (`Formulas`, `Kconfiglib`, `KconfiglibChoices`, `KconfiglibValues`, `Invalidation`,
  `Assignments`, `ModulesSymbol`, `KconfiglibCache`, `KconfiglibRuns`, `StaleCaches`, `ConfigText`,
  `KconfiglibLines`, `KconfiglibFiles`, `KconfiglibRoundTrip`, `LostValues`, `ConfigFiles`, `Parsing`,
  `Grammar`). Values, visibilities and choice selections are cached; an assignment drops those of the
  dependent symbols. `KconfiglibRuns` shows over every run of assignments and questions that each answer is
  what evaluation from scratch gives, with two provisos, because the recorded dependencies are not enough
  without them: MODULES changes its value only by set_user_value of MODULES, and what makes the default of a
  choice visible is also read by a symbol of the choice. `StaleCaches` runs an example against each, and the
  contracts of `KconfiglibCache` say what one assignment needs when the provisos fail: that no evaluation
  outside the dependent symbols meets an `m`, and exactly what, when everything was cached. The expression
  parser accepts exactly its grammar and inverts the printer up to flattening. An int or hex symbol passes
  over defaults that are no numbers, and `KconfiglibValues` says what its value is then.

  A written configuration is a text, which load_config splits at line breaks, joins where a line ends in a
  backslash, and matches line by line. Loading it gives every value back exactly if every line can be read, no
  tristate symbol has a default above its visibility, no string that was entered holds a line break, and every
  visible number is read back as it was, or is a default and read back as no number in range. set_user_value
  accepts line breaks, so values can be lost: `LostValues` runs `a\nb`, `\n12` and a default. Of a Kconfig
  file the theorem asks that constants and titles hold no line break, that titles and the defaults of numbers
  do not end in a backslash, that a number is no string by default, and that no menu or comment has a title
  such as `CONFIG_FOO is not set`, which is read back as an assignment.
* **Agreement** (`Agreement`). The two implementations give every bool, tristate and string symbol the same
  value, although they turn `m` into `y` at different points. One difference is real: the text of a string
  symbol whose default names a bool symbol is always `n` in C.
* **mkpimage** (`Crc`, `Images`). The table-driven CRC is division by the generator of IEEE 802.3, section
  3.2.9, one bit at a time and without reflection; damage to four consecutive bytes never goes unnoticed.

Tables of symbols stand for the symbol structures, with symbols known by their number; the fields that the
programs update are kept in sequences of records inside one object. A hypothesis that recurs is a ranking:
every symbol has a rank above those of the symbols its declaration mentions. It says that dependencies are not
recursive, and `Recursion` shows how the program's own check provides it. Members of a C choice mention their
choice in their prompts, because `menu_finalize` conjoins it, and rank above it; symbols of a kconfiglib
choice share a rank.

## Model

| member | source | states |
|---|---|---|
| `Simplification.EliminateYnPreserves` | buildroot/support/kconfig/expr.c:231-312 | unit elimination keeps the value of an expression in every assignment |
| `Simplification.EliminateYnShape` | buildroot/support/kconfig/expr.c:231-312 | afterwards no constant y or n is left as an operand, the tree does not grow, and shrinks if there was one |
| `Simplification.TransformPreserves` | buildroot/support/kconfig/expr.c:636-771 | expr_transform keeps the value in every legal assignment |
| `Simplification.TransformIsNormal` | buildroot/support/kconfig/expr.c:636-771 | its result negates only symbols that are not y, m or n, and compares no bool symbol with them |
| `Simplification.NormalIffFixed` | buildroot/support/kconfig/expr.c:636-771 | the normal forms are exactly the expressions that expr_transform leaves alone |
| `Simplification.TransformIdempotent` | buildroot/support/kconfig/expr.c:636-771 | a second call changes nothing |
| `Simplification.TransBoolKeepsNo` | buildroot/support/kconfig/expr.c:317-341 | on negation normal forms expr_trans_bool keeps whether the value is no, and can only lower it |
| `Simplification.TransBoolUnderNot` | buildroot/support/kconfig/expr.c:317-341 | below a negation that fails exactly when the symbol is mod |
| `Simplification.TransBoolShape` | buildroot/support/kconfig/expr.c:317-341 | it replaces every FOO!=n of a tristate symbol, at any depth, and nothing else |
| `Equality.ExprEqSound` | buildroot/support/kconfig/expr.c:189-229 | expressions that expr_eq calls equal have the same value in every assignment, through its recursion with expr_eliminate_eq |
| `Equality.ExprEqComplete` | buildroot/support/kconfig/expr.c:189-229 | on two flat AND or two flat OR trees expr_eq answers 1 exactly if the operand multisets are equal |
| `Equality.EliminateEqImplies` | buildroot/support/kconfig/expr.c:164-184 | if expr_eliminate_eq leaves y of its second argument, the first was at most the second in every assignment |
| `Equality.EliminateEqExact` | buildroot/support/kconfig/expr.c:130-184 | on flat trees of one operator a unit is left of the second argument exactly if the first one has all its operands |
| `Equality.ZeroMakesEqual` | buildroot/support/kconfig/expr.c:142-145 | constants are not cancelled, so conjunctions with n, or disjunctions with y, are equal by expr_eq whatever else they hold |
| `Equality.ExtractSound` | buildroot/support/kconfig/expr.c:826-875 | both arguments of expr_extract_eq are their remainders combined with the same common part |
| `Equality.ExtractAll` | buildroot/support/kconfig/expr.c:826-875 | if only a unit remains of the first argument, it is implied by (AND) or implies (OR) the second |
| `Duplicates.JoinOrExact` | buildroot/support/kconfig/expr.c:346-408 | a joined pair of OR operands has their maximum in every legal assignment |
| `Duplicates.JoinAndExact` | buildroot/support/kconfig/expr.c:410-502 | a joined pair of AND operands has their minimum in every legal assignment |
| `Duplicates.Dups1Exact` | buildroot/support/kconfig/expr.c:504-554 | the first walk over all pairs of operands keeps the value exactly, mod included |
| `Duplicates.ContradictRefines` | buildroot/support/kconfig/expr.c:577-609 | replacing a contradicted operand keeps no and yes, and keeps the value exactly if it was not mod |
| `Duplicates.Dups2Refines` | buildroot/support/kconfig/expr.c:556-610 | the second walk keeps no and yes |
| `Duplicates.EliminateDupsLoop` | buildroot/support/kconfig/expr.c:612-634 | the fixpoint loop ends, because the tree gets smaller in every round with a rewrite, and computes EliminateDups |
| `Duplicates.EliminateDupsRefines` | buildroot/support/kconfig/expr.c:612-634 | every definite value is preserved in every legal assignment |
| `Duplicates.EliminateDupsExact` | buildroot/support/kconfig/expr.c:612-634 | if no round replaces a contradicted operand, mod is preserved too |
| `Duplicates.EliminateDupsShape` | buildroot/support/kconfig/expr.c:612-634 | negation normal forms stay such, and the result is a fixpoint of the loop |
| `Duplicates.EliminateDupsLosesMod` | buildroot/support/kconfig/expr.c:556-634 | (FOO OR BAR) AND NOT FOO AND NOT BAR becomes no for all bool and tristate symbols, which is its value exactly if the greater of the two is not mod |
| `Irredundant.NoRepeatsLeft` | buildroot/support/kconfig/expr.c:504-634 | no operand is left twice in the result, at any depth, as far as expr_eq can tell |
| `Irredundant.NoContradictionsLeft` | buildroot/support/kconfig/expr.c:556-634 | nor an operand whose negations, in a flat list, are all among the others |
| `Irredundant.ComparisonsAreJoined` | buildroot/support/kconfig/expr.c:346-502 | two comparisons of a tristate symbol with two of y, m and n become one comparison with the third |
| `Irredundant.EqualAndUnequal` | buildroot/support/kconfig/expr.c:454-468 | (a='b') && (a!='c') becomes n or a='b' |
| `Irredundant.SymbolAndComparison` | buildroot/support/kconfig/expr.c:438-451 | a symbol and one of three comparisons of it become the stronger one |
| `Irredundant.SymbolOrNot` | buildroot/support/kconfig/expr.c:346-408 | a bool symbol or its negation becomes y |
| `Nesting.TransCompareCorrect` | buildroot/support/kconfig/expr.c:877-936 | the comparison with y or n that is pushed inwards is true exactly when it holds, where nothing that is mod is negated and the symbols used as conditions have a text like their truth value |
| `Nesting.TransCompareUnderNot` | buildroot/support/kconfig/expr.c:877-936 | below a negation it is right exactly if the negated expression is not mod |
| `Nesting.TransCompareOfText` | buildroot/support/kconfig/expr.c:928-929 | for a bare string or number it is right exactly if its text does not read y, and for n exactly if it reads n |
| `Nesting.TransCompareOfTruths` | buildroot/support/kconfig/expr.c:877-936 | the comparison is always right for conditions made of bool symbols, and for those made of tristate symbols where nothing that is mod is negated |
| `Nesting.ContainsIsMembership` | buildroot/support/kconfig/expr.c:773-795 | expr_contains_symbol decides whether an expression mentions a symbol |
| `Nesting.DependsOnForces` | buildroot/support/kconfig/expr.c:797-824 | an expression that expr_depends_symbol accepts is no whenever the symbol is no |
| `Nesting.DependsOnIff` | buildroot/support/kconfig/expr.c:797-824 | expr_depends_symbol answers 1 exactly if some AND operand is the symbol itself or its comparison =y, =m or !=n |
| `Nesting.AutoNestsIff` | buildroot/support/kconfig/menu.c:338-361 | an entry nests exactly if it mentions the symbol and depends on it so, or has all operands of the other entry's condition, where these are flat conjunctions |
| `Nesting.AutoNestsUnconditionally` | buildroot/support/kconfig/menu.c:338-361 | below an entry whose prompt has no condition every entry nests that mentions its symbol |
| `Nesting.NestedEntryHasOpenParent` | buildroot/support/kconfig/menu.c:338-359 | an entry that is nested under another is visible only if that one's symbol is on or its prompt is visible |
| `Nesting.PropertyConditionCorrect` | buildroot/support/kconfig/menu.c:311-335 | the condition that menu_finalize stores for a property refines the conjunction of the inherited and its own condition |
| `Numbers.DecTextRoundTrip` | buildroot/support/kconfig/symbol.c:139-187 | a decimal number that sym_validate_range prints is read back as itself |
| `Numbers.HexTextRoundTrip` | buildroot/support/kconfig/symbol.c:139-187 | a hexadecimal one exactly if it is not negative; a negative one saturates |
| `Numbers.DecimalsAreRead` | buildroot/support/kconfig/symbol.c:139-153 | what follows the digits is ignored, and numbers beyond long long saturate |
| `Numbers.IgnoredInFront` | buildroot/support/kconfig/symbol.c:139-153 | so are white space in front and a plus sign |
| `Numbers.PrintedDigits` | buildroot/support/kconfig/symbol.c:182-185 | digits are printed in lower case and without leading zeros |
| `Declarations.VisibleIff` | buildroot/support/kconfig/symbol.c:189-203 | a symbol is visible exactly if some prompt condition is not n, and at y exactly if one is y or m is no value for it |
| `Declarations.DirDepIff` | buildroot/support/kconfig/symbol.c:208-217 | direct dependencies count as n exactly if there are some and they are n |
| `Declarations.RangeIsEnforced` | buildroot/support/kconfig/symbol.c:155-187 | by the first range that holds: a number ends up in it exactly if it was there or the range is not empty and the bound it is moved to can be printed; it becomes that bound, and stays as it is if it was in range |
| `Declarations.BoundIs` | buildroot/support/kconfig/symbol.c:139-153 | bounds that are int or hex symbols are read in their own base, constants in that of the bounded symbol |
| `Declarations.TextValueIs` | buildroot/support/kconfig/symbol.c:385-411 | the value is the input if visible, or the text of the symbol that the first default that holds names, and is then moved into the first range that holds |
| `Declarations.WritesIff` | buildroot/support/kconfig/symbol.c:339-440 | a symbol outside choices goes into the .config file exactly if it is visible, selected or has a default that holds, and does not get its value in another way |
| `Ranking.ValueAgrees` | buildroot/support/kconfig/symbol.c:189-440 | the value of a symbol, choices and members included, is a function of the values ranked below it |
| `Ranking.SolutionUnique` | buildroot/support/kconfig/symbol.c:293-440 | two solutions for the same input agree on every symbol |
| `Ranking.SolutionExists` | buildroot/support/kconfig/symbol.c:293-440 | memo-free recursion yields a solution, and a legal one |
| `Ranking.SolutionIsMeaning` | buildroot/support/kconfig/symbol.c:293-440 | an assignment is a solution exactly if it has the values of the recursion |
| `Evaluator.Evaluator.EvalExpr` | buildroot/support/kconfig/expr.c:938-977 | expr_calc_value evaluates and leaves valid every symbol it mentions and returns the value in the solution |
| `Evaluator.Evaluator.CalcVisibility` | buildroot/support/kconfig/symbol.c:189-227 | visible, dir_dep.tri and rev_dep.tri get the values of the solution |
| `Evaluator.Evaluator.CalcChoice` | buildroot/support/kconfig/symbol.c:261-291 | the selection of a choice that is on is the user's visible pick, or the default selection; it stays set by the user exactly if it was and no visible member is new |
| `Evaluator.Evaluator.SetAllChoiceValues` | buildroot/support/kconfig/confdata.c:1129-1147 | using up a pending flag of a choice is what lets a symbol become invalid again |
| `Evaluator.Evaluator.CalcValue` | buildroot/support/kconfig/symbol.c:293-440 | sym_calc_value ends on every table; without recursive dependencies it leaves the symbol valid, keeps every valid symbol, and touches nothing ranked above |
| `Evaluator.Evaluator.CalcAll` | buildroot/support/kconfig/symbol.c:293-440 | symbols requested in any order all have their values in the solution |
| `Evaluator.Evaluator.ClearAllValid` | buildroot/support/kconfig/symbol.c:442-452 | a new round starts for the input entered so far, and input is kept |
| `Evaluator.Evaluator.SetTristateValue` | buildroot/support/kconfig/symbol.c:493-527 | for an evaluated symbol, whether others are evaluated or not: which values are accepted, what input is recorded, and that a change of value invalidates every symbol |
| `Evaluator.Evaluator.SetThenCalc` | buildroot/support/kconfig/symbol.c:493-527 | after a value is accepted the recomputed value is that value exactly if it is in the range given by all input entered before, or the lowest value possible; it always is where no input below the symbol is pending; a refused value changes nothing |
| `Evaluator.Evaluator.ChooseThenCalc` | buildroot/support/kconfig/symbol.c:493-527 | after choosing a member its choice selects it exactly if the choice is on for all input entered before and the member is visible then |
| `Evaluator.Evaluator.CalcChoiceMembers` | buildroot/support/kconfig/symbol.c:293-440 | whatever was set before, an evaluated bool choice that is on has exactly one member at y, a visible one, and all members of one that is off are n |
| `PendingInput.SetTwice` | buildroot/support/kconfig/symbol.c:493-527 | two accepted calls after which the second symbol is n: input equal to the current value starts no round, and takes the later value out of range |
| `Settings.SetTakesEffect` | buildroot/support/kconfig/symbol.c:474-527 | in the solution for the new input a symbol outside choices has the value that was accepted |
| `Settings.SetExactly` | buildroot/support/kconfig/symbol.c:474-527 | against the solution for all input entered before, an arbitrary value is taken over exactly if it is in range there or the lowest value possible |
| `Settings.AcceptedIff` | buildroot/support/kconfig/symbol.c:474-491 | the values that are accepted are those that would be taken over while the visibility is above the selects |
| `Settings.SetMemberExactly` | buildroot/support/kconfig/symbol.c:474-527 | of a member that is visible at y in a choice that is on only y is accepted, it becomes the value, and any other leaves the value as it was |
| `Settings.SetChoiceTakesEffect` | buildroot/support/kconfig/symbol.c:474-527 | so has a choice, exactly if the value is not y or a member is visible once the choice is on |
| `Settings.ChoosingTakesEffect` | buildroot/support/kconfig/symbol.c:505-520 | a chosen member is selected exactly if the choice, by its own input and selects, is on and the member is visible then, whatever the choice was before |
| `Settings.ChoosingVisible` | buildroot/support/kconfig/symbol.c:505-520 | in particular choosing a visible member of a choice that is on selects it and turns it on |
| `Settings.ChoosingLeavesNothingNew` | buildroot/support/kconfig/symbol.c:505-520 | afterwards the choice and its members that are visible count as set, with what they were set to unchanged, and no other input changes |
| `Settings.FinalizedIsGuarded` | buildroot/support/kconfig/menu.c:311-335 | with the conditions that menu_finalize stores for them, no prompt of a member is visible while the choice is off |
| `Settings.ExactlyOneMember` | buildroot/support/kconfig/symbol.c:235-440 | for every input a bool choice is on exactly if one visible member is y, and then all others are n |
| `Settings.PickIsVisible` | buildroot/support/kconfig/symbol.c:235-291 | the selection is a visible member, and there is none exactly if no member is visible |
| `Choices.PickDecides` | buildroot/support/kconfig/symbol.c:281-283 | in a choice that is on the user's pick is y if it is visible, and the other members that are visible at y are n |
| `Choices.DefaultDecides` | buildroot/support/kconfig/symbol.c:241-249 | without a visible pick, the symbol of the first default that holds and names a visible member |
| `Choices.FirstVisibleDecides` | buildroot/support/kconfig/symbol.c:251-255 | if there is none, the first visible member |
| `Choices.ChoiceValue` | buildroot/support/kconfig/symbol.c:345-422 | defaults do not turn a choice on; one that is selected is on exactly if a member is visible then |
| `Choices.MemberByItself` | buildroot/support/kconfig/symbol.c:339-383 | members that are visible at m only have their own input, and invisible ones without defaults are n |
| `Recursion.RankedHasNoCycle` | buildroot/support/kconfig/symbol.c:1153-1216 | a dependency graph with a ranking has no cycle |
| `Recursion.Checker.PrintRecursive` | buildroot/support/kconfig/symbol.c:1081-1093 | the search for the repeated symbol on the stack always succeeds, and what is printed from there is a cycle through it |
| `Recursion.Checker.CheckDeps` | buildroot/support/kconfig/symbol.c:1255-1287 | SYMBOL_CHECK marks exactly the stack before and after, an answer is a symbol on the stack, and without reports the symbol and its dependencies are finished |
| `Recursion.CheckAll` | buildroot/support/kconfig/zconf.y:510-515 | a recursive dependency is printed exactly if the graph has a cycle, each printed chain is one, the finishing order is a ranking if there is none, and the error count stays 0 |
| `Recursion.NothingFoundMeansRanked` | buildroot/support/kconfig/symbol.c:1184-1216 | a table in which the search finds nothing is ranked, if range bounds are constants and direct dependencies are followed elsewhere |
| `Recursion.RankedMeansNothingFound` | buildroot/support/kconfig/symbol.c:1184-1216 | a ranked table has no dependency that the search follows the wrong way, whatever selects what: selects count for the selected symbol only |
| `Recursion.CheckTable` | buildroot/support/kconfig/zconf.y:510-515 | run over a table of plain symbols and their selects, the check prints nothing exactly if the table can be ranked, and then every user input has at most one solution |
| `Escaping.EscapeRoundTrip` | buildroot/support/kconfig/symbol.c:915-956 | reading an escaped text up to its closing quote gives the string back, whatever follows |
| `Escaping.EscapeIsInjective` | buildroot/support/kconfig/symbol.c:915-956 | no quoted text is a prefix of another one's |
| `Escaping.EscapeStringValue` | buildroot/support/kconfig/symbol.c:915-956 | the second pass writes the escaped text and fills exactly the size the first pass counted |
| `Escaping.UnescapeInPlace` | buildroot/support/kconfig/confdata.c:154-168 | the loop over the line buffer leaves the unescaped text behind, fails exactly if there is no closing quote, and changes nothing before it |
| `Escaping.ReadString` | buildroot/support/kconfig/confdata.c:154-183 | a text written by sym_escape_string_value is accepted and comes back; text without an opening quote is passed over |
| `Escaping.PythonEscapesAlike` | buildroot/support/scripts/kconfiglib.py:2500-2504 | two replacements one after the other write what the C code writes |
| `Escaping.PythonRoundTrip` | buildroot/support/scripts/kconfiglib.py:304-312 | the two replacements of load_config, in their order, undo it for every string |
| `Defconfig.DefconfigRoundTrip` | buildroot/support/kconfig/confdata.c:661-732 | loading the minimal file into an empty configuration recomputes every value exactly if every symbol is restorable |
| `Defconfig.InputIsLost` | buildroot/support/kconfig/confdata.c:661-732 | a table and an input for which the minimal file does lose a value |
| `Defconfig.BoolIsRestorable` | buildroot/support/kconfig/symbol.c:693-758 | bool symbols, and tristate symbols without modules, always are |
| `Defconfig.SymbolRestored` | buildroot/support/kconfig/symbol.c:693-758 | one omitted or written symbol has its old value under the reduced input exactly if it is restorable |
| `Defconfig.SavedIffNeeded` | buildroot/support/kconfig/confdata.c:661-732 | a symbol is written exactly if it can be changed and would have another value without input |
| `Defconfig.LinesAreNeeded` | buildroot/support/kconfig/confdata.c:661-732 | every symbol of the menus that needs a line has exactly one, and no other has any |
| `Defconfig.LinesInOrder` | buildroot/support/kconfig/confdata.c:661-732 | lines come in the order of the menus |
| `Defconfig.ReadingKeepsBool` | buildroot/support/kconfig/confdata.c:119-175 | no file sets a bool symbol to m |
| `Defconfig.LinesUnderstood` | buildroot/support/kconfig/confdata.c:310-376 | reading the lines back leaves exactly the input they were written for, and none for the other symbols |
| `DefconfigFiles.GetStringDefault` | buildroot/support/kconfig/symbol.c:693-758 | the default text of an evaluated symbol is computed and no valid symbol changes |
| `DefconfigFiles.WriteDefconfig` | buildroot/support/kconfig/confdata.c:661-732 | the file holds one line for exactly the symbols of the menus that can be changed and would have another value without input |
| `DefconfigFiles.ReadSimple` | buildroot/support/kconfig/confdata.c:285-400 | old input is forgotten, the lines are entered in order, and every symbol is invalid |
| `DefconfigFiles.SaveAndRestore` | buildroot/support/kconfig/confdata.c:661-732 | saving, loading and recalculating on one evaluator gives all values back exactly if every symbol is restorable |
| `Menus.FinalizeKeepsOrder` | buildroot/support/kconfig/menu.c:279-422 | nesting and lifting leave the preorder of all entries as it was |
| `Menus.LiftedIsFlat` | buildroot/support/kconfig/menu.c:412-421 | no promptless entry keeps entries below it |
| `Menus.AbsorbedNest` | buildroot/support/kconfig/menu.c:338-368 | the entries that move below another one all nest there, and the first that stays does not |
| `Menus.FinalizeAllSettles` | buildroot/support/kconfig/menu.c:338-370 | afterwards no entry that had a symbol and no entries below it is followed by one that could have moved below it |
| `Menus.MovedEntryHasOpenParent` | buildroot/support/kconfig/menu.c:338-368 | where conditions are definite, an entry that was moved is visible only if its new parent's symbol is on or its prompt is visible |
| `MenuLinks.MenuTree.Lift` | buildroot/support/kconfig/menu.c:372-422 | relinking promptless entries yields the links of the lifted trees, with right parents, and nothing else changes |
| `MenuLinks.MenuTree.AbsorbEntries` | buildroot/support/kconfig/menu.c:338-368 | relinking nested entries yields the links of both remaining lists |
| `MenuLinks.MenuTree.Finalize` | buildroot/support/kconfig/menu.c:279-422 | menu_finalize leaves the links of the finalised trees, parents included, and finalises every entry exactly once in order |
| `MenuLinks.MenuTree.Walk` | buildroot/support/kconfig/confdata.c:786-819 | the walk by list, next and parent ends and visits exactly the preorder |
| `MenuLinks.MenuTree.FinalizeThenWalk` | buildroot/support/kconfig/confdata.c:786-819 | after menu_finalize of the root the walk meets the entries in the order they had before |
| `MenuParents.FinalizeByConditions` | buildroot/support/kconfig/menu.c:279-422 | after menu_finalize of the root, with nesting decided by the conditions, each entry's parent pointer leads to one it was below before, or one that is open whenever the entry is visible, if not at once then past promptless entries |
| `MenuParents.FinalizePlaces` | buildroot/support/kconfig/menu.c:338-422 | nesting and lifting put an entry only below one it was below or nests below, or above such ones that have no prompt |
| `Formulas.HoldsAgrees` | buildroot/support/scripts/kconfiglib.py:1425-1480 | an expression looks only at the symbols that _get_expr_syms finds |
| `Formulas.MakeAndValue` | buildroot/support/scripts/kconfiglib.py:3196-3219 | an AND that _make_and builds has the smaller value of its operands, a missing one counting as y |
| `Formulas.MakeOrValue` | buildroot/support/scripts/kconfiglib.py:3221-3246 | an OR that _make_or builds has the greater value |
| `Kconfiglib.ValueAgrees` | buildroot/support/scripts/kconfiglib.py:1830-1982 | value and write flag of a symbol depend only on its entry, its choice's entry and what the symbol and its siblings read |
| `Kconfiglib.FromScratchSolves` | buildroot/support/scripts/kconfiglib.py:1830-1982 | evaluation from scratch gives every symbol the value its declaration demands |
| `Kconfiglib.SolutionUnique` | buildroot/support/scripts/kconfiglib.py:1830-1982 | and there are no other such values |
| `KconfiglibChoices.VisibleIff` | buildroot/support/scripts/kconfiglib.py:3175-3194 | a symbol is visible exactly if one of its prompts and one of its choice's are, and when it is so at y |
| `KconfiglibChoices.PickDecides` | buildroot/support/scripts/kconfiglib.py:2727-2735 | in a choice in which one symbol is on, it is the user's pick if that is visible at y, and all others are n |
| `KconfiglibChoices.DefaultDecides` | buildroot/support/scripts/kconfiglib.py:2741-2757 | without such a pick, the symbol of the first default that holds, if it is visible |
| `KconfiglibChoices.FirstVisibleDecides` | buildroot/support/scripts/kconfiglib.py:2747-2762 | if none holds or that symbol is invisible, the first visible symbol of the choice, if there is one |
| `KconfiglibChoices.NothingDecides` | buildroot/support/scripts/kconfiglib.py:2727-2738 | in an optional choice nothing but a pick is on; in one that is invisible or not set nothing is on or written |
| `KconfiglibChoices.ManyAtM` | buildroot/support/scripts/kconfiglib.py:1853-1864 | in m mode each visible symbol follows its own entry |
| `KconfiglibChoices.PickTakesEffect` | buildroot/support/scripts/kconfiglib.py:2465-2475 | set_user_value("y") of a symbol of a choice that is visible at y makes it y; each other symbol is n exactly unless the choice is limited to m and that one is visible and has an entry |
| `KconfiglibChoices.MTakesEffect` | buildroot/support/scripts/kconfiglib.py:2465-2475 | set_user_value("m") of a visible tristate symbol of a tristate choice makes it m |
| `KconfiglibChoices.NTakesNothing` | buildroot/support/scripts/kconfiglib.py:2465-2475 | set_user_value("n") leaves all values of a choice in which one symbol is on as they were |
| `KconfiglibChoices.UnsetGivesDefault` | buildroot/support/scripts/kconfiglib.py:2477-2482 | taking an entry back lets the defaults of a bool choice decide again |
| `KconfiglibChoices.Choose` | buildroot/support/scripts/kconfiglib.py:1984-2016 | set_user_value("y") and get_value on a live configuration |
| `KconfiglibValues.EntryIsTaken` | buildroot/support/scripts/kconfiglib.py:1919-1945 | an int or hex entry is the value, as it was entered, if the symbol is visible and the number is in the first range that holds |
| `KconfiglibValues.NumericDefaultDecides` | buildroot/support/scripts/kconfiglib.py:1947-1973 | otherwise the first default that holds and is a number, moved to the nearer bound if it is out of range |
| `KconfiglibValues.NoNumericDefault` | buildroot/support/scripts/kconfiglib.py:1947-1979 | without one, the low end of the range if it is positive, else the text of the last default that holds |
| `KconfiglibValues.NumberIsInRange` | buildroot/support/scripts/kconfiglib.py:1911-1979 | a number that is the value is in the first range that holds, unless that is empty |
| `KconfiglibValues.PlainWrittenIff` | buildroot/support/scripts/kconfiglib.py:1866-1979 | symbols outside choices are written exactly if they are visible, have a default that holds, or are selected |
| `KconfiglibValues.MemberWrittenIff` | buildroot/support/scripts/kconfiglib.py:1853-1857 | symbols of choices exactly if they are visible and the choice is set |
| `Invalidation.DependentsClosed` | buildroot/support/scripts/kconfiglib.py:2513-2541 | a symbol with its dependent symbols holds whatever reads one of them and all siblings |
| `Invalidation.DependentsLeast` | buildroot/support/scripts/kconfiglib.py:2513-2541 | and it is the least such set, so nothing is dropped without need |
| `Invalidation.TrackedIsWatched` | buildroot/support/scripts/kconfiglib.py:1508-1549 | if an actual symbol reads whatever makes the defaults of its choice visible, such a set holds every choice whose defaults it can make visible |
| `Invalidation.MemberDefaultsTracked` | buildroot/support/scripts/kconfiglib.py:2741-2762 | defaults that name actual symbols are of that kind |
| `Invalidation.Unaffected` | buildroot/support/scripts/kconfiglib.py:2401-2414 | symbols outside such a set keep value, write flag and visibility when entries change only inside |
| `Invalidation.UnaffectedChoice` | buildroot/support/scripts/kconfiglib.py:2975-2982 | choices without a symbol in it keep visibility and selection, if what makes their defaults visible is outside too |
| `KconfiglibCache.CoherenceKept` | buildroot/support/scripts/kconfiglib.py:2401-2414 | dropping the caches of a set of symbols keeps all caches right under changed entries if nothing changes outside the set |
| `KconfiglibCache.Undisturbed` | buildroot/support/scripts/kconfiglib.py:2401-2414 | nothing changes outside a set that holds the changed symbol and its dependents, if the defaults of choices are visible by what is outside, and if MODULES keeps its value or no evaluation outside meets an m |
| `KconfiglibCache.CoherenceExact` | buildroot/support/scripts/kconfiglib.py:2401-2414 | when everything was cached, the caches are right afterwards exactly if no value, visibility or selection outside the dropped set differs |
| `KconfiglibCache.Config.BuildDep` | buildroot/support/scripts/kconfiglib.py:1508-1549 | dep holds for each symbol exactly the symbols that read it or whose choice does |
| `KconfiglibCache.Config.GetDependent` | buildroot/support/scripts/kconfiglib.py:2513-2541 | the memoised traversal returns exactly the dependent symbols |
| `KconfiglibCache.Config.HasModules` | buildroot/support/scripts/kconfiglib.py:1500-1502 | every evaluation that meets an m asks for the value of MODULES, and gets what evaluation from scratch gives |
| `KconfiglibCache.Config.EvalExpr2` | buildroot/support/scripts/kconfiglib.py:1425-1480 | evaluation with early exits gives the minimum, maximum or complement of all terms |
| `KconfiglibCache.Config.GetVisibility` | buildroot/support/scripts/kconfiglib.py:3175-3194 | the cached visibility is that of evaluation from scratch |
| `KconfiglibCache.Config.GetSelection` | buildroot/support/scripts/kconfiglib.py:2720-2762 | so is the cached selection of a choice, none included |
| `KconfiglibCache.Config.GetValue` | buildroot/support/scripts/kconfiglib.py:1830-1982 | get_value returns and caches the value of evaluation from scratch, with all caches still right |
| `KconfiglibCache.Config.SetUserValue` | buildroot/support/scripts/kconfiglib.py:1984-2016 | an assignment records the entry if it is valid for the type, updates the choice, and drops the symbol and its dependents; what that takes for every cached item to stay right, and the exact condition when everything was cached; set_user_value of MODULES itself always keeps them right |
| `KconfiglibCache.Config.UnsetUserValue` | buildroot/support/scripts/kconfiglib.py:2018-2023 | the same for taking an entry back, of MODULES as of any other symbol |
| `KconfiglibCache.Config.LoadConfig` | buildroot/support/scripts/kconfiglib.py:229-348 | the entries of a file are made in order, on top of the old ones or of none, with all caches right |
| `KconfiglibRuns.Run` | buildroot/support/scripts/kconfiglib.py:1984-2023 | over every run of set_user_value, unset_user_value and get_value that leaves MODULES to set_user_value of MODULES itself, each answer is the value from scratch at that moment |
| `KconfiglibRuns.ModulesKept` | buildroot/support/scripts/kconfiglib.py:1500-1502 | an assignment to a symbol that MODULES does not depend on leaves _has_modules as it is |
| `ModulesSymbol.CalmValue` | buildroot/support/scripts/kconfiglib.py:1411-1423 | a symbol whose evaluation meets no m has the same value and visibility with modules on and off |
| `ModulesSymbol.ConeAgrees` | buildroot/support/scripts/kconfiglib.py:1500-1502 | the value of MODULES, and of all it is computed from, is the same with modules on and off |
| `ModulesSymbol.LiveFits` | buildroot/support/scripts/kconfiglib.py:1500-1502 | exactly one answer of _has_modules fits the values it leads to |
| `StaleCaches.ModulesAreNotTracked` | buildroot/support/scripts/kconfiglib.py:2018-2023 | unset_user_value of MODULES leaves a cached m behind where the value from scratch is y |
| `StaleCaches.OutsidersAreNotTracked` | buildroot/support/scripts/kconfiglib.py:2741-2762 | with a choice default outside the choice, set_user_value leaves a cached n behind where the value from scratch is y |
| `ConfigText.GetLines` | buildroot/support/scripts/kconfiglib.py:3393-3405 | the loop over an open file returns its lines, a line that ends in a backslash joined with the next |
| `ConfigText.BackslashJoins` | buildroot/support/scripts/kconfiglib.py:3393-3405 | a line that ends in a backslash is read together with the next one, without the backslash |
| `ConfigText.BackslashLoses` | buildroot/support/scripts/kconfiglib.py:3393-3405 | at the end of a file it is lost |
| `ConfigText.QuotesAreTakenOff` | buildroot/support/scripts/kconfiglib.py:304-312 | double and single quotes are taken off and must be closed |
| `ConfigText.UnsetMatchesPrefix` | buildroot/support/scripts/kconfiglib.py:338-348 | what follows "is not set" is ignored |
| `ConfigText.LinesAppend` | buildroot/support/scripts/kconfiglib.py:3393-3405 | a text that ends its last line separates what follows it: the lines of both are read on their own |
| `ConfigText.TextsUnbroken` | buildroot/support/scripts/kconfiglib.py:297-348 | no text that load_config assigns holds a line break, whatever the file says |
| `ConfigText.HeaderSaysNothing` | buildroot/support/scripts/kconfiglib.py:257-270 | a line that is taken into the header would assign nothing |
| `KconfiglibLines.ReadFile` | buildroot/support/scripts/kconfiglib.py:252-348 | load_config finds the assignments of the file in order, up to the first malformed string |
| `KconfiglibLines.FileRead` | buildroot/support/scripts/kconfiglib.py:376-382 | a written file is read string by string, if each ends its last line |
| `KconfiglibLines.SetBlock` | buildroot/support/scripts/kconfiglib.py:300-312 | the line of a symbol is read as one assignment of what is before a line break, without white space at the end and with quotes and escapes removed, or is malformed; what follows the line break in a number says nothing |
| `KconfiglibLines.TitleIsRead` | buildroot/support/scripts/kconfiglib.py:3068-3073 | the title of a comment or menu can read like a symbol that is not set, and is then read as an assignment |
| `KconfiglibFiles.SymbolBack` | buildroot/support/scripts/kconfiglib.py:2484-2511 | one symbol whose string holds no line break gets its value back from its own line, or from having none, exactly if it survives |
| `KconfiglibFiles.WrittenOnce` | buildroot/support/scripts/kconfiglib.py:2484-2511 | every symbol that is listed and has write_to_conf set has exactly one line, and no other has any |
| `KconfiglibFiles.TitleWrittenIff` | buildroot/support/scripts/kconfiglib.py:2687-2692 | a title is written exactly if its menu or comment is listed and none of its conditions is n |
| `KconfiglibFiles.WrittenInOrder` | buildroot/support/scripts/kconfiglib.py:3285-3294 | lines come in the order of the items |
| `KconfiglibRoundTrip.TextIsTraced` | buildroot/support/scripts/kconfiglib.py:1830-1982 | a text that is the value of a symbol holds no line break, unless it is that of a number, or a string that could be entered holds one |
| `KconfiglibRoundTrip.BrokenIsLost` | buildroot/support/scripts/kconfiglib.py:229-382 | a string that could be entered and holds a line break does not come back, whatever its parts are read as |
| `KconfiglibRoundTrip.WriteLoadRoundTrip` | buildroot/support/scripts/kconfiglib.py:229-382 | the text that write_config writes can be loaded exactly if every line can be read, and loading it reproduces every value exactly if every symbol survives; bool symbols and strings without a line break do |
| `LostValues.StringIsLost` | buildroot/support/scripts/kconfiglib.py:2447-2511 | a string with a line break is accepted, and the file cannot be loaded |
| `LostValues.NumberIsLost` | buildroot/support/scripts/kconfiglib.py:2447-2511 | a number behind a line break is accepted, and the file is loaded without it |
| `LostValues.DefaultIsLost` | buildroot/support/scripts/kconfiglib.py:229-382 | a tristate symbol whose default is lowered to its visibility |
| `ConfigFiles.WriteConfig` | buildroot/support/scripts/kconfiglib.py:350-382 | the text holds a line for exactly the symbols with write_to_conf set, once each, and the titles of the menus and comments that are shown |
| `ConfigFiles.SaveAndLoad` | buildroot/support/scripts/kconfiglib.py:229-382 | on a live configuration the text can be loaded exactly if every line can be read, and the values are the same exactly if every symbol survives |
| `Agreement.FormulasAgree` | buildroot/support/scripts/kconfiglib.py:1425-1480 | an n-ary expression and its binary tree have the same value on both sides |
| `Agreement.SolvesIsSolution` | buildroot/support/scripts/kconfiglib.py:1850-1982 | the values of kconfiglib.py are a solution of the table that the C code evaluates |
| `Agreement.EvaluatorsAgree` | buildroot/support/kconfig/symbol.c:339-440 | the recursive evaluations of both programs give every bool, tristate and string symbol the same value |
| `Agreement.StringDefaultsDiffer` | buildroot/support/kconfig/symbol.c:385-405 | where a string default names a bool or tristate symbol they agree exactly if that symbol is n |
| `Parsing.Feed.ParseExpr` | buildroot/support/scripts/kconfiglib.py:821-833 | the recursive descent over the feed reads exactly what the grammar reads, and stops where it stops |
| `Parsing.PrintParseRoundTrip` | buildroot/support/scripts/kconfiglib.py:3301-3354 | parsing a printed expression gives it back with nested lists of the same operator flattened |
| `Grammar.ParsesIffDerived` | buildroot/support/scripts/kconfiglib.py:821-885 | the parser accepts a text with a result exactly if the grammar of names, relations, !, && and || with parentheses derives it |
| `Grammar.ParsesAPrefix` | buildroot/support/scripts/kconfiglib.py:821-885 | what it reads in front of other tokens is derived by the grammar |
| `Parsing.FlatKeepsValue` | buildroot/support/scripts/kconfiglib.py:1425-1480 | flattening keeps the value under all symbol values |
| `Parsing.PrintedAlikeIffFlatAlike` | buildroot/support/scripts/kconfiglib.py:3301-3354 | two expressions print alike exactly if they differ only in nesting |
| `Crc.TableIsDivision` | buildroot/package/mkpimage/mkpimage.c:87-131 | each of the 256 entries is its index divided through eight steps |
| `Crc.ComputeCrc32` | buildroot/package/mkpimage/mkpimage.c:133-141 | the loop computes Crc32 of the first bytes of the buffer |
| `Crc.CrcIsDivision` | buildroot/package/mkpimage/mkpimage.c:133-141 | Crc32 is the remainder of the division bit by bit, for every message and start value |
| `Crc.CrcAppend` | buildroot/package/mkpimage/mkpimage.c:133-141 | the CRC of a concatenation continues the CRC of the first part |
| `Crc.CrcIsInjective` | buildroot/package/mkpimage/mkpimage.c:133-141 | different registers stay different over the same message |
| `Crc.BurstIsDetected` | buildroot/package/mkpimage/mkpimage.c:133-141 | messages of equal length that differ only within four consecutive bytes never share a CRC |
| `Images.AddSocfpgaHeader` | buildroot/package/mkpimage/mkpimage.c:143-181 | header, checksum and CRC are stored in place, or nothing if the size is no multiple of four |
| `Images.WithHeaderIsValid` | buildroot/package/mkpimage/mkpimage.c:143-181 | the result passes a loader's checks and differs only in header and CRC |
| `Images.HeaderFields` | buildroot/package/mkpimage/mkpimage.c:143-176 | the header holds the validation word, zero version, flags and spare bytes, the length in words and the sum of its first ten bytes, low bytes first |
| `Images.DamageIsNoticed` | buildroot/package/mkpimage/mkpimage.c:143-181 | damage to at most four consecutive bytes before the CRC makes an image invalid |
| `Images.ImageSizeFits` | buildroot/package/mkpimage/mkpimage.c:188-270 | every accepted input leads to whole words, at most 60 KiB, a length field that is not truncated, and room for header and CRC |
| `Images.AcceptedIff` | buildroot/package/mkpimage/mkpimage.c:188-235 | an input is accepted exactly if its image fits in 60 KiB and, without option -b, it has at least 80 bytes |
| `Images.MakeImage` | buildroot/package/mkpimage/mkpimage.c:188-287 | which inputs are refused, and what the output is for the others |
| `Images.ImageHoldsInput` | buildroot/package/mkpimage/mkpimage.c:188-287 | the output is valid and holds the input unchanged, but for the place of the header when there is no barebox header in front |
| `Images.ImageIsFilled` | buildroot/package/mkpimage/mkpimage.c:238-262 | between the input and the CRC there are zeros, and in front the barebox header but for the place of the other one |

## Left out

- User interfaces, prompting, regular expression search, randconfig, split configuration and header files, warnings and message texts.
- File names, the environment and the writing of whole files. On the C side a file is a sequence of lines; that lines are told apart by line breaks, names and the `CONFIG_` prefix is part of the model of kconfiglib.py only.
- The grammar and lexer of Kconfig files: tables and trees are given.
- Allocation and release of expressions, and their rewriting in place: expressions are values, and the passes of expr.c return new ones. Sharing of nodes between expressions is not captured.
- E_LIST and E_RANGE nodes inside expressions; lists of choice members and ranges are fields of a declaration.
- expr_simplify_unmet_dep and expr_compare_type: diagnostics and printing.
- SYMBOL_CHANGED and the change counters.
- Symbol and menu structures as separate objects: their fields are records in a sequence that one object owns, so aliasing between objects is by number.
- The modules symbol of the C code as a symbol: whether modules are on is a constant of a table. In kconfiglib MODULES is a symbol; a hypothesis is that MODULES and what it is computed from are no tristate symbols and mention no m, since get_value would call itself forever on meeting one.
- Evaluator.Evaluator.SetTristateValue: the symbol must have been evaluated, and when a member is chosen its choice and the visible members too, as the interfaces do before they offer a value.
- Evaluator.Evaluator.CalcValue: on tables with recursive dependencies, and while conf_set_all_new_symbols has left flags on choices, only termination and well-formedness are stated, since the values depend on the order of evaluation.
- Settings.ExactlyOneMember: members without defaults of their own, and choice defaults that name members, as the program warns otherwise.
- Equality.ExprEqComplete: flat trees of symbols and negated symbols other than constants; on nested or mixed trees expr_eq is only sound.
- Recursion.CheckAll: trees without choices; sym_check_choice_deps is not part of this model.
- Recursion.NothingFoundMeansRanked: the search does not follow range bounds and direct dependencies, so these need not be ranked.
- Defconfig.DefconfigRoundTrip: choices, and int and hex symbols, whose default text ignores the range.
- DefconfigFiles.WriteDefconfig: clearing SYMBOL_WRITE of a written symbol is a set of written symbols, and the recalculation of the visibility before the default is looked up is not repeated.
- DefconfigFiles.ReadSimple: unknown names and malformed lines are not part of a file here; what cannot be understood for a type changes nothing.
- MenuLinks.MenuTree.Finalize: dependencies are propagated without changing links, so whether one entry nests below another is a fact given beforehand; `Menus.FactsOf` derives it from conditions, and `MenuParents.FinalizeByConditions` takes it from there. Adding choice members to a choice and types to choice values changes no link.
- Nesting.TransCompareCorrect: where it does not apply, `Nesting.TransCompareUnderNot` and `Nesting.TransCompareOfText` say when the comparison is right.
- Nesting.NestedEntryHasOpenParent: conditions in which nothing that is mod is negated and no string or number stands for a condition.
- MenuParents.FinalizeByConditions: conditions as they are after propagation, in which nothing that is mod is negated and no string or number stands for a condition.
- Menus.MovedEntryHasOpenParent: conditions in which nothing that is mod is negated, as in every two-valued assignment, and no string or number stands for a condition.
- KconfiglibCache.Config.SetUserValue: symbols are not recursively dependent, special symbols have no prompt, and every choice has an actual symbol and only symbols as defaults.
- Kconfiglib.FromScratchSolves: int, str, hex, str.isspace, the word characters of re and the line ends of open are parameters; what is needed of them is stated where it is needed.
- KconfiglibRoundTrip.WriteLoadRoundTrip: configurations without choices, and Kconfig files whose constants, titles and defaults of numbers are as said above.
- KconfiglibFiles.SymbolBack: symbols of choices, and strings with a line break, for which `KconfiglibRoundTrip.BrokenIsLost` answers.
- KconfiglibLines.ReadFile: warnings, the text of the header, and encodings.
- ConfigFiles.WriteConfig: the optional header comment; menus are listed with the items below them behind them.
- Parsing.Feed.ParseExpr: the rewriting of m to m AND MODULES, and relations whose second operand is no name, which the parser accepts without a check and the model refuses.
- Agreement.EvaluatorsAgree: choices, numbers and special text symbols such as those from the environment; the two programs treat entries outside a range differently.
- Agreement.SolvesIsSolution: the same symbols.
- Images.AddSocfpgaHeader: the trailing word is stored as a little-endian machine stores it.
- Images.MakeImage: option parsing and file access; an input is a sequence of bytes.
- makedevs, mkpasswd, the toolchain wrapper, Makefiles and the configuration data of packages.
