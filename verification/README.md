# A verified model of the configuration engine and its companion tools

The core is the Kconfig engine of `package/config`: tristate expressions (n < m < y) and their
in-place simplifiers, the memoised evaluation of symbols, the check for dependency cycles, choices,
and the menu tree that `menu_finalize` rearranges and `conf_write` walks without a stack. Around it stand
the key-value store `kdb` (escaping, file format, wildcards, numbered lists), the CRC code shared by the flash
tools, and the streaming flash writer `mtd`.

Every theorem is about all inputs: all expressions and well-typed assignments, all symbol
tables in which no symbol needs its own value, all menu forests, all byte strings, all ways a read may deliver its data. Where the code does not do what its
documentation or its purpose suggests, the model keeps the code, shows an input where it fails, and
states when it does not:

- `expr_eliminate_dups` keeps the value of an expression unless that value is m
  (`ExprDupsLoop.EliminateDupsClamps`), and that too if its second pass never finds a contradiction
  (`ExprDupsLoop.EliminateDupsExact`), as with a single connective (`ExprDupsLoop.UnmixedNeverContradicts`); its
  contradiction rule is exact precisely where the spine is not m (`ExprDupsLoop.ContradictionExactIff`), and `ExprDupsExample.EliminateDupsNotExact` is an assignment in which it is not.
- `expr_trans_compare` computes the two-valued reading of an expression exactly
  (`ExprVisibility.TransCompareShadow`). For a symbol that agrees with "is not n" if and only if comparing it with n by
  name tells whether it is n, which fails for an undefined symbol, and for a negated symbol if and only if it is named n
  exactly when it is not y, which also fails for one that is m (`ExprVisibility.ShadowExactIff`,
  `AdoptionExample.CalculatedReads`). The adoption test of `menu_finalize` is sound wherever the parent's condition is not
  overstated and the child's not understated by that (`ExprVisibility.AdoptionSound`); for two families of entries it is
  sound if and only if so (`AdoptionExample.NegationDecides`, `AdoptionExample.NameDecides`), with a negated m
  (`AdoptionExample.AdoptionNotSound`) and an undefined symbol (`AdoptionExample.UndefinedNotSound`) as inputs where it
  is not.
- `expr_trans_bool` keeps the visibility of an expression in normal form (`ExprTransform.TransBoolVisibility`); of a
  negated comparison, which is not normal, it does so if and only if the symbol is not m (`ExprTransform.TransBoolNegated`).
- `str_escape` lets the case of BEL run into the one of BS, so exactly the strings without BEL survive
  (`KdbCodec.RoundTripIff`), and likewise exactly the databases without BEL (`KdbFile.FileRoundTripIff`).
- `match_wildcard` implements the language documented above it for a pattern if and only if no unquoted star is followed by
  a star or by a quoted byte other than a backslash (`KdbWildcard.WildcardExactIff`).
- `sym_check_deps` does not see that a choice needs the visibility of its members. A table can be calculated if and only
  if it finds no cycle and none of those additional dependencies leads back (`SymbolChoice.OrderedIff`). In
  `ChoiceExample.Crossed` it finds none, but whether a member is y depends on what is calculated first
  (`ChoiceExample.ChoiceFirst`, `ChoiceExample.SecondFirst`).
- `sym_set_tristate_value` accepts exactly what a recalculation reads back, with two exceptions. A choice without a
  visible member does not keep y, nor n if its select bound is m (`SymbolReadBack.ChoiceReadBack`;
  `SettingExample.YesLost`, `SettingExample.NoLost`). And a hidden member that its own default makes y can be set to y,
  which may silently cost its choice the member the user has picked (`SettingExample.PickLost`). These are precisely
  the cases in which leaving out the recalculation leaves wrong values behind (`SymbolReadBack.KeptIff`).
- `image_check_bcom` tests the header of the payload if its second read delivers eight bytes (`Mtd.AcceptedHeader`), but
  otherwise accepts some headers with bytes of the prefix in place of the length (`Mtd.AcceptedShort`,
  `Mtd.ShortReadAccepts`).
- The string values of a configuration file survive if and only if they contain no newline
  (`ConfStrings.ConfRoundTripIff`).

## How the model is laid out

| files | part of the repository |
|---|---|
| `Expressions`, `ExprEquality`, `ExprTransform`, `ExprJoin`, `ExprPaths`, `ExprDups`, `ExprDupsLoop`, `ExprSettled`, `ExprDupsExample` | the simplifiers of `package/config/expr.c` as functions on trees, and what they preserve |
| `ExprSlots` | the slot-passing simplifiers run in place on a store of trees with the counter `trans_count`, proved equal to those functions |
| `ExprVisibility`, `AdoptionExample` | how `menu_finalize` combines the simplifiers |
| `Graphs`, `SymbolGraph`, `DepCheck` | graphs, dependencies between symbols, and the cycle check as a class with its flags |
| `SymbolValues`, `SymbolChoice` | the recursive meaning of a symbol's value, choices and their members |
| `SymbolSetting`, `SymbolReadBack`, `SettingExample` | setting a value, and what it affects |
| `SymbolEval` | the evaluator with its caches |
| `SymbolRun`, `ChoiceExample` | the evaluator on any table, and a choice whose values depend on the order |
| `ChoiceBound` | why what `menu_finalize` makes of a member's prompts is what the evaluator needs |
| `MenuForest`, `MenuShape`, `MenuTree` | menu entries linked by `next`, `list` and `parent`, the forests they stand for, `menu_finalize` with the one result it can have, and the walk |
| `CStrings`, `ConfStrings` | C strings, and string values in the configuration file |
| `KdbCodec`, `KdbWildcard`, `KdbRecords`, `KdbFile`, `KdbStore`, `KdbLists` | `package/webface/kdb.c` |
| `Crc`, `Mtd` | CRC-16 and the flash writer |

A slot `struct expr **` is modelled as a path into a tree held by a variable; two slots of
`expr_eliminate_dups1` and `_dups2` point into the same tree, as in the code. Expression trees are unshared, so a tree is
its shape. Boolean symbols are never m, the string value of a boolean or tristate symbol names its tristate value, and distinct constants
have distinct names (`Expressions.WellTyped`); `SymbolValues.EnvWellTyped` proves that the evaluator's own results are
such an assignment.

## Model

| member | source | states |
|---|---|---|
| Expressions.EliminateYnValue | package/config/expr.c:235-319 | removing the constants y and n keeps the value in every assignment |
| Expressions.EliminateYnClean | package/config/expr.c:235-319 | the result is y, n, or an expression in which neither occurs |
| Expressions.EliminateYnShrinks | package/config/expr.c:235-319 | with a constant in an AND/OR tree the result has fewer leaves |
| ExprEquality.EliminateEqSpineSplits | package/config/expr.c:135-166 | there is one common part that, combined with what is left of either argument, gives the old value of that argument in all assignments |
| ExprEquality.EliminateEqMonotone | package/config/expr.c:168-191 | if the first remainder implies the second, then the first argument implied the second |
| ExprEquality.ExprEqSound | package/config/expr.c:193-233 | expressions found equal have the same value in all assignments, although equality is decided by mutual elimination |
| ExprEquality.ExtractEqMoves | package/config/expr.c:830-879 | what is moved into the accumulator, combined with what is left in either slot, has the value of the accumulator and that slot before |
| ExprTransform.TransformValue | package/config/expr.c:640-775 | the transformation keeps the value in every well-typed assignment |
| ExprTransform.TransformNormal | package/config/expr.c:640-775 | afterwards NOT stands only above non-constant symbols and no boolean symbol is compared with a constant tristate |
| ExprTransform.TransformFixpoint | package/config/expr.c:640-775 | an expression is unchanged if and only if it is in that normal form |
| ExprTransform.TransformIdempotent | package/config/expr.c:640-775 | transforming twice is transforming once |
| ExprTransform.TransBoolVisibility | package/config/expr.c:321-345 | in normal form the boolean reading is kept: m counting as y, before and after |
| ExprTransform.TransBoolNegated | package/config/expr.c:321-345 | for a negated comparison with n this holds if and only if the symbol is not m |
| ExprJoin.JoinValue | package/config/expr.c:350-506 | whenever two operands are joined, the joined expression has the value of their AND or OR |
| ExprJoin.JoinLeaves | package/config/expr.c:350-506 | joining removes a leaf |
| ExprJoin.JoinTidy | package/config/expr.c:350-506 | joining normal, typed operands gives a normal, typed expression |
| ExprDupsLoop.Dups1Value | package/config/expr.c:508-558 | the first pass over two slots into one spine, possibly the same slot, keeps the value for all three values |
| ExprDupsLoop.Dups1Honest | package/config/expr.c:508-558 | the pass either counts nothing and changes nothing, or leaves a constant behind for the clean-up |
| ExprDupsLoop.Dups2Honest | package/config/expr.c:560-614 | the same for the second pass |
| ExprDupsLoop.ContradictsValue | package/config/expr.c:578-606 | the test of the second pass succeeds only if its operands exclude each other, as a bound over the three values |
| ExprDupsLoop.ContradictionExactIff | package/config/expr.c:578-606 | replacing the operand then keeps the value of the spine in exactly the assignments where that value is not m |
| ExprDupsLoop.Dups2Clamps | package/config/expr.c:560-614 | the whole second pass keeps every value other than m |
| ExprDupsLoop.RoundShrinks | package/config/expr.c:616-638 | a round that counted something leaves a smaller tree, so the loop ends |
| ExprDupsLoop.EliminateDupsClamps | package/config/expr.c:616-638 | the loop keeps the value of every expression in every assignment in which that value is not m |
| ExprDupsLoop.EliminateDupsExact | package/config/expr.c:616-638 | it keeps all three values of an expression if the second pass counts nothing in any round |
| ExprDupsLoop.UnmixedNeverContradicts | package/config/expr.c:560-638 | which is so for every expression with only one connective |
| ExprDupsExample.EliminateDupsNotExact | package/config/expr.c:578-606 | (FOO \|\| BAR) && !FOO && !BAR with FOO = m and BAR = n has the value m and becomes n |
| ExprSettled.RoundSettled | package/config/expr.c:508-614 | a round counts nothing if and only if, at every depth, no two operands of a spine can be joined and none contradicts another part of its spine |
| ExprSettled.EliminateDupsSettled | package/config/expr.c:616-638 | the result is settled in that sense, and an expression is unchanged if and only if it is settled |
| ExprSlots.Store.EliminateEqSpine | package/config/expr.c:135-166 | run in place through two slots, writes exactly the two remainders and adds exactly their count to the counter |
| ExprSlots.Store.EliminateEq | package/config/expr.c:168-191 | the same for both spine kinds and the clean-up of constants |
| ExprSlots.Store.ExprEq | package/config/expr.c:193-233 | decides equality on copies, and leaves the trees and the counter as they were |
| ExprSlots.Store.ExtractEq | package/config/expr.c:830-879 | run in place, writes both remainders and returns the accumulator |
| ExprSlots.Store.Contradicts | package/config/expr.c:578-606 | the test on local copies, without trace in the trees or the counter |
| ExprSlots.Store.EliminateDups1 | package/config/expr.c:508-558 | run in place with both slots in one tree, computes the specified tree and count |
| ExprSlots.Store.EliminateDups2 | package/config/expr.c:560-614 | the same for the second pass |
| ExprSlots.Store.EliminateDups | package/config/expr.c:616-638 | the loop ends, computes the specified result and restores the counter |
| ExprVisibility.EliminateDupsTidy | package/config/expr.c:616-638 | removing duplicates keeps normal, typed expressions normal and typed |
| ExprVisibility.PropertyVisibilityTidy | package/config/menu.c:226-242 | conditions computed by `menu_finalize` are normal and typed |
| ExprVisibility.PropertyVisibilityValue | package/config/menu.c:226-242 | wherever it is not m, the condition of a property is the AND of the entry's and its own, in the boolean reading for symbols that are not tristate |
| ExprVisibility.TransCompareShadow | package/config/expr.c:881-940 | for every expression and assignment, compares the two-valued reading of the expression with y or n, exactly |
| ExprVisibility.ShadowExact | package/config/expr.c:881-940 | that reading is "is not n" wherever no negated part is m and every bare symbol is named n exactly if it is n |
| ExprVisibility.ShadowExactIff | package/config/expr.c:911-936 | for a symbol of any type it is so if and only if that condition on its name holds, for a negated one if and only if it is named n exactly when it is not y, that is, is not m if it is boolean or tristate |
| ExprVisibility.ShadowBelow | package/config/expr.c:881-940 | in normal form the reading claims no more than "is not n" unless a symbol is n but not named n, or a negated one is y and named n |
| ExprVisibility.ShadowAbove | package/config/expr.c:881-940 | and no less unless a symbol is named n but not n, or a negated one is not y and not named n |
| ExprVisibility.TypedStated | package/config/expr.c:881-940 | with boolean and tristate symbols only, this leaves a negated m |
| ExprVisibility.DependsOnSymbolSound | package/config/expr.c:801-828 | an expression that depends on a symbol is n wherever the symbol is not set |
| ExprVisibility.VisibleValue | package/config/menu.c:253-264 | the simplified "is not n" of a condition has exactly the value of its two-valued reading |
| ExprVisibility.AdoptionShadow | package/config/menu.c:252-277 | if the test reduces the parent's condition to y, the child's two-valued reading implies the parent's |
| ExprVisibility.AdoptionSound | package/config/menu.c:252-277 | an adopted entry that is not n has a parent that is not n, in every assignment in which its condition is not understated nor the parent's overstated |
| ExprVisibility.TypedAdoptionSound | package/config/menu.c:252-277 | with boolean and tristate symbols, in every assignment without a negated m in the entry's condition |
| AdoptionExample.NegationDecides | package/config/menu.c:252-277 | the entry !BAR && !FOO is adopted by the entry FOO with BAR=n, for any BAR that is not boolean, and soundly so with FOO = n if and only if its condition is not understated |
| AdoptionExample.NameDecides | package/config/menu.c:252-277 | the entry BAR!=n && !FOO is adopted by the entry FOO with BAR, and soundly so with FOO = n if and only if the parent's condition is not overstated |
| AdoptionExample.AdoptionNotSound | package/config/menu.c:252-277 | with BAR = m and FOO = n, the entry with !BAR && !FOO is shown although the entry FOO that adopted it, with BAR=n, is not |
| AdoptionExample.CalculatedReads | package/config/symbol.c:205-311 | in a calculated state a symbol that is neither boolean nor tristate is misread, negated or not, unless it is named n |
| AdoptionExample.UndefinedNotSound | package/config/menu.c:252-277 | with an undefined symbol the second entry is shown in such a state although its parent is not, and nothing is m |
| Graphs.HeightDecreases | package/config/symbol.c:205-311 | below a symbol from which no cycle can be reached, every dependency has a smaller height |
| SymbolChoice.OrderedIff | package/config/symbol.c:654-718 | no symbol needs its own value if and only if the edges of the dependency check have no cycle and no additional dependency of a choice or member leads back |
| SymbolChoice.OrderedWithoutChoices | package/config/symbol.c:654-718 | without choices, if and only if the edges of the dependency check have no cycle |
| Graphs.AcyclicMoreEdges | package/config/symbol.c:654-718 | more edges leave a finite graph without cycle if and only if none of them closes one |
| ChoiceExample.CycleUnseen | package/config/symbol.c:692-708 | a choice of two members of which the first needs the second passes the dependency check, although it needs its own value |
| ChoiceExample.ChoiceFirst | package/config/symbol.c:166-310 | calculated first, that choice is y and holds the second member, which is n |
| ChoiceExample.SecondFirst | package/config/symbol.c:166-310 | when the second member is calculated first, it is y |
| Graphs.AcyclicFromTable | package/config/symbol.c:654-718 | if no symbol of the table reaches a cycle, the table has no cycle |
| Graphs.AcyclicNoCycle | package/config/symbol.c:654-718 | in an acyclic table no symbol leads to itself |
| DepCheck.Checker.CheckExprDeps | package/config/symbol.c:654-682 | returns a symbol on a reachable cycle, or nothing, and then no cycle is reachable from the expression; flags are as before |
| DepCheck.Checker.CheckDeps | package/config/symbol.c:684-718 | the same for the edges of a symbol, on every finite table, with the flag of the symbol cleared again |
| DepCheck.Checker.CheckOne | package/config/symbol.c:684-718 | from cleared flags, returns a symbol if and only if a cycle is reachable, and that symbol lies on a reachable cycle |
| DepCheck.Checker.CheckAll | package/config/zconf.y:495-500 | over all symbols with the flags kept between calls, something is reported if and only if the table has a cycle |
| SymbolValues.EnvWellTyped | package/config/symbol.c:205-311 | the calculated values form a well-typed assignment |
| SymbolValues.ExprValueIsEval | package/config/expr.c:942-981 | the value of an expression over calculated symbols is its meaning in that assignment |
| SymbolValues.TriValueBounds | package/config/symbol.c:243-268 | at least the select bound, at most the larger of visibility and select bound when that is not n, never m for a boolean type; only a choice that is y without a visible member is reset |
| SymbolChoice.PickIs | package/config/symbol.c:166-203 | a choice takes the user's member if it is visible, else that of the first default that applies, else the first visible one |
| SymbolChoice.PickUnique | package/config/symbol.c:166-203 | this order determines the member |
| SymbolChoice.PickShown | package/config/symbol.c:166-203 | the member taken is visible, and missing only if none is |
| SymbolChoice.MemberBelowChoice | package/config/symbol.c:136-164 | a member is visible at most as far as its choice is set |
| ChoiceBound.MemberPromptBound | package/config/menu.c:219-242 | whatever its conditions, what is stored for an entry and its prompt below a choice stays a conjunction with the choice (or with choice=y, or n) through all simplifications |
| ChoiceBound.ChoiceEntryBound | package/config/menu.c:199-248 | once conditions have been handed down this holds for all entries below a choice, at any depth, unless another choice is in between |
| ChoiceBound.EliminateDupsBound | package/config/expr.c:616-638 | removing duplicates never drops such an operand |
| SymbolChoice.ShownIsVisible | package/config/symbol.c:136-203 | the visibility calculated for a member while the choice is only assumed to be y is the final one, whatever becomes of the choice |
| SymbolChoice.PickVisible | package/config/symbol.c:293-295 | a choice holds a member exactly if it is y in the end, and then a visible one |
| SymbolChoice.MemberYesIff | package/config/symbol.c:243-268 | a member is y exactly if it is fully visible and held by its choice, or invisible with a default of its own that makes it y |
| SymbolChoice.AtMostOneYes | package/config/symbol.c:166-310 | of the members without defaults of their own at most one is y, and none unless the choice is |
| SymbolChoice.ExactlyOneYes | package/config/symbol.c:166-310 | exactly one is y if a boolean choice is y |
| SymbolSetting.SameSymValue | package/config/symbol.c:205-311 | a change of settings changes no value below it, and none at all if the symbols it is about keep theirs |
| SymbolReadBack.MemberTaken | package/config/symbol.c:364-390 | setting a fully visible member to y makes the choice take it |
| SymbolReadBack.PickAfter | package/config/symbol.c:166-203 | once a member has been set to y, its choice takes it if it is visible, else what it takes without the user |
| SymbolReadBack.ChoiceReadBack | package/config/symbol.c:345-390 | a choice reads back what is set if and only if it is accepted and, without a visible member, is not y and not n under a select bound of m |
| SymbolReadBack.AcceptsIffReadBack | package/config/symbol.c:345-390 | for symbols, choices and members, a value is read back by the recursive definition if and only if it is accepted and, for a choice without a visible member, of that kind; only for a hidden member set to y that costs its choice the pick nothing is said |
| SymbolReadBack.KeptIff | package/config/symbol.c:380-387 | setting a symbol to the value it has changes the value of none of the symbols it is stored for if and only if it is not one of these exceptions |
| SymbolReadBack.NothingNoticed | package/config/symbol.c:380-387 | and then it changes no value at all |
| SettingExample.YesLost | package/config/symbol.c:166-390 | an optional boolean choice without a visible member accepts y and reads n |
| SettingExample.NoLost | package/config/symbol.c:166-390 | a tristate choice without a visible member that reads n accepts n without recalculation, which would give m |
| SettingExample.PickLost | package/config/symbol.c:364-390 | a hidden member that its default makes y accepts y without recalculation, which would turn the choice to another member |
| SymbolEval.Evaluator.ExprCalcValue | package/config/expr.c:942-981 | with symbols evaluated on demand, gives the specified value and only adds right entries to the cache |
| SymbolEval.Evaluator.CalcVisibility | package/config/symbol.c:136-164 | caches the specified visibility and select bound, also when a choice calls it for a member while its own value is only assumed |
| SymbolEval.Evaluator.GetDefault | package/config/symbol.c:112-122 | finds the value of the first visible default |
| SymbolEval.Evaluator.CalcChoice | package/config/symbol.c:166-203 | picks the specified member, and resets the choice if there is none |
| SymbolEval.Evaluator.CalcNew | package/config/symbol.c:205-311 | the memoised value of any symbol, choice or member is the one of the recursive definition, although calculating a choice and its members calls itself |
| SymbolEval.Evaluator.ClearAllValid | package/config/symbol.c:313-323 | afterwards the cache is right for the current settings |
| SymbolEval.Evaluator.CalcValues | package/config/symbol.c:205-323 | any sequence of evaluations in any order gives each symbol its specified value, each calculated once, and at most one member of any choice is y |
| SymbolEval.Evaluator.TristateWithinRange | package/config/symbol.c:345-362 | answers from the cache what the specified range says |
| SymbolEval.Evaluator.SetTristateValue | package/config/symbol.c:364-390 | for symbols, choices and members, accepts what the specified range says and stores it; recalculation reads it back, and without recalculation the cache is right, exactly outside the two exceptions |
| SymbolEval.Evaluator.CacheStillRight | package/config/symbol.c:380-387 | setting a symbol to the value it has needs no invalidation outside these exceptions, and does need one in them if what it is stored for is cached |
| MenuTree.Menus.SpreadDependencies | package/config/menu.c:219-249 | each child, and nothing else, gets the condition of its parent added to its own and to that of its prompt, simplified |
| MenuTree.Menus.AdoptionTest | package/config/menu.c:253-272 | decides the test, and what passes it is sound if the conditions are in normal form |
| MenuTree.Menus.AdoptSiblings | package/config/menu.c:252-283 | the pointers stand for a tree again in which exactly the following siblings up to the first that fails the test are children, each finalized, in the same order |
| MenuTree.Menus.Hoist | package/config/menu.c:284-318 | run on the pointers, moves up the children of exactly the entries without a prompt; the order is kept and every entry with children has a prompt |
| MenuTree.Menus.Finalize | package/config/menu.c:199-318 | for an entry and what is below and behind it: the specified shape for the final conditions, conditions handed down, order kept, each finalized once, only its own entries touched |
| MenuTree.Menus.FinalizeRoot | package/config/menu.c:199-318 | of any menu nothing is lost, duplicated or reordered, every entry is finalized exactly once, parent pointers match child lists, the menu has exactly the shape that the final conditions decide, these are handed down level by level, and every pair that passes the adoption test is sound for them, provided that the condition of the root is in normal form |
| MenuTree.Menus.ResultUnique | package/config/menu.c:199-318 | the conditions and the menu that this describes are unique |
| MenuTree.Menus.InheritedSound | package/config/menu.c:219-277 | conditions that have been handed down make the adoption test sound for every two entries of the menu |
| MenuTree.Menus.InheritedTypedSound | package/config/menu.c:219-277 | in a menu with boolean and tristate symbols only, it is sound wherever no negated part of the entry's condition is m |
| MenuShape.ShapedPre | package/config/menu.c:199-318 | the shape keeps the order of the entries, whatever the test decides |
| MenuShape.ShapedKidsIn | package/config/menu.c:252-318 | an entry gets below another only by a chain of old memberships and passed tests: a set closed under both is closed under the new nesting |
| MenuTree.Menus.WalkEntries | package/config/confdata.c:322-427 | the walk without a stack ends and visits every entry below the root exactly once, in file order |
| ConfStrings.WriteString | package/config/confdata.c:378-392 | the nested loops write the escaped value |
| ConfStrings.ReadEscape | package/config/confdata.c:174-187 | whatever follows the closing quote, scanning an escaped value gives the value and stops at that quote |
| ConfStrings.ReadInPlace | package/config/confdata.c:174-187 | the loop that squeezes backslashes out of the line buffer leaves exactly the scanned value there, or fails if no quote closes it, and touches nothing before the value |
| ConfStrings.ConfRoundTripIff | package/config/confdata.c:174-187 | a written value is read back from its line if and only if it has no newline |
| KdbCodec.StrEscape | package/webface/kdb.c:1019-1076 | the loop with its fall-through computes the escaped string, for signed and unsigned char |
| KdbCodec.StrUnescape | package/webface/kdb.c:1080-1134 | the loop with its octal scan computes the unescaped string |
| KdbCodec.UnescapeEscape | package/webface/kdb.c:1019-1134 | unescaping an escaped string gives it with every BEL followed by BS |
| KdbCodec.RoundTripIff | package/webface/kdb.c:1028-1034 | a string survives if and only if it has no BEL |
| KdbCodec.EscapedClean | package/webface/kdb.c:1060-1066 | an escaped string is printable ASCII without space, equals sign and hash |
| KdbWildcard.MatchWildcard | package/webface/kdb.c:1167-1195 | the pointer loops and their recursion decide the language of the code |
| KdbWildcard.MatchSound | package/webface/kdb.c:1156-1195 | whatever the code matches is in the documented language |
| KdbWildcard.WildcardExactIff | package/webface/kdb.c:1156-1195 | for a pattern both languages agree if and only if every unquoted star is at the end or before a byte the code can look for |
| KdbWildcard.NoStarMatchesOne | package/webface/kdb.c:1137-1144 | a pattern without star matches exactly one string |
| KdbRecords.SortedUnique | package/webface/kdb.c:312-322 | with distinct names there is only one sorted arrangement of the records, so any sort gives the same file |
| KdbFile.RecordLine | package/webface/kdb.c:253-263 | a written record is one line and splits at its own equals sign |
| KdbFile.ReadImage | package/webface/kdb.c:266-309 | reading a written file gives its records in order, each as unescaping reads it back |
| KdbFile.FileRoundTripIff | package/webface/kdb.c:209-309 | exactly the same records are read back if and only if none of them has a BEL |
| KdbStore.Database.FindKey | package/webface/kdb.c:382-394 | the index of the first record with the name, or -1 |
| KdbStore.Database.Set | package/webface/kdb.c:396-413 | replaces the record in place or appends it |
| KdbStore.UpdatedGet | package/webface/kdb.c:396-413 | afterwards the key reads as set and every other key as before |
| KdbStore.UpdatedDistinct | package/webface/kdb.c:396-413 | names stay distinct |
| KdbStore.Database.DelIndex | package/webface/kdb.c:415-436 | shifting the array down removes exactly that record |
| KdbStore.Database.Del | package/webface/kdb.c:636-649 | the loop that restarts after each deletion ends and leaves exactly the records that do not match, in order |
| KdbStore.UnmatchedGet | package/webface/kdb.c:636-649 | for a pattern with handled stars, exactly the keys of the documented language are gone |
| KdbStore.Database.Rename | package/webface/kdb.c:571-585 | removes the record with the new name, then renames |
| KdbStore.RenamedGet | package/webface/kdb.c:571-585 | the new key reads as the old one did, the old one is gone, others are unchanged; renaming a key to itself deletes it |
| KdbStore.Database.Write | package/webface/kdb.c:438-469 | for any sorted arrangement, the file becomes its image |
| KdbStore.Database.Read | package/webface/kdb.c:266-309 | reads any file as specified, once; an empty one according to what the header buffer held before |
| KdbLists.ListRm | package/webface/kdb.c:732-786 | the two loops compute the specified records |
| KdbLists.RelistedShape | package/webface/kdb.c:732-786 | all other records keep their order, followed by the kept items, renumbered without a gap |
| KdbLists.ListRmResult | package/webface/kdb.c:732-786 | removing item k of n leaves n - 1 items with the old values in order without the k-th, and no other key reads differently |
| Crc.Crc16Add | package/bcmflash/src/utils.c:101-109 | swapping and shifting divides by one byte, bit by bit with the reflected generator 0x8408 |
| Crc.Crc16 | package/bcmflash/src/utils.c:112-119 | the loop gives the remainder of the whole message |
| Crc.CrcCcittUpdate | package/rtlflash/src/flyavr.c:287-297 | the other formula does the same division |
| Crc.CrcXmodemUpdate | package/rtlflash/src/flyavr.c:299-315 | the bit loop divides most significant bit first by 0x1021 |
| Crc.XmodemMirrorsCcitt | package/rtlflash/src/flyavr.c:287-315 | the two updates are mirror images under reversal of all bits |
| Crc.RemainderInjective | package/bcmflash/src/utils.c:101-119 | different states never meet again on the same message |
| Crc.BurstDetected | package/bcmflash/src/utils.c:101-119 | two messages of equal length that differ only within two adjacent bytes never have the same CRC |
| Mtd.Tool.ImageCheckBcom | package/mtd/mtd.c:66-118 | however reads chunk the image, exactly what they have delivered is consumed, and it is accepted if and only if the first read is complete and the bytes then seen are a header that fits; what is buffered and what is left is the image without its optional 32-byte prefix |
| Mtd.AcceptedHeader | package/mtd/mtd.c:72-112 | if the second read delivers eight bytes, an image is accepted if and only if the header of its payload fits |
| Mtd.AcceptedShort | package/mtd/mtd.c:72-112 | with fewer, exactly if at least four came, they are the magic number, and the length completed from the prefix is in range |
| Mtd.ShortReadAccepts | package/mtd/mtd.c:72-112 | so a read of four bytes accepts an image whose header says that it does not fit |
| Mtd.Tool.MtdWrite | package/mtd/mtd.c:257-326 | however reads chunk the image, it succeeds if and only if everything fits; the device then holds it, then erased bytes to the block end, then its old content; blocks are erased in order, once, and before any of them is written |
| Mtd.Tool.WriteImage | package/mtd/mtd.c:415-463 | check and write together succeed if and only if the image is accepted and fits, and then store exactly the payload of the image |

## Left out

- E_RANGE and E_CHOICE as expressions, and `expr_trans_compare` against a symbol other than y, m and n: the calls modelled here never use them.
- In-place reuse of nodes by `expr_eliminate_yn`, `expr_transform`, `expr_trans_bool`, and by the joins: these are modelled on values, which does not capture which node is reused or freed. The rewriters that take slots are modelled in place (`ExprSlots`).
- Memory allocation, copying and freeing of expressions and strings.
- SymbolEval.Evaluator.SetTristateValue: assumes that the new value does not change the value of MODULES; `modules_val` is fixed during an evaluation round. A choice that loses SYMBOL_NEW because a member is set has user value n.
- SymbolReadBack.AcceptsIffReadBack: says nothing about the value a hidden member has after it was set to y at the cost of its choice's pick; that is what its default then gives.
- SymbolEval.Evaluator.CalcNew: needs a table in which no symbol needs its own value, where the prompts of members are bound by their choice (as `menu_finalize` makes them: `ChoiceBound.MemberPromptBound`), members have the type of their choice and defaults of choices name members; a string symbol whose default is a choice would get a pointer to a symbol. The WRITE and CHANGED flags and the cached `visible.tri` of single properties are not modelled.
- String, int and hex symbols have their values but not their range and syntax checks (`sym_string_valid`, `sym_string_within_range`), and E_RANGE properties are absent.
- The symbol hash table (`sym_lookup`, `sym_find`): a symbol is its identity.
- MenuTree.Menus.Finalize: one prompt for an entry; conditions of its other properties, the reverse dependencies that `select` and non-optional prompts add, type propagation in choices, the list of choice members and all warnings are not modelled.
- Building the menu (`menu_add_entry`, `menu_add_menu`, `menu_end_menu`) and the grammar: entries and expressions are taken as built.
- The rest of `conf_write` and `conf_read`: what is printed for other symbol types, headers, file renaming, the assignment of read values, and the length of the line buffer.
- kdb buffer sizes other than those of the file buffer and the record array: names and values fit the fixed line buffers.
- KdbLists.ListRm: the prefix is taken as terminated; the code copies it with `strncpy` without a terminating NUL into an uninitialised buffer.
- KdbCodec.StrUnescape: stops at a lone backslash at the end of the string; the code reads on behind the terminating NUL.
- `qsort` is a parameter: any sorted arrangement of the records.
- kdb's command line, environment values, printing, `set` with wildcards, `listadd`, import and edit; locking and opening of the file.
- Read errors in `mtd_write`, unlocking, the -f option that overrules a failed check, and the rest of the `mtd` command line. The device is the kernel's interface: whole-block erase, and writes that only clear bits.
- `replace_file` and the file helpers around the CRC code.
- The text-mode user interface, network tools, wireless tools and device utilities of the repository.
