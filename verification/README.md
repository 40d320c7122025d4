# Kconfig and fakeroot, verified in Dafny

A model of three parts of `build-tools`, with proofs of what they promise.

**The Kconfig expression rewriter** (`expr.c`). Three-valued dependency expressions (n, m, y with min, max and 2 minus
a value) are rewritten by many mutually recursive functions. `Exprs`, `Transforms`, `ExprEquality`, `Joins` and
`ExprPrinting` state them on trees; `ExprNodes` has the nodes in memory and proves the in-place versions against
the tree functions. `Slots` and `DupElimination` model `expr_eliminate_dups`, which works through two pointers to
`struct expr *` that start out as the same pointer: a slot is a path into one tree, so aliasing is equality of paths
and a write through one slot is seen through the other. `DupClash` computes what it makes of two families of
trees, `DupMods` says what becomes of an expression that is m, and `DupLaws` what is left nowhere. `ExprKeys`
says what the equality test decides.

**Kconfig values and menus** (`symbol.c`, `menu.c`, `confdata.c`). `SymbolValues` defines the value of every
symbol by recursion over an acyclic dependency graph, and `SymbolLaws` says what those values are by properties
and expr_calc_value alone; `SymbolCalculation` has the memoised evaluator and proves that any order of
calculation gives them; `DependencyCheck` is the cycle search that should make the graph acyclic, and
`DependencyRanks` says when it does; `Choices` has choice symbols, and `ChoiceLaws` says what they are worth.
`MenuBuilding`, `MenuFinalization` and `MenuWalk` are the linked menu tree: built through `last_entry_ptr`,
restructured in place, then walked without a stack. A ghost `Forest` says what the `next`, `parent` and `list`
pointers spell out. `MenuAdoption` is the decision to give an entry a new parent, `AdoptionLaws` which entries
it takes, `MenuInheritance` the conditions that entries were combined with, and `MenuRecords` a ghost record of
both that cannot hold anything false. `ConfWriting` and `ConfReading` are the .config file, `ConfRoundTrip` its
round trip, `ConfLaws` which values it takes, and `ConfChoices` what choices learn from it.

**Fakeroot** (`faked.c`, `communicate.c`, SysV IPC build). `FakedModel` and `FakedDaemon` are the daemon's hash
table with its asymmetric key match, `FakedLaws` says what a stat reports after each request, `FakedText` and
`FakedSaving` the saved database, and `FakerootProtocol` the request/reply protocol as a state machine with
kills and interrupted daemons, and `FakerootQueue` the order of its requests.

Methods are proved against functions on values, and the properties are lemmas about those functions. Automatic
induction is switched off on every lemma, so each proof is what its body says. A few large predicates of the
menu proofs are kept folded behind `Unfold` until a lemma opens them.

Where a property does not hold for every input there is an input for which it fails, and the exact condition under
which it holds unless "Left out" says otherwise:

- `expr_eliminate_dups` can turn m into n or y (`ClashLosesMod`). It never changes y or n (`DupFreeKeeps`). One step
  is exact if and only if its operands are not both m (`CancelStepExact`). For the whole, `ModResult` follows the
  steps on an expression that is m: which operands contradict each other, which of them are m, and what the others
  are worth (`DupFreeExactly`).
- So a prompt that is visible as m can become invisible (`VisibilityIsLost`, exactly: `RewrittenVisibility`).
- `expr_trans_compare` with n is wrong for an m whose two-valued reading is n (`CompareNoLosesMod`, exactly:
  `CompareNoExactly`), and so `menu_finalize` can adopt an entry that is visible where its parent is not
  (`AdoptionUnderNot`).
- `sym_check_deps` does not follow range bounds, although calculating a symbol does (`RangeCycleUnchecked`, exactly:
  `RankedExactly`).
- `sym_set_tristate_value` accepts a symbol's current value, but recalculation need not keep it (exactly:
  `RestatedValue`), and accepts the stale value of a choice's member, but then the member need not be picked
  (`StalePickIsLost`, exactly: `StalePickExactly` and `StaleYesOutside`).
- A tristate choice that is y may have no member that is y (`PickedButOnlyMod`, exactly: `ExactlyOneYes`).
- The daemon may not report an owner that was set (`GrownFileLosesOwner`, exactly: `ChownIsReportedExactly`), and
  after an unlink it may still know the file (`UnlinkCanLeaveTheFileKnown`, exactly: `UnlinkExactly`).
- The case of chmod that rejects another file type is never reached (`KnownTypesAgree`).
- The daemon's bound on function numbers lets one number through that has no function (exactly: `DefinedExactly`).
- All nameless symbols print as `<choice>`, so printing is unambiguous only where they have the same value
  (exactly: `UnambiguousExactly`).

`dafny verify dfyconfig.toml` checks everything. The comment in `expr.c:583` states the cancelling rule without the
condition that it needs; the model follows the code.

## Model

| member | source | states |
|---|---|---|
| Transforms.EliminateYnValue | build-tools/kconfig/expr.c:236-317 | removing constant operands keeps the value on all three values |
| Transforms.EliminateYnNormal | build-tools/kconfig/expr.c:236-317 | no y or n operand is left, and the tree gets smaller exactly when there was one |
| Transforms.TransformValue | build-tools/kconfig/expr.c:641-776 | the negation-pushing rewriter keeps the three-valued value under every assignment |
| Transforms.TransformNormal | build-tools/kconfig/expr.c:641-776 | afterwards NOT stands only directly above symbols other than y, m, n and no boolean symbol is compared with y, m, n |
| Transforms.TransformIdempotent | build-tools/kconfig/expr.c:641-776 | transforming twice is transforming once, and a tree is left alone if and only if it is in that normal form |
| Transforms.DeMorgan | build-tools/kconfig/expr.c:722-739 | pushing a NOT down makes the termination weight smaller although the tree grows |
| Transforms.TransBoolKeepsNo | build-tools/kconfig/expr.c:322-346 | dropping `!= n` never raises a value and keeps n and not-n apart where NOT stands only above symbols |
| Transforms.TransBoolLeavesNone | build-tools/kconfig/expr.c:333-339 | no comparison of a tristate symbol with `!= n` is left anywhere, and a tree without one is left as it is |
| Transforms.CompareNoIsUp | build-tools/kconfig/expr.c:882-941 | the rewritten comparison with n is never m: it computes the two-valued reading of the expression, every m taken for y |
| Transforms.CompareNoExactly | build-tools/kconfig/expr.c:882-941 | so it is right on an assignment if and only if the expression is not m there or holds in that reading |
| Transforms.NotsTwoValuedIsUp | build-tools/kconfig/expr.c:913-914 | in particular it is right where no NOT stands above an m |
| Transforms.CompareNoLosesMod | build-tools/kconfig/expr.c:913-914 | below NOT of a tristate symbol the rewritten comparison is right if and only if the symbol is not m |
| ExprNodes.EliminateYnInPlace | build-tools/kconfig/expr.c:236-317 | the in-place folding of nodes, with its struct copies, leaves the tree that the tree function gives, in the same nodes |
| ExprNodes.TransBoolInPlace | build-tools/kconfig/expr.c:322-346 | the same for `!= n` removal |
| ExprNodes.TransformInPlace | build-tools/kconfig/expr.c:641-776 | the same for negation pushing, which reuses, drops and allocates nodes |
| ExprNodes.PushNot | build-tools/kconfig/expr.c:722-739 | De Morgan on two nodes that are reused and one that is allocated |
| ExprNodes.CancelEqInPlace | build-tools/kconfig/expr.c:135-167 | cancelling the operands of two disjoint node trees leaves two disjoint trees with the specified contents |
| ExprNodes.EliminateEqInPlace | build-tools/kconfig/expr.c:169-189 | the same for the one or two passes and the folding after them |
| ExprNodes.ExprEqCheck | build-tools/kconfig/expr.c:194-234 | comparing on copies decides the equality of the tree function and changes no existing node |
| ExprNodes.Copy | build-tools/kconfig/expr.c:67-102 | the copy spells the same tree in fresh nodes only |
| ExprEquality.CancelEqValue | build-tools/kconfig/expr.c:135-167 | there is one value that, joined back on, gives both trees their old values: what was cancelled was equal |
| ExprEquality.ZerosStay | build-tools/kconfig/expr.c:145-148 | a constant that decides a whole spine is never cancelled, even if both trees have it |
| ExprEquality.EliminateEqOrder | build-tools/kconfig/expr.c:169-189 | the order between what is left is the order between the original trees, through both passes of the mixed AND/OR case |
| ExprEquality.EliminatedToYes | build-tools/kconfig/expr.c:169-189 | if y is all that is left of dep2, dep is at most dep2 under every assignment |
| ExprEquality.ExprEqSound | build-tools/kconfig/expr.c:194-234 | expressions found equal have the same three-valued value under every assignment |
| ExprKeys.ExprEqIsKeyEquality | build-tools/kconfig/expr.c:194-234 | on trees without constant operands, equality is exactly equality of nested operand multisets: modulo order and grouping, and nothing else |
| ExprKeys.ConstantsAreSeenThrough | build-tools/kconfig/expr.c:194-234 | with constant operands it is not: A or n is not equal to A, but (A or n) and B is equal to A and B |
| ExprKeys.CancelEqIsDifference | build-tools/kconfig/expr.c:135-167 | on operands without constants inside, cancelling is the two-way difference of the operand multisets |
| ExprKeys.ExtractIsCancel | build-tools/kconfig/expr.c:853-880 | extracting common operands leaves what cancelling leaves |
| ExprKeys.ExtractCollects | build-tools/kconfig/expr.c:853-880 | and what it collects is the intersection of the two operand multisets |
| ExprKeys.ContradictsExactly | build-tools/kconfig/expr.c:582-606 | on operands without constants inside, the cancelling test of expr_eliminate_dups2 holds if and only if every operand of the negation occurs in the other operand |
| Joins.JoinValue | build-tools/kconfig/expr.c:351-507 | whatever two operands are joined into is worth exactly both together, on all three values |
| Joins.JoinDecides | build-tools/kconfig/expr.c:351-507 | which two different things said of one boolean or tristate symbol are joined (bare, negated, compared with = or != to any other symbol), listed and decided both ways |
| Joins.JoinOnly | build-tools/kconfig/expr.c:351-507 | equal operands are always joined into one, and nothing else is joined than two such statements about one symbol |
| Joins.JoinShape | build-tools/kconfig/expr.c:351-507 | a join makes the tree smaller and brings no operand of the same operator |
| Joins.ExtractEqValue | build-tools/kconfig/expr.c:853-880 | the extracted part joined back on gives both trees their old value |
| Joins.ContradictsBounds | build-tools/kconfig/expr.c:582-606 | where the cancelling test succeeds the negation bounds the other operand, from above or from below |
| Slots.PutExchange | build-tools/kconfig/expr.c:529-559 | writing one slot of a spine exchanges exactly the operand's contribution to the value of the whole |
| Slots.MergeOperands | build-tools/kconfig/expr.c:529-559 | moving two operands' joint value into one slot and a neutral constant into the other keeps the value of the whole tree |
| DupElimination.Dups1 | build-tools/kconfig/expr.c:509-559 | on two slots of one tree that may be the same slot: the tree and the count of the specified pass |
| DupElimination.JoinPassKeeps | build-tools/kconfig/expr.c:509-559 | that pass keeps the value on all three values; if it counted nothing it changed nothing and no pair is left to join, otherwise it left a constant operand |
| DupElimination.Dups2 | build-tools/kconfig/expr.c:561-615 | the same for the cancelling pass |
| DupElimination.CancelPassKeeps | build-tools/kconfig/expr.c:561-615 | that pass keeps every y and n (for m see ModAfterPass); if it counted nothing it changed nothing and no contradiction is left, otherwise it left a constant operand |
| DupElimination.EliminateDups | build-tools/kconfig/expr.c:617-639 | the loop over both passes and the folding ends with the specified tree |
| DupElimination.DupFreeKeeps | build-tools/kconfig/expr.c:617-639 | that tree has the value of the input on every assignment that makes the input y or n; it is a fixpoint of both passes without constant operands unless nothing changed, has NOT above symbols if the input has, and eliminating again changes nothing |
| DupLaws.DupFreeIsTerse | build-tools/kconfig/expr.c:617-639 | whatever the input, the result has on no AND or OR spine, outermost or inside an operand, two operands that are equal or that a shorter spelling says together |
| DupLaws.DupFreeIsUnopposed | build-tools/kconfig/expr.c:617-639 | nor an operand whose negation has all its operands at another place of the spine, where no constants are among them |
| DupMods.ModAfterPass | build-tools/kconfig/expr.c:561-615 | what the cancelling pass makes of a tree that is m, step by step: the constant that decides the spine if an operand, cleaned up inside, contradicts what the other slot holds, and otherwise what the other operands and what is left inside this one are worth together |
| DupMods.DupFreeExactly | build-tools/kconfig/expr.c:617-639 | and the whole loop: y and n are kept, and an m becomes what those steps make of it |
| DupMods.RootFires | build-tools/kconfig/expr.c:582-606 | if a step of the first round fires on the spine of the root itself, the result is the constant that decides it, whatever the rest is |
| DupElimination.TwoValuedIsKept | build-tools/kconfig/expr.c:617-639 | when every bare symbol operand is y or n, the result has exactly the value of the input |
| DupElimination.CancelStepExact | build-tools/kconfig/expr.c:582-606 | one cancelling step is exact if and only if its two operands are not both m |
| DupClash.ClashLosesMod | build-tools/kconfig/expr.c:582-590 | expr_eliminate_dups makes n of (FOO or BAR) and (not FOO and not BAR), and y of the dual, although both are m for FOO = BAR = m |
| ExprPrinting.OutermostReads | build-tools/kconfig/expr.c:984-1086 | a reader with the usual precedences gets the value back from the printed tokens, with the few parentheses that are printed |
| ExprPrinting.PrintUnambiguous | build-tools/kconfig/expr.c:984-1086 | expressions that print the same tokens have the same value |
| ExprPrinting.UnambiguousExactly | build-tools/kconfig/expr.c:1021-1026 | that holds on an assignment if and only if it gives all nameless choice symbols the same value, since they all print as <choice> |
| SymbolValues.Table.EvalIsCalc | build-tools/kconfig/expr.c:943-982 | the values of the recursive definition are an assignment, and evaluating an expression in it is expr_calc_value |
| SymbolValues.Table.AssignmentValid | build-tools/kconfig/symbol.c:285-408 | that assignment is one the rewriter's theorems speak about: booleans never m, strings as sym_get_string_value gives them |
| SymbolCalculation.SymbolTable.CalcValue | build-tools/kconfig/symbol.c:285-408 | a memoised calculation gives the symbol the value, visibility and write flag of the recursive definition and keeps everything that was valid and right |
| SymbolCalculation.SymbolTable.CalcAll | build-tools/kconfig/symbol.c:285-408 | calculated in any order, every symbol has the value of the recursive definition |
| SymbolCalculation.SymbolTable.SetTristate | build-tools/kconfig/symbol.c:461-495 | accepts exactly the value stored for the symbol or a value in range. A new value clears everything and is what the symbol calculates to. After restating the value of an up-to-date symbol what is marked valid is right if and only if the symbol is invisible or the value within its bounds, and it always is if the symbol was not up to date |
| SymbolValues.SettledAgrees | build-tools/kconfig/symbol.c:285-408 | what is calculated for a symbol depends only on its own entry and on the values of the symbols that calculation looks at, which the evaluator has marked valid by then |
| SymbolValues.SameValueSameTable | build-tools/kconfig/symbol.c:461-495 | if the user value of a symbol changes and its value does not, no other value changes |
| SymbolValues.WithinRangeExactly | build-tools/kconfig/symbol.c:442-459 | a changeable symbol accepts a value if and only if recalculation after setting it gives exactly that value |
| SymbolValues.ValueBounds | build-tools/kconfig/symbol.c:323-356 | a value is never below what selects the symbol and never m where the type counts as boolean |
| SymbolLaws.VisibleLaw | build-tools/kconfig/symbol.c:217-222 | a symbol is as visible as the most visible of its prompts, m counting as y for a two-valued symbol; conditions are evaluated by expr_calc_value in the symbols' own values |
| SymbolLaws.SelectedLaw | build-tools/kconfig/symbol.c:230-235 | what selects a symbol is the value of its rev_dep, m counting as y for a boolean, and n without one |
| SymbolLaws.OperandLaw | build-tools/kconfig/symbol.c:300-314 | as an operand only y, m, booleans and tristates can be other than n; as a string a constant is its text, a logical symbol the name of its value, a symbol without a type its own name |
| SymbolLaws.TriLaw | build-tools/kconfig/symbol.c:323-356 | a boolean or tristate: the user's value limited to the visibility, else the first default whose condition is not n limited to that condition, else n; raised to what selects it, m promoted to y for a boolean |
| SymbolLaws.StringLaw | build-tools/kconfig/symbol.c:357-374 | a string: the user's if the symbol is visible, else that of the symbol named by the first default whose condition is not n, else the empty one |
| SymbolLaws.NumberLaw | build-tools/kconfig/symbol.c:192-215 | an int or hex: the same text if it is within the bounds of the first range whose condition is not n, otherwise the bound that it passes |
| SymbolLaws.WrittenLaw | build-tools/kconfig/symbol.c:330-371 | a symbol is written exactly if it is not automatic and is visible, selected or has a default that applies |
| SymbolValues.RestatedValue | build-tools/kconfig/symbol.c:461-466 | setting a symbol to the value it already has keeps it if and only if it is invisible or that value is within its bounds; a default can be above them |
| DependencyCheck.Checker.CheckAll | build-tools/kconfig/symbol.c:882-918 | checking every symbol from clear flags reports an error if and only if the checked dependencies have a cycle, and leaves no CHECK flag |
| DependencyCheck.Checker.CheckSymDeps | build-tools/kconfig/symbol.c:823-846 | one visit: no error means everything reachable is finished in dependency order, an error means a real cycle |
| DependencyRanks.RankedExactly | build-tools/kconfig/symbol.c:285-408 | the recursive definition of values is well-founded if and only if no chain of symbols that calculation asks for, range bounds included, leads back to its start |
| DependencyRanks.CheckedIsRanked | build-tools/kconfig/symbol.c:823-846 | with constant range bounds a check without errors is enough for that |
| DependencyRanks.MissedCycleHasBound | build-tools/kconfig/symbol.c:823-846 | without errors every such cycle leads through a range bound |
| DependencyRanks.ReportedIsReal | build-tools/kconfig/symbol.c:823-846 | a cycle that is reported is one of the calculation, unless it leads through the condition of a property that is neither prompt, default nor range: what is well-founded is not refused, and selects are not followed |
| DependencyRanks.CheckIsExact | build-tools/kconfig/symbol.c:823-846 | with constant range bounds and no such property an error is reported if and only if the values are not well-founded |
| DependencyRanks.RangeCycleUnchecked | build-tools/kconfig/symbol.c:833-844 | range bounds are not followed: two int symbols that bound each other pass the check, and their values are not well-founded |
| Choices.MemberIsYes | build-tools/kconfig/symbol.c:326-329 | a member is y if and only if the choice is y, the member is picked and it is wholly visible |
| Choices.ExactlyOneYes | build-tools/kconfig/symbol.c:247-283 | a choice that is y has a pick, and exactly one member is y if and only if the pick's visibility is y; otherwise none is |
| Choices.BooleanChoice | build-tools/kconfig/symbol.c:247-283 | a boolean choice that is y always has exactly one member that is y, and one that is not has none |
| Choices.PickedButOnlyMod | build-tools/kconfig/symbol.c:252-277 | a tristate choice that is y can pick a member that is only visible as m, and then no member is y although another one could be |
| Choices.PickOrder | build-tools/kconfig/symbol.c:252-277 | the pick is the user's if it is shown, else the first default that is, else the first member that is |
| ChoiceLaws.BaseExactly | build-tools/kconfig/symbol.c:323-356 | which value a choice has before a member is looked for, by its prompt, its selects and the user's value alone |
| ChoiceLaws.TwoValuedChoice | build-tools/kconfig/symbol.c:323-382 | a two-valued choice is y if and only if it is selected, or visible and set by the user to other than n, and some member's condition is not n; it is never m |
| ChoiceLaws.TristateChoice | build-tools/kconfig/symbol.c:323-382 | the same for each value of a tristate choice |
| ChoiceLaws.PickExactly | build-tools/kconfig/symbol.c:247-283 | the pick is the user's if its condition is not n, else the first default's whose own condition and whose member's are not n, else the first member's whose condition is not n, and there is no other |
| ChoiceLaws.MemberExactly | build-tools/kconfig/symbol.c:323-356 | exactly when a member is y and exactly when it is m, by its own condition, the choice's value, the pick and the user's value |
| ChoiceLaws.YesSettlesAll | build-tools/kconfig/symbol.c:477-488 | an accepted y sets the choice's user flag and pick and the user flags of exactly the visible members, and no member's user value but its own |
| ChoiceLaws.AcceptedExactly | build-tools/kconfig/symbol.c:442-466 | a member accepts a value if and only if storing it makes it the member's value and leaves the choice the value it has |
| ChoiceLaws.ChoiceAcceptedExactly | build-tools/kconfig/symbol.c:442-459 | a choice that is not held by its selects has a value in range if and only if storing it makes it the choice's value |
| Choices.SetMemberWorks | build-tools/kconfig/symbol.c:461-495 | setting a member to an accepted value gives it that value on recalculation and leaves the choice's value |
| Choices.SetAgainChangesNothing | build-tools/kconfig/symbol.c:461-495 | setting a member to what it is changes no member's value |
| Choices.StalePickExactly | build-tools/kconfig/symbol.c:469-488 | a member set to y while the choice is y and not calculated again leaves the cached pick right if and only if it is that pick already, or it is not shown and the cached pick is the one made without any of the user's |
| Choices.StaleYesOutside | build-tools/kconfig/symbol.c:469-488 | and while the choice is not y, if and only if counting as set does not raise the choice's value, or only to a y without a member to pick |
| Choices.RestatedChoice | build-tools/kconfig/symbol.c:461-466 | setting a choice to the value it has keeps it and its pick, unless it is n for want of a member to pick while m selects a tristate choice |
| Choices.Choice.CalcChoice | build-tools/kconfig/symbol.c:247-283 | the three searches, which recalculate visibilities on the way, return the specified pick |
| Choices.Choice.CalcValue | build-tools/kconfig/symbol.c:285-408 | the choice's cached value and chosen member are those of the definition |
| Choices.Choice.SetTristate | build-tools/kconfig/symbol.c:461-495 | the exact new user values, and in every case the exact condition for the cached values to be right afterwards: always if a value was new or refused or the member up to date, by StalePickExactly or StaleYesOutside if a stale y was accepted |
| Choices.Choice.SetChoice | build-tools/kconfig/symbol.c:461-495 | the same for the choice itself, with exactly which values are accepted |
| Choices.Choice.Recalculate | build-tools/kconfig/symbol.c:285-408 | from every state that calls can leave, in any order: exactly the cached pick of a choice that is y is y if it is wholly visible; it is the pick by the current user values unless a call was made on a stale value |
| Choices.RunThenRecalculate | build-tools/kconfig/symbol.c:461-495 | after any sequence of set calls, each on a symbol calculated before, and a recalculation in any order: the member that is y is the last one that was set to y if it is shown, else the first shown default, else the first shown member |
| Choices.StalePickIsLost | build-tools/kconfig/symbol.c:465-466 | a call on a stale value: a wholly visible member that was set to y last is n after recalculation |
| MenuBuilding.Builder.AddEntry | build-tools/kconfig/menu.c:48-62 | an entry written through last_entry_ptr becomes the last one of the innermost open menu |
| MenuBuilding.Builder.AddMenu | build-tools/kconfig/menu.c:68-73 | the entry just added opens its own list; nothing else changes place |
| MenuBuilding.Builder.EndMenu | build-tools/kconfig/menu.c:75-79 | the open menu becomes the last finished entry one level up |
| MenuBuilding.Build | build-tools/kconfig/menu.c:42-79 | whatever sequence of those calls is made, as long as menus are opened on the entry just added and all are ended: a tree in the order of the calls that menu_finalize and the walk accept |
| MenuBuilding.NestingExactly | build-tools/kconfig/menu.c:68-79 | which sequences of calls those are: a menu is begun right after its own entry was added, and no more are ended than were begun at any time |
| MenuDeps.VisibilityIsKept | build-tools/kconfig/symbol.c:222-229 | a symbol that is not tristate is exactly as visible through prompts that expr_trans_bool rewrote |
| MenuDeps.InheritValue | build-tools/kconfig/menu.c:284-300 | combining an own condition with that of the parent has the smaller of the two values, whichever of them is there, on every assignment |
| MenuDeps.NewVisibleValue | build-tools/kconfig/menu.c:285-300 | the rewritten condition of a property has that value wherever it is y or n and what the steps of expr_eliminate_dups make of it where it is m; for a symbol that is not tristate it is n exactly where that is, and holds no `TRISTATE != n` |
| MenuDeps.RewrittenVisibility | build-tools/kconfig/menu.c:285-300 | across the whole rewriting of its prompts such a symbol stays visible exactly if, for some prompt, the smaller of the entry's and the prompt's own conditions is y, or is m and no cancelling step takes it to n |
| MenuDeps.VisibilityIsLost | build-tools/kconfig/menu.c:285-300 | a prompt with (FOO or BAR) and (not FOO and not BAR) does lose its visibility for FOO = BAR = m |
| MenuFinalization.MenuTree.Propagate | build-tools/kconfig/menu.c:282-307 | every child's condition and properties become the simplified conjunction with the parent's, all other entries stay, and rev_dep grows by exactly the selects of the children |
| MenuFinalization.MenuTree.PropagateTo | build-tools/kconfig/menu.c:283-306 | the same for one child |
| MenuFinalization.MenuTree.SelectByPrompt | build-tools/kconfig/menu.c:405-410 | a prompt of a symbol that is not optional adds m under the prompt's condition to what selects it, and nothing else |
| MenuFinalization.MenuTree.Belongs | build-tools/kconfig/menu.c:317-334 | an entry is re-parented if and only if its condition mentions the symbol and either depends on it or, compared with n and simplified, cancels the parent's prompt condition to y |
| MenuFinalization.MenuTree.AdoptLoop | build-tools/kconfig/menu.c:315-339 | the entry takes over exactly the following siblings that belong to it, up to the first that does not |
| MenuAdoption.ComparedValue | build-tools/kconfig/menu.c:314-329 | what is compared is the two-valued reading of the two conditions, simplified |
| MenuAdoption.AdoptionIsSound | build-tools/kconfig/menu.c:321-334 | where an adopted entry's condition holds, the parent's symbol is not n or its prompt is visible; a condition that is m has to hold in the two-valued reading |
| MenuAdoption.AdoptionUnderNot | build-tools/kconfig/menu.c:327-334 | why: an entry with `!X && !SYM` is adopted below a prompt with `X = n`, and X = m makes the first m and the second n |
| MenuAdoption.DependsMeansBelow | build-tools/kconfig/expr.c:802-829 | a condition that depends on a symbol in this sense is n wherever the symbol is |
| AdoptionLaws.DependsExactly | build-tools/kconfig/expr.c:802-829 | a condition depends on a symbol if and only if an operand of its outermost AND is the symbol, or compares it = y, = m or != n |
| AdoptionLaws.ContainsExactly | build-tools/kconfig/expr.c:778-800 | it contains the symbol if and only if the symbol occurs in it |
| AdoptionLaws.ComparedIsTerse | build-tools/kconfig/menu.c:311-330 | the compared conditions are simplified: no operand is left that another one of its spine makes redundant or that is cancelled by one |
| AdoptionLaws.BelongsExactly | build-tools/kconfig/menu.c:315-334 | which entries belong below another: with such an operand always; otherwise exactly if the condition mentions the symbol and has, in the form in which conditions are compared, all operands of the other's prompt condition, where that is an AND without constants |
| MenuFinalization.MenuTree.Flatten | build-tools/kconfig/menu.c:342-390 | children of entries without a prompt text are moved up behind them, repeatedly; all parent, list and next pointers stay right |
| MenuSteps.FlattenedIsShown | build-tools/kconfig/menu.c:381-390 | afterwards only entries with a prompt text have children, the order is kept, and a tree that was so already is left alone |
| MenuFinalization.MenuTree.Adopt | build-tools/kconfig/menu.c:311-340 | an entry without a list takes over the following siblings that belong to it, and the first that is left over does not |
| MenuFinalization.MenuTree.Finalize | build-tools/kconfig/menu.c:251-411 | declaration order kept, every entry of the subtree finalised exactly once, every parent pointer names the entry whose list holds it, siblings left over are untouched |
| MenuWalk.NextEntry | build-tools/kconfig/confdata.c:503-513 | from an entry to the next one in declaration order, climbing parent pointers without a stack |
| MenuWalk.Walk | build-tools/kconfig/confdata.c:448-514 | the walk from rootmenu.list visits every entry exactly once, in declaration order |
| MenuInheritance.RecordSpread | build-tools/kconfig/menu.c:277-307 | combining a list with its parent's condition keeps it true of every entry combined so far that it has its own condition under its parent's final one |
| MenuRecords.MovedIsTrue | build-tools/kconfig/menu.c:335-378 | giving an entry a new parent keeps the record true: the parent pointers are what the logged moves make of the declared ones; every take-over was of a sibling by one that was declared without children and that it belongs to; every other move was from a parent without a prompt text to the parent of that |
| MenuRecords.StoppedIsTrue | build-tools/kconfig/menu.c:315-340 | an entry that takes siblings over takes those that follow, each for itself or through one before it, up to the first that does not belong to it |
| MenuRecords.CountedIsTrue | build-tools/kconfig/menu.c:405-410 | what selects a symbol stays the strongest of the selects of all entries combined so far and of the prompts of all finalised ones |
| MenuRecords.SpreadIsTrue | build-tools/kconfig/menu.c:277-307 | combining conditions and adding the selects of a list keeps all of that, since the conditions of entries combined before no longer change |
| MenuFinalization.MenuTree.FinalizeThenWalk | build-tools/kconfig/menu.c:251-411 | menu_finalize on the root and then the walk: every entry finalised once, visited once in the order of declaration, left with a condition that has the smaller value of its own one and the final one of the entry it was declared below, and so for each prompt, default and select, wherever that is y or n (m as NewVisibleValue says); the parent pointers are the declared ones after moves that each fit the pointers of their time, namely take-overs of siblings, justified by the final conditions and sound by AdoptionIsSound, and moves from a parent without a prompt text to the one above; no sibling that belongs was left; what selects a symbol is the strongest of all selects and prompts |
| ConfReading.SymStringValid | build-tools/kconfig/symbol.c:520-561 | which strings are valid ints (no leading zero), hex numbers and so on, decided by the scanning loops |
| ConfLaws.IntExactly | build-tools/kconfig/symbol.c:527-540 | an int is a lone zero or digits that do not begin with zero, behind at most one minus sign |
| ConfLaws.HexExactly | build-tools/kconfig/symbol.c:541-549 | a hex number is one or more of the 22 hex digits, alone or behind 0x or 0X |
| ConfLaws.OtherTexts | build-tools/kconfig/symbol.c:520-561 | a string is any text, a logical value one that begins with y, m or n in either case, and symbols of other types have none |
| ConfLaws.LogicalAssignment | build-tools/kconfig/confdata.c:97-114 | only the first character of a logical symbol's text counts, m only for a tristate; other texts change nothing |
| ConfLaws.TextAssignment | build-tools/kconfig/confdata.c:129-138 | a text that is valid for its symbol is its user value from then on, any other is an error and changes nothing |
| ConfLaws.OtherAssignment | build-tools/kconfig/confdata.c:115-127 | a symbol that only the file knows becomes a string, unless its text begins with a quote, which is an error |
| ConfLaws.FindExactly | build-tools/kconfig/symbol.c:726-752 | a line speaks of the first symbol of its name, and of none if that is the name of y, m or n |
| ConfLaws.HeaderText | build-tools/kconfig/confdata.c:438-443 | the whole text of the header, with and without the time |
| ConfLaws.FileSays | build-tools/kconfig/confdata.c:448-500 | the file cut at any entry: before and after it what the other entries print, at its place the comment of a visible menu, or the line of a written symbol at its first entry, in the words of each case, or nothing |
| ConfReading.Config.SetSym | build-tools/kconfig/confdata.c:93-140 | the exact new type, user value and return code for every type |
| ConfReading.Config.ReadOne | build-tools/kconfig/confdata.c:204-299 | one line of the file: the symbol's user value and what its choice learns of it |
| ConfReading.Config.ReadSimple | build-tools/kconfig/confdata.c:184-301 | forgets the user values of all symbols but those of type S_OTHER, which have none, then applies every line that fgets delivers from a 1024 byte buffer |
| ConfReading.StillUnset | build-tools/kconfig/confdata.c:115-121 | a line never gives a symbol a user value and leaves it of type S_OTHER |
| ConfText.ChunksOfLine | build-tools/kconfig/confdata.c:204 | a line that fits comes back alone, one that fills the buffer comes back without its newline |
| ConfText.ParseAssign | build-tools/kconfig/confdata.c:241-256 | what is read from MKR_NAME=text |
| ConfText.ParseUnset | build-tools/kconfig/confdata.c:209-217 | what is read from the line of a symbol that is n |
| ConfWriting.ConfWrite | build-tools/kconfig/confdata.c:434-515 | the file is the header and then, in walk order, every visible menu's comment and every written symbol's line, each symbol once |
| ConfRoundTrip.WriteThenRead | build-tools/kconfig/confdata.c:184-301 | reading back what was written gives exactly the written symbols a user value, the one the writer saw |
| ConfRoundTrip.ReadBackExactly | build-tools/kconfig/confdata.c:239-271 | the line of a string, int or hex symbol gives its value back if and only if it is valid for its type, fits the buffer, has no newline and no trailing carriage return (unless the line fills the buffer) |
| ConfRoundTrip.ReadValuesAreShort | build-tools/kconfig/confdata.c:204-271 | whatever the file, a value read has no newline and shares the buffer with its name |
| ConfRoundTrip.ChoiceStep | build-tools/kconfig/confdata.c:280-299 | a choice's user value stays the maximum of its members', its pick a member that is y, and it is only unset when members are m and y |
| ConfRoundTrip.ChoiceReadBack | build-tools/kconfig/confdata.c:280-299 | if exactly one member was y, the choice's pick after reading is that member |
| ConfChoices.ChoiceAfterFile | build-tools/kconfig/confdata.c:280-299 | after any file a choice is worth the largest value that its members had after their lines, its pick is the last that was y, and it has lost its user flag if and only if a member was m after one had been y |
| FakerootProtocol.CanStart | build-tools/fakeroot-1.14.4/faked.c:1130-1138 | there is a start with any clients and any serial numbers: the semaphore is 1 and nothing is queued |
| FakerootProtocol.InvStep | build-tools/fakeroot-1.14.4/communicate.c:403-440 | every step of a client, the kernel or the daemon keeps: one holder of the semaphore, every message known, every waiter's request on its way |
| FakerootProtocol.ReturnsOwnAnswer | build-tools/fakeroot-1.14.4/communicate.c:515-569 | in every interleaving a client that returns was called last for some file, and holds the answer that one round of process_stat, at a step after that call, computed for exactly that file, that pid and that serial number from the table of that moment |
| FakerootProtocol.CallOf | build-tools/fakeroot-1.14.4/communicate.c:541-551 | the request that a client has sent is for the file of its latest call, with its own pid and the next serial number |
| FakerootQueue.FirstInFirstOut | build-tools/fakeroot-1.14.4/communicate.c:403-440 | in every run the daemon's queue is what was sent and not yet received, in order, and its buffer holds the last request received |
| FakerootQueue.TableIsOfRequests | build-tools/fakeroot-1.14.4/faked.c:819-838 | as long as no message is processed again after a signal, the daemon's table is what the requests received make of an empty one in the order in which they were sent |
| FakerootQueue.AnswerSeesAllEarlier | build-tools/fakeroot-1.14.4/communicate.c:541-559 | then a client gets the answer that follows from exactly the requests sent before its own, by whichever client, and none sent later |
| FakerootProtocol.ReplyWasComputed | build-tools/fakeroot-1.14.4/faked.c:819-838 | every reply that a client holds or can receive was put into the buffer by a step of the daemon, from the table of that moment |
| FakerootProtocol.AnsweringTwiceDiffers | build-tools/fakeroot-1.14.4/faked.c:747-773 | why once matters: a second round on the same buffer can answer from another node |
| FakerootProtocol.NoTheft | build-tools/fakeroot-1.14.4/communicate.c:541-559 | a reply to a live waiter's current request is never taken by another client |
| FakerootProtocol.StaleReplyIsReachable | build-tools/fakeroot-1.14.4/communicate.c:517-538 | a client killed while it waits leaves its answer in the queue for the next waiter, which is why the loop compares pid and serial number |
| FakerootProtocol.WaiterIsServed | build-tools/fakeroot-1.14.4/faked.c:819-838 | from every reachable state a waiting client can be served by daemon steps and its own receives alone, within a bound |
| FakedModel.ProcessInBuckets | build-tools/fakeroot-1.14.4/faked.c:613-795 | every request, with its in-place overwrites, keeps each node in the bucket of its own hash |
| FakedModel.LookupIsScan | build-tools/fakeroot-1.14.4/faked.c:232-243 | searching one bucket finds a match exactly when a scan of the whole table would |
| FakedModel.ForeignRequests | build-tools/fakeroot-1.14.4/faked.c:636-795 | any number of requests for other files leave a file's nodes as they are |
| FakedModel.StatAfterChown | build-tools/fakeroot-1.14.4/faked.c:747-773 | stat after chown of the same file, whatever comes in between for other files: the node that chown wrote if the stat request sees it, and otherwise what it would have been before |
| FakedLaws.ChownThenStat | build-tools/fakeroot-1.14.4/faked.c:636-677 | field by field: the ids asked for, for -1 the stored ones or root's, and everything else as it was |
| FakedLaws.ChmodThenStat | build-tools/fakeroot-1.14.4/faked.c:679-724 | after a chmod that the stat request sees: exactly the requested bits outside the file type; the stored type and all else as it was, and a file that was not known is root's |
| FakedLaws.KnownTypesAgree | build-tools/fakeroot-1.14.4/faked.c:707-711 | a known file of another type is only found by a request for a regular file, so the "incompatible" case of chmod never happens |
| FakedLaws.NewIsBuffered | build-tools/fakeroot-1.14.4/faked.c:718-723 | what chmod or mknod store for an unknown file is what they leave in the message buffer |
| FakedLaws.MknodThenStat | build-tools/fakeroot-1.14.4/faked.c:726-745 | after a mknod whose node still answers: the requested mode and device number, all else as it was |
| FakedLaws.StatOfKnown | build-tools/fakeroot-1.14.4/faked.c:747-773 | stat of a known file reports everything but the link count as stored |
| FakedLaws.StatOfUnknown | build-tools/fakeroot-1.14.4/faked.c:747-773 | stat of an unknown file reports what the caller saw, owned by root unless unknown_is_real is on |
| FakedModel.ChownIsReportedExactly | build-tools/fakeroot-1.14.4/faked.c:136-150 | for all ids passed, stat reports them (or for -1 the old one) if and only if both requests find the same node, or none and they match each other, and, with unknown_is_real on, the file was known or root's |
| FakedModel.SameTypeIsSeen | build-tools/fakeroot-1.14.4/faked.c:136-150 | requests of equal type see each other's node where no device node of the file is stored, whatever their sizes |
| FakedModel.SameKeyIsSeen | build-tools/fakeroot-1.14.4/faked.c:136-150 | so do requests of equal type that are both empty or both not |
| FakedModel.GrownFileLosesOwner | build-tools/fakeroot-1.14.4/faked.c:136-150 | where a device node is stored, the owner given to an empty file is not reported once the file has a size |
| FakedModel.UnlinkExactly | build-tools/fakeroot-1.14.4/faked.c:778-793 | after an unlink the file is still known, the "cannot happen" of the source, if and only if a later node of the chain answers for the same key |
| FakedLaws.UnlinkForgets | build-tools/fakeroot-1.14.4/faked.c:778-793 | an unlink of the last name makes a file with a single node unknown |
| FakedLaws.UnlinkKeepsLinked | build-tools/fakeroot-1.14.4/faked.c:778-793 | an unlink that leaves other names changes nothing |
| FakedModel.UnlinkCanLeaveTheFileKnown | build-tools/fakeroot-1.14.4/faked.c:136-150 | two chowns of one inode with different types and an empty unlink request make that happen |
| FakedDaemon.Daemon.Find | build-tools/fakeroot-1.14.4/faked.c:232-243 | the chain search of the class returns the first match, as the specification's lookup |
| FakedDaemon.Daemon.DataInsert | build-tools/fakeroot-1.14.4/faked.c:245-265 | the overwriting or appending loop does what the specification's insert does |
| FakedDaemon.Daemon.VisitAll | build-tools/fakeroot-1.14.4/faked.c:288-304 | iteration by data_node_next visits every node once, bucket by bucket |
| FakedDaemon.Daemon.DataSize | build-tools/fakeroot-1.14.4/faked.c:306-318 | counts exactly the nodes of all chains |
| FakedDaemon.Daemon.ProcessChown | build-tools/fakeroot-1.14.4/faked.c:636-677 | the whole new table after a chown request |
| FakedDaemon.Daemon.ProcessUnlink | build-tools/fakeroot-1.14.4/faked.c:778-793 | the whole new table after an unlink request |
| FakedDaemon.Daemon.ProcessMsg | build-tools/fakeroot-1.14.4/faked.c:809-815 | the dispatch: new table, new buffer, and a reply for stat requests only, where the function table has an entry for every number that is let through |
| FakedModel.DefinedExactly | build-tools/fakeroot-1.14.4/faked.c:809-815 | which is for every number but one: the bound lets 5 through and the table ends at 4 |
| FakedDaemon.Daemon.SaveDatabase | build-tools/fakeroot-1.14.4/faked.c:480-543 | the text written is the specified lines of the saved remote id's nodes in iteration order |
| FakedDaemon.Daemon.LoadDatabase | build-tools/fakeroot-1.14.4/faked.c:545-594 | the table becomes the old one with every scanned record inserted, and the result tells whether the input ended where a record could begin |
| FakedText.NumRoundTrip | build-tools/fakeroot-1.14.4/faked.c:525-540 | a 64-bit number printed in hex, octal or decimal reads back as itself when no digit follows |
| FakedText.NumExactly | build-tools/fakeroot-1.14.4/faked.c:576-577 | white space before a number is skipped, and without a digit after it nothing is converted |
| FakedText.SpaceExactly | build-tools/fakeroot-1.14.4/faked.c:576-577 | white space is the six characters of isspace |
| FakedText.DigitExactly | build-tools/fakeroot-1.14.4/faked.c:576-577 | digits are the ten and the six letters in either case, at their places |
| FakedText.LineRoundTrip | build-tools/fakeroot-1.14.4/faked.c:525-540 | a printed record is scanned back with all its fields |
| FakedText.FileRoundTrip | build-tools/fakeroot-1.14.4/faked.c:559-590 | the records read from a saved file are the saved remote id's nodes in order |
| FakedSaving.SaveLoadExactly | build-tools/fakeroot-1.14.4/faked.c:480-590 | save and load into an empty table rebuild the saved id's chains and all fields but size if and only if no saved node answers for a later one |
| FakedSaving.DistinctFilesDoNotClash | build-tools/fakeroot-1.14.4/faked.c:136-150 | which distinct (dev, ino) pairs guarantee |

## Left out

- DupElimination.CancelPassKeeps: says nothing of inputs that are m; `DupMods.ModAfterPass` does.
- DupElimination.Dups1: the two slots are paths into one tree value instead of pointers; writes and aliasing are modelled, allocation and freeing are not.
- ExprNodes.TransformInPlace: a `struct expr` union is one node pointer and one symbol pointer beside each other; freed nodes simply drop out of the tree.
- AdoptionLaws.BelongsExactly: exact where the compared conditions hold no constants and the entry's is an AND; for others `MenuTree.Belongs` only says which expressions are compared.
- FakedLaws.MknodThenStat: for stat requests that the stored node still answers after its mode was changed; for others `FakedModel.SameKeyIsSeen` and `SameTypeIsSeen` say which node is found.
- MenuAdoption.AdoptionIsSound: one direction, since an entry that is out of reach in this way need not be adopted (the test compares expressions, not values), and one that is m against the two-valued reading can be out of reach by chance. The conditions are those that menu_finalize has left, not the ones in the Kconfig file.
- MenuFinalization.MenuTree.Finalize: the choice branches (types of choice values, `choice = y` dependencies, the E_LIST of members), the warnings and the help texts are left out. The three link fields are maps from entries to entries.
- SymbolCalculation.SymbolTable.CalcValue: choices are modelled separately; `modules_val` is fixed during a calculation; `strtol` and `sprintf` are parameters; SYMBOL_CHANGED and the change counters are left out.
- DependencyCheck.Checker.CheckAll: choices are left out; warnings are counted, not printed.
- Choices.Choice.CalcValue: the write flags that the choice passes on to its members are left out. The values of everything outside the choice (members' own conditions, prompt, selects) are parameters that may change between calls; a default of a choice names one of its members, and members have no defaults of their own, which `menu_finalize` warns about.
- ConfWriting.ConfWrite: the values and write flags are those after `sym_calc_value`, given as a table; the banner (a translated text) and the time are parameters; file names, renames and the environment are left out.
- ConfReading.Config.ReadSimple: reads for S_DEF_USER only; the file holds no NUL bytes, and a last line that is a lone `#` without newline, which the source compares with stale buffer contents, changes nothing; warnings and the change counter are left out.
- ExprKeys.ExprEqIsKeyEquality: only for trees without y or n as operands. With them expr_eq is not decided by operands: what it answers for two operands and for the trees that hold them can differ (`ConstantsAreSeenThrough`).
- ExprKeys.CancelEqIsDifference: the same for constants inside the operands, and without zeros on the spine.
- ExprKeys.ContradictsExactly: the same for the operands of the negation.
- ExprKeys.ExtractCollects: the same.
- ExprPrinting.PrintUnambiguous: tokens, not characters, since strings are printed without quotes.
- FakedDaemon.Daemon.ProcessMsg: number 5, for which the source reads behind its table, has no defined effect and is excluded by `Defined`.
- FakerootProtocol.InvStep: the client's `msgrcv` is not interrupted, pids are distinct, serial numbers do not wrap around, and the daemon's loop does not run before a first message has arrived.
- FakerootQueue.AnswerSeesAllEarlier: for runs in which no message is processed a second time after a signal; with one the answer may differ (`AnsweringTwiceDiffers`), and `ReturnsOwnAnswer` says what holds in every run.
- FakedText.LineRoundTrip: `scanf` on text that `save_database` did not write (signs, 0x prefixes) is only modelled as far as digits and white space go.
- `sym_lookup`: hashing of names; symbols are values, looked up by name only when a file is read.
- E_LIST and E_RANGE inside the rewriter; `expr_trans_compare` with other symbols than n.
- `conf_read` after `conf_read_simple`, autoconf headers, `conf_set_all_new_symbols`, `sym_set_string_value`, `sym_toggle_tristate_value`.
- User interfaces, the Kconfig grammar, libfakeroot's wrappers, the TCP build of fakeroot, and all memory management.
