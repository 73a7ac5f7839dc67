# Kconfig and mkpimage, modelled and proved

This project models two parts of Buildroot and proves properties of the models.

**The Kconfig engine** (`buildroot/support/kconfig`) works with a three-valued logic
n < m < y. The modules follow its layers.

- *Expressions* (`expr.c`, `expr.h`). `Tristate` and `Expr` hold the logic, the
  expression trees and their reference semantics `Eval`. `ExprNormalForm`,
  `ExprEquality`, `ExprJoin`, `ExprSlots` and `ExprDuplicates` hold the rewriting
  passes: negation normal form, constant folding, equality by elimination, common
  factors, joining and elimination of duplicates. `ExprBags` says what comparing and
  extracting find, member by member. `ExprNodes` is copying, constant
  folding, the two rewritings and equality once more on nodes that are overwritten in
  place. `ExprPrint` prints an expression and reads it back.
- *Symbols* (`symbol.c`). `Kconfig` states what every symbol must hold (`Solves`), with
  no cache and no order of evaluation. `Solutions` shows that there is exactly one
  solution on an acyclic table. `Evaluator` is the evaluator with its cache bit,
  `UserChanges` the effect of a new user value, `Choice` the boolean choice groups,
  `DepCheck` the search for recursive dependencies, and `DepOrder` the bridge from a
  check without a report to an acyclic table.
- *Menus* (`menu.c`). `MenuTree` holds the first-child / next-sibling / parent links and
  the walk of the writers, `Submenu` the submenu decision, `MenuState` what finalization
  does to dependencies, `MenuArrange` where it puts the entries, and `MenuFinalize`
  finalization itself. `MenuTable` leads from the finalized menus to the symbol table and
  its dependency check, as the end of `conf_parse` does. `MenuMeaning` says what entries
  inherit and what their selects and definitions amount to. `BooleanConditions` says what
  boolean conditions do to configurations, and `MenuRewriting` carries that over to the
  table that finalization leaves behind.
- *Configuration files* (`confdata.c`). `ConfText` is the quoting of strings,
  `ConfFile` the records and their reader, `Defconfig` the meaning of a minimal
  configuration, `ConfWriter` its writer.

`Sequences` holds what is needed of sequences without repetition.

**mkpimage** (`buildroot/package/mkpimage/mkpimage.c`) builds boot images. `Crc` relates
its table-driven checksum to polynomial division; `Mkpimage` is the header, the branch
instruction and the program.

## What holds, and what does not

The main results are the following.

1. The cached evaluator computes the unique solution: whatever is cached, and in whatever
   order symbols are asked for, every answer is that of the uncached rules
   (`Evaluator`, `Solutions`).
2. A sweep of the dependency check reports a recursion exactly if there is a cycle.
   Without a report its finishing order makes evaluation well defined, and a table that can
   be numbered is never reported (`DepCheck`, `DepOrder`).
3. Saving a minimal configuration and reading it back restores every symbol if and only
   if no symbol is *lost*. This is shown for the meaning (`Defconfig.RoundTrip`), for the
   lines of the file (`ConfFile.FileRoundTrip`) and for the writing method
   (`ConfWriter.WriteDefconfig`). A boolean, or a tristate without modules, is never lost.
   The configuration is minimal: none of its symbols can be left out (`SavedIsNeeded`).
4. `expr_eliminate_dups` ends and keeps every y and every n. In the result, and in every
   list within it, no two members are equal or superfluous together, as a boolean beside
   its negation is, and no member has its complement in another part of the list.
   `expr_eq` is sound and reflexive, and of lists of simple members it holds exactly if
   they have the same members. `expr_transform` keeps the value and has exactly the normal
   forms as its fixed points.
5. `menu_finalize` keeps the order of all entries through every move and finalizes each
   entry once. Every entry ends up with the dependency of its *declared* parent, and the
   selects and leaf dependencies of the whole tree are added to the symbols, whatever was
   moved. The final tree is given outright (`Arrange`): an entry sits under its declared
   parent or under an earlier sibling whose submenu test it passes, or, past entries
   without a prompt text, under one that those sit under (`SitsUnderOwner`). The stackless
   walk then meets the entries in declaration order, each once. The symbol table that is
   left behind meets what `DepOrder` needs, so that parsing without a report ends with a
   table that can be evaluated (`MenuTable.FinishParsing`).
6. In a boolean choice at y, a member holds y exactly if it is the chosen one and is
   visible with y; without modules, or with boolean members, exactly one member is at y as
   soon as one is visible.
7. The table-driven CRC is the remainder of the division by the generator polynomial, and
   every image whose header fits is self-consistent.
8. Making the conditions of all symbols but tristates boolean keeps a configuration if and
   only if no target of a select is *weakened* (`BooleanConditions.CollectedKeptIff`). That
   is what finalization does: the table it leaves behind has exactly the configurations of
   the rewritten one (`MenuRewriting.FinalizedIsRewritten`, `FinalizedKeptIff`).
9. What is in range for `sym_set_tristate_value` is exactly what the symbol would evaluate
   to (`InRangeIffHonoured`).

The code does not always do what its names, comments or tests suggest. The model follows
the code, and these cases are stated as lemmas.

- A tristate that is visible as m, selected as m and defaults to y does not survive a
  minimal configuration (`LostLogical`, `LostExists`).
- `sym_set_tristate_value` accepts the value a symbol already has without looking at its
  range. A default above visibility and selects is then lost at the next evaluation
  (`ConfirmedLost`); the value is kept if and only if it is within bounds
  (`ConfirmedKeptIff`, `ConfirmedSolvesIff`).
- `menu_finalize` makes the conditions of all symbols but tristates boolean, which is
  harmless for the symbol itself. The condition of a select is copied into the reverse
  dependency of its target, though, and a tristate target may then be selected with m
  instead of y (`RewrittenSelectDiffers`). `RevDifference` gives the difference for all
  tables.
- `expr_trans_bool` under a NOT of the comparison FOO!=n, and `expr_trans_compare` under
  a NOT, change the value where the operand is m (`TransBoolUnderNotDiffers`,
  `TransCompareNotOfMod`), and only there (`TransBoolUnderNotIff`, `TransCompareNotIff`).
- `expr_trans_compare` and `expr_depends_symbol` compare the string of a symbol. For a
  symbol that is never defined that is its name, so `UNDEF!=n` is y although UNDEF is n
  (`TransCompareUndefined`). For a single symbol the comparison is right if and only if the
  symbol is a boolean, a tristate or a built-in constant, or its string is "n" where it is
  compared with n, and not "y" where it is compared with y (`TransCompareSymbolIff`).
- An entry may be placed under a symbol and be visible while both the symbol and the
  condition of its prompt are n: with S depending on BAZ=n, an entry that depends on
  `!BAZ && (S || X)` passes the test, and is m with BAZ at m and X at y
  (`AcceptedWhileVisible`). It is off with the symbol or with the prompt condition if in
  both conditions NOT stands over nothing that can be m and all operands are booleans,
  tristates or built-in constants (`AcceptedOff`).
- Without choices the sweep of `conf_parse` over `sym_check_deps` never counts an error:
  a recursion is printed, but the call that found it first returns NULL
  (`DepChecker.CheckAll`).
- `expr_alloc_or` treats NULL as the empty disjunction, although NULL is y everywhere
  else. An unconditional definition therefore adds nothing to the direct dependencies of a
  symbol that has another definition (`UnconditionalForgotten`). The result is the
  disjunction of the definitions if and only if all of them are conditional, or all are
  unconditional, or a conditional one is in force (`DirDepIsDisjunctionIff`).
- With modules, a choice at y may have a visible member and yet no member at y
  (`NoMemberYes`).
- The shortest programs that mkpimage accepts under version 1 without the barebox header
  leave no room for the branch behind the header (`FitsExactly`). With 81 to 84 bytes the
  CRC is written over the branch, and the entry point leads to the program only if the CRC
  happens to be that very instruction (`OverwrittenBranch`). With 80 bytes the branch
  would be written past the end of the buffer.

## Conventions

A valuation gives every symbol a tristate and a string. `WellFormed` is what the
evaluator guarantees: constants denote themselves, a boolean is never m, the string of a
boolean or tristate spells its value, and different constants have different strings.
`SolutionWellFormed` proves it of every solution, and `ValuationExists` shows that it can
be met. NULL expressions are `None`. The value of the modules symbol is a parameter of a
table. Pointers to expressions into one list are paths in the list (`ExprSlots`), since
both arguments of the duplicate elimination point into the same tree.

## Model

| member | source | states |
|---|---|---|
| Expr.AllocAndValue | buildroot/support/kconfig/expr.c:48-53 | allocating a conjunction of nullable expressions has the value of the conjunction, NULL being y |
| Expr.ValuationExists | buildroot/support/kconfig/expr.c:938-977 | every assignment of values to the declared symbols, m only for tristates, extends to a valuation as the evaluator guarantees it |
| ExprEquality.EliminateYN | buildroot/support/kconfig/expr.c:231-312 | folding constants never enlarges a tree |
| ExprEquality.EliminateYNMeaning | buildroot/support/kconfig/expr.c:231-312 | folding constants keeps the value under every valuation |
| ExprEquality.EliminateYNFolds | buildroot/support/kconfig/expr.c:231-312 | the result has no constant below AND/OR; folding changes exactly the trees that have one, and strictly shrinks them |
| ExprEquality.EliminatePass | buildroot/support/kconfig/expr.c:130-162 | neither tree grows in a pass of the elimination; with the sizes the mutual recursion with expr_eq ends |
| ExprEquality.EliminatePassFactors | buildroot/support/kconfig/expr.c:130-162 | each pass takes one common part out of both expressions: old1 = op(new1, c) and old2 = op(new2, c) in every valuation |
| ExprEquality.ExprEqSound | buildroot/support/kconfig/expr.c:189-229 | expressions reported equal have the same value under every valuation |
| ExprEquality.ExprEqReflexive | buildroot/support/kconfig/expr.c:189-229 | every expression is reported equal to itself, although the elimination overwrites both copies on the way |
| ExprBags.ExprEqIff | buildroot/support/kconfig/expr.c:189-229 | lists of symbols, comparisons and their negations, y and n apart, are equal exactly if they have the same members, each as often, in whatever order and grouping |
| ExprBags.PassStrikesCommon | buildroot/support/kconfig/expr.c:130-162 | a pass strikes out exactly the members that both lists have, as often as both have them |
| ExprBags.NothingLeftIff | buildroot/support/kconfig/expr.c:164-187 | nothing but y is left of a conjunction of such members exactly if the first expression is a conjunction that has them all |
| ExprBags.ExtractsAllIff | buildroot/support/kconfig/expr.c:826-875 | the extraction takes all members out of a list exactly if the other list has them all |
| ExprEquality.EliminateEqContext | buildroot/support/kconfig/expr.c:164-187 | both inputs are their leftovers put back into one common context |
| ExprEquality.LeftoverYesImplies | buildroot/support/kconfig/expr.c:164-187 | if only y is left of the second expression, the first is n wherever the second was |
| ExprEquality.PassComplete | buildroot/support/kconfig/expr.c:130-162 | a pass of the elimination leaves the two lists no common member but y and n |
| ExprEquality.PassThins | buildroot/support/kconfig/expr.c:130-162 | a pass changes no member except to the neutral constant |
| ExprEquality.ExtractEqFactors | buildroot/support/kconfig/expr.c:848-875 | extraction with an accumulator takes one common part out of both sides and adds exactly that part to the accumulator |
| ExprEquality.ExtractFactors | buildroot/support/kconfig/expr.c:826-875 | the extracted part put back under the operator restores both sides in every valuation |
| ExprEquality.ExtractComplete | buildroot/support/kconfig/expr.c:848-875 | the extraction changes no member except to the neutral constant and leaves the two lists no common member but the constants |
| ExprNormalForm.Transform | buildroot/support/kconfig/expr.c:636-771 | transforming never raises the weight in which NOT dominates the copying of De Morgan's rules, so the recursion ends |
| ExprNormalForm.TransformMeaning | buildroot/support/kconfig/expr.c:636-771 | the transformation keeps the value under every valuation with two-valued booleans |
| ExprNormalForm.TransformNormal | buildroot/support/kconfig/expr.c:636-771 | the result is in negation normal form, NOT standing only over symbols that are not constants |
| ExprNormalForm.TransformFixesNormal | buildroot/support/kconfig/expr.c:636-771 | the expressions the transformation leaves alone are exactly the normal forms |
| ExprNormalForm.TransformIdempotent | buildroot/support/kconfig/expr.c:636-771 | transforming twice is transforming once |
| ExprNormalForm.TransBoolKeepsNo | buildroot/support/kconfig/expr.c:317-341 | with NOT over symbols only, the rewriting keeps "is n" in both directions and never raises a value |
| ExprNormalForm.TransBoolFlat | buildroot/support/kconfig/expr.c:317-341 | the rewriting keeps NOT over symbols only |
| ExprNormalForm.TransBoolUntested | buildroot/support/kconfig/expr.c:317-341 | the rewriting leaves no comparison T!=n of a tristate, and changes exactly the expressions that have one |
| ExprNormalForm.TransBoolUnderNotDiffers | buildroot/support/kconfig/expr.c:317-341 | under a NOT of a comparison the rewriting can turn n into something else |
| ExprNormalForm.TransBoolUnderNotIff | buildroot/support/kconfig/expr.c:317-341 | under a NOT of FOO!=n, FOO a tristate, the rewriting keeps "is n" if and only if FOO is not m |
| ExprNormalForm.TransCompareMeaning | buildroot/support/kconfig/expr.c:877-936 | comparing with y or n pushed to the symbols is y or n exactly as the comparison of the whole is, if no NOT has an operand at m and every operand is spelled by its string |
| ExprNormalForm.LogicalLeavesSpelled | buildroot/support/kconfig/expr.c:877-936 | operands that are boolean, tristate or built-in constants are spelled by their strings |
| ExprNormalForm.TransCompareSymbolIff | buildroot/support/kconfig/expr.c:877-936 | for a single symbol the pushed comparison is right if and only if it is a boolean, a tristate or a built-in constant, or its string is not "y" where compared with y, and is "n" where compared with n |
| ExprNormalForm.TransCompareUndefined | buildroot/support/kconfig/expr.c:797-824 | UNDEF!=n is y for a symbol that is never defined, although the symbol is n and counts as depended on |
| ExprNormalForm.TransCompareNotOfMod | buildroot/support/kconfig/expr.c:877-936 | under a NOT whose operand is m the pushed comparison is wrong |
| ExprNormalForm.TransCompareNotIff | buildroot/support/kconfig/expr.c:877-936 | over an operand that is compared exactly itself, the comparison pushed under a NOT is right if and only if the operand is not m |
| ExprNormalForm.DependsSymbolMeaning | buildroot/support/kconfig/expr.c:797-824 | a dependency on a symbol is n wherever the symbol is n, its string included |
| ExprNormalForm.ContainsSymbolIff | buildroot/support/kconfig/expr.c:773-795 | an expression contains a symbol wherever it stands, on either side of a comparison too |
| ExprJoin.JoinOrMeaning | buildroot/support/kconfig/expr.c:346-408 | every rule of expr_join_or gives exactly the disjunction, also where symbols are m |
| ExprJoin.JoinIff | buildroot/support/kconfig/expr.c:346-502 | two members are joined exactly if they are equal or superfluous together: OR of a boolean and its negation, of two values of a tristate; AND of two excluded values, of a value and an excluded one, of a symbol and =y, !=n or !=m of it |
| ExprJoin.ComparisonsOfTristate | buildroot/support/kconfig/expr.c:410-502 | the rules of expr_join_and on two comparisons give exactly the conjunction |
| ExprJoin.JoinMeaning | buildroot/support/kconfig/expr.c:346-502 | a join has exactly the value of the two operands together, in three values |
| ExprJoin.JoinSmall | buildroot/support/kconfig/expr.c:346-502 | a join is smaller than its operands together and not a list of the same operator |
| ExprSlots.AtPut | buildroot/support/kconfig/expr.c:504-554 | overwriting one slot of a list changes that slot and no other |
| ExprSlots.PutTwo | buildroot/support/kconfig/expr.c:504-554 | the value of a list after two of its slots were overwritten, from the value of the rest |
| ExprDuplicates.EliminateDups1 | buildroot/support/kconfig/expr.c:504-554 | the nested loop over pairs of slots keeps the value exactly in three values; it counts no change only if nothing joins any more, and a change leaves a constant behind |
| ExprDuplicates.JoinMembersMeaning | buildroot/support/kconfig/expr.c:504-554 | joining members keeps the value under every valuation, also where symbols are m |
| ExprDuplicates.JoinMembersCount | buildroot/support/kconfig/expr.c:504-554 | a count of zero means that the list is unchanged and that no two members join; a change leaves a constant behind; NOT stays over symbols |
| ExprDuplicates.EliminateDups2 | buildroot/support/kconfig/expr.c:556-610 | the complement rules keep every y and n result and only sharpen m; no change is counted only if there is no complement, and a change leaves a constant behind |
| ExprDuplicates.StrikeMembersMeaning | buildroot/support/kconfig/expr.c:556-610 | striking complements keeps every y and n under every valuation |
| ExprDuplicates.StrikeMembersCount | buildroot/support/kconfig/expr.c:556-610 | a count of zero means that the list is unchanged and that no member that is a list has its complement in another part; a change leaves a constant behind |
| ExprDuplicates.UncomplementedAll | buildroot/support/kconfig/expr.c:556-610 | after a pass without change no member that is a list has its complement in any node of the list |
| ExprDuplicates.ComplementFound | buildroot/support/kconfig/expr.c:569-610 | if the complement of a member is contained in the rest of the list, making the member absorbing keeps every y and n |
| ExprDuplicates.EliminateDups | buildroot/support/kconfig/expr.c:612-634 | the loop ends; the result keeps every y and n; in its list, and in every list within it, no two distinct members are equal or superfluous together and none has its complement elsewhere in the list |
| ExprDuplicates.WithoutDupsMeaning | buildroot/support/kconfig/expr.c:612-634 | all rounds together keep every y and n under every valuation |
| ExprDuplicates.WithoutDupsIrredundant | buildroot/support/kconfig/expr.c:612-634 | no rule applies to the result any more, nor to any list within it, and NOT stays over symbols |
| ExprDuplicates.OppositeIsYes | buildroot/support/kconfig/expr.c:394-398 | A \|\| !A is y for a boolean A, in either order |
| ExprDuplicates.NoComplementWithin | buildroot/support/kconfig/expr.c:569-610 | no part of a list without complements has all members of the complement of another member |
| ExprDuplicates.WithoutDupsIdempotent | buildroot/support/kconfig/expr.c:612-634 | simplifying twice is simplifying once |
| ExprDuplicates.SettledIrredundant | buildroot/support/kconfig/expr.c:504-554 | after a round without change no two distinct slots of the list are expr_eq or superfluous together |
| ExprDuplicates.SharperIsExact | buildroot/support/kconfig/expr.c:612-634 | under a two-valued valuation the simplification is exact, if the constant m does not occur |
| ExprNodes.Copy | buildroot/support/kconfig/expr.c:62-97 | the copy spells the same expression on new nodes, none of them shared |
| ExprNodes.Fold | buildroot/support/kconfig/expr.c:231-312 | overwriting the nodes of a tree in place yields the folded expression from nodes of that tree, unshared |
| ExprNodes.MakeBool | buildroot/support/kconfig/expr.c:317-341 | the same for making a condition boolean |
| ExprNodes.Normalize | buildroot/support/kconfig/expr.c:636-771 | the same for the transformation, which adds a node for each list under a NOT |
| ExprNodes.Same | buildroot/support/kconfig/expr.c:189-229 | comparing two trees on copies leaves both as they are and answers as the function does |
| ExprNodes.Cancel | buildroot/support/kconfig/expr.c:164-187 | eliminating common parts overwrites two separate trees, leaves them separate and yields both leftovers of the function |
| ExprNodes.CancelPass | buildroot/support/kconfig/expr.c:130-162 | the same for one pass, leaf by leaf through both trees |
| ExprPrint.Printer.Print | buildroot/support/kconfig/expr.c:1053-1123 | the callbacks emit exactly the tokens of the expression, with brackets where the enclosing operator binds tighter |
| ExprPrint.Printer.PrintPtr | buildroot/support/kconfig/expr.c:1053-1123 | NULL is printed as y |
| ExprPrint.BracketsNeeded | buildroot/support/kconfig/expr.c:1053-1123 | as many brackets are printed as there are OR lists directly under an AND and AND/OR lists directly under a NOT |
| ExprPrint.PrintReadsBack | buildroot/support/kconfig/expr.c:979-1123 | a reader with the precedences ! over && over \|\| gets the printed expression back, chains associated to the left |
| ExprPrint.PrintKeepsValue | buildroot/support/kconfig/zconf.y:469-476 | the value survives printing and reading, NULL included |
| ExprPrint.LeftToRightMeaning | buildroot/support/kconfig/zconf.y:76-79 | re-association of the chains keeps the value |
| ExprPrint.PrintAlike | buildroot/support/kconfig/expr.c:1053-1123 | two expressions print alike exactly if they differ in the association of chains only |
| Solutions.SolutionUnique | buildroot/support/kconfig/symbol.c:293-440 | on an acyclic table the evaluation rules have at most one solution |
| Solutions.SolutionExists | buildroot/support/kconfig/symbol.c:293-440 | and they have one |
| Solutions.SolutionWellFormed | buildroot/support/kconfig/symbol.c:293-440 | in a solution booleans are never m, strings spell tristates, and without modules nothing declared is m |
| Solutions.SolutionsAgreeBelow | buildroot/support/kconfig/symbol.c:293-440 | two configurations with the same user values on a set closed under reference agree on that set |
| Evaluator.SymbolTable.CalcExpr | buildroot/support/kconfig/expr.c:938-977 | evaluating an expression, symbols being evaluated on the way, gives its value in the solution |
| Evaluator.SymbolTable.CalcVisibility | buildroot/support/kconfig/symbol.c:189-227 | visibility, direct and reverse dependency are those of the solution |
| Evaluator.SymbolTable.GetDefault | buildroot/support/kconfig/symbol.c:115-125 | the value and condition of the default property whose condition is not n while that of every default before it is, if there is one |
| Kconfig.DefaultOfIff | buildroot/support/kconfig/symbol.c:115-125 | the default in force is that of the first default property whose condition is not n; there is none exactly if the conditions of all are n |
| Kconfig.DefaultTriReach | buildroot/support/kconfig/symbol.c:359-366 | a default gives a boolean or tristate what both its value and its condition reach |
| Kconfig.DefaultValIff | buildroot/support/kconfig/symbol.c:395-403 | the default of a string, int or hex symbol is the value of the symbol that the first default names |
| Kconfig.VisibleOfIff | buildroot/support/kconfig/symbol.c:189-201 | a symbol is visible exactly if the condition of some prompt is not n; as m exactly if no such condition is y and it is a tristate with modules |
| Kconfig.RevOfIff | buildroot/support/kconfig/symbol.c:217-225 | the reverse dependency is n or m exactly as its expression is, m counting as y for a boolean and without modules |
| Kconfig.DirOfIff | buildroot/support/kconfig/symbol.c:208-216 | the direct dependency is n exactly if its expression is, and y otherwise, also without one |
| Evaluator.SymbolTable.CalcValue | buildroot/support/kconfig/symbol.c:293-440 | although SYMBOL_VALID is set before the value is known, from any cache whose finished entries are right the symbol and everything evaluated on the way gets its value in the solution, and symbols still in progress are untouched |
| Evaluator.SymbolTable.Recalculate | buildroot/support/kconfig/symbol.c:312-440 | the computation behind the cache test leaves all facts of the symbol as in the solution |
| Evaluator.SymbolTable.CalcLogical | buildroot/support/kconfig/symbol.c:339-384 | the boolean and tristate branch, with the write flag |
| Evaluator.SymbolTable.CalcString | buildroot/support/kconfig/symbol.c:385-407 | the string, int and hex branch, with the write flag |
| Evaluator.SymbolTable.Ask | buildroot/support/kconfig/symbol.c:760-782 | the string of a symbol does not depend on what was cached before |
| Evaluator.SymbolTable.AskAll | buildroot/support/kconfig/symbol.c:293-440 | a sweep in any order leaves every symbol asked for with its facts in the solution |
| Evaluator.SymbolTable.ClearAllValid | buildroot/support/kconfig/symbol.c:442-452 | an empty cache is consistent with whatever user values are stored |
| Evaluator.SymbolTable.SetTristateValue | buildroot/support/kconfig/symbol.c:493-527 | accepted exactly for the current value or a value in range; a new value is what the next evaluation gives; a refusal changes nothing; after a confirmation the cache is right exactly if the value is within bounds |
| UserChanges.AcceptedIsHonoured | buildroot/support/kconfig/symbol.c:474-527 | a value in range is what the symbol evaluates to afterwards |
| UserChanges.InRangeIffHonoured | buildroot/support/kconfig/symbol.c:474-491 | a value is in range exactly if visibility is above the selects and the symbol would evaluate to it |
| UserChanges.UnreachingKept | buildroot/support/kconfig/symbol.c:474-527 | every symbol that does not reach the changed one keeps all its facts |
| UserChanges.ConfirmedKeptIff | buildroot/support/kconfig/symbol.c:493-499 | a confirmed value survives exactly if the symbol is invisible or the value lies within visibility and selects |
| UserChanges.ConfirmedSolvesIff | buildroot/support/kconfig/symbol.c:493-499 | the whole configuration stays what it was exactly if the confirmed value is within bounds |
| UserChanges.ConfirmedLost | buildroot/support/kconfig/symbol.c:493-499 | a tristate with its prompt at m and default y holds y, and m once y was confirmed |
| Choice.PickOrder | buildroot/support/kconfig/symbol.c:235-291 | the chosen member: the user's if visible, else the first applicable default that names a visible member, else the first visible member, else none |
| Choice.AppliesIff | buildroot/support/kconfig/symbol.c:244-252 | a default applies exactly if its condition is not n and it names a visible member |
| Choice.MemberYes | buildroot/support/kconfig/symbol.c:342-345 | a member holds y exactly if it is the chosen one and is visible with y |
| Choice.ExactlyOne | buildroot/support/kconfig/symbol.c:261-291 | a choice at y with a visible member stays at y; some member holds y exactly if the chosen one is visible with y, and no other member does |
| Choice.VisibleIsYes | buildroot/support/kconfig/symbol.c:199-200 | without modules, and for boolean members, visible means visible with y |
| Choice.ExactlyOneYes | buildroot/support/kconfig/symbol.c:261-291 | without modules, or with boolean members, a choice at y with a visible member has exactly one member at y, the chosen one |
| Choice.NoMemberYes | buildroot/support/kconfig/symbol.c:274-282 | a choice at y with a visible tristate member and no member at y |
| Choice.OffWithoutChoice | buildroot/support/kconfig/menu.c:305-328 | no member is visible while the choice is n |
| Choice.ChosenMemberIsYes | buildroot/support/kconfig/symbol.c:507-519 | choosing a member visible with y keeps the choice at y and moves the y to that member alone |
| Choice.ChoosingIsHonoured | buildroot/support/kconfig/symbol.c:507-524 | what is recorded for a chosen member that is visible with y makes it alone y, and marks all visible members as set by the user, so that the next evaluation lets the choice stand |
| Choice.VisibleAsSymbol | buildroot/support/kconfig/symbol.c:189-201 | the choice and its members are visible as any symbol is |
| Choice.ChoiceAsSymbol | buildroot/support/kconfig/symbol.c:339-384 | the tristate of the choice is that of a symbol without defaults |
| Choice.MemberAsSymbol | buildroot/support/kconfig/symbol.c:339-384 | a member that is not visible with y has the tristate of a symbol that nothing selects |
| Choice.RangeAsSymbol | buildroot/support/kconfig/symbol.c:474-491 | the range of a member is that of other symbols, except that only y is in it for a member visible with y |
| Choice.ConfirmedMemberKept | buildroot/support/kconfig/symbol.c:507-519 | confirming the member at y changes no member |
| Choice.InheritedFromChoice | buildroot/support/kconfig/menu.c:305-328 | every dependency and property condition that an entry inherits from a choice is n with the choice |
| Choice.ChoiceEvaluator.CalcChoice | buildroot/support/kconfig/symbol.c:261-291 | the pointer to the chosen member and the tristate of the choice; its user flag survives only if every visible member has one |
| Choice.ChoiceEvaluator.ChoiceDefault | buildroot/support/kconfig/symbol.c:235-259 | the first applicable default, else the first visible member |
| Choice.ChoiceEvaluator.CalcValue | buildroot/support/kconfig/symbol.c:293-440 | a member, whose visibility may first force the choice, gets its reference value, and other members keep theirs |
| Choice.ChoiceEvaluator.Ask | buildroot/support/kconfig/symbol.c:293-440 | asking for one symbol of the group keeps every evaluated member right |
| Choice.ChoiceEvaluator.AskAll | buildroot/support/kconfig/symbol.c:293-440 | from an empty cache with arbitrary stale values, whichever symbol of the group is asked for first, all end up with their reference values |
| Choice.ChoiceEvaluator.SetTristateValue | buildroot/support/kconfig/symbol.c:493-527 | which values of a member are accepted, what is then recorded for the member, the choice and the visible members, and that confirming a value leaves the cache alone |
| DepCheck.TopologicalHasNoCycle | buildroot/support/kconfig/symbol.c:1153-1216 | a finishing order in which every symbol follows what it depends on excludes cycles |
| DepCheck.DepChecker.CheckDeps | buildroot/support/kconfig/symbol.c:1255-1287 | the check ends, leaves the symbol checked, and every report closes a path of symbols on the check stack |
| DepCheck.DepChecker.CheckExprDeps | buildroot/support/kconfig/symbol.c:1153-1182 | without a report every symbol of the expression is finished |
| DepCheck.DepChecker.CheckProps | buildroot/support/kconfig/symbol.c:1196-1210 | without a report everything that visibility and default expressions name is finished; selects are skipped |
| DepCheck.DepChecker.Report | buildroot/support/kconfig/symbol.c:1081-1151 | what is printed is a cycle |
| DepCheck.DepChecker.CheckAll | buildroot/support/kconfig/zconf.y:510-513 | the sweep reports exactly if the relation of reverse dependencies, visibilities and defaults has a cycle; without a report the finishing order is topological; the error count stays zero |
| DepOrder.UnreportedIsAcyclic | buildroot/support/kconfig/symbol.c:1255-1287 | the finishing order of a check without a report numbers the table so that evaluation is defined and independent of order, and the conditions of P_SYMBOL properties are numbered too |
| DepOrder.NumberedHasNoCycle | buildroot/support/kconfig/symbol.c:1184-1216 | conversely, a table that can be numbered, the conditions of P_SYMBOL properties included, has no cycle; the conditions of selects do not count |
| Submenu.TestNotNo | buildroot/support/kconfig/menu.c:339-341 | where comparing with n at the symbols is exact, the simplified test "not n" says y or n exactly as the condition is not n or n |
| Submenu.NotNoMeaning | buildroot/support/kconfig/menu.c:339-341 | the same of the function that the test computes |
| Submenu.AcceptsEntry | buildroot/support/kconfig/menu.c:343-360 | an accepted entry names the symbol and is n wherever the symbol is n, or else wherever its prompt condition is n and comparing the two conditions with n at the symbols is exact; everything that depends on the symbol outright is accepted |
| Submenu.AcceptedSound | buildroot/support/kconfig/menu.c:343-360 | an entry that passes the test is off with the symbol, or with the condition of its prompt in all valuations where comparing both with n at the symbols is exact |
| Submenu.AcceptedOff | buildroot/support/kconfig/menu.c:343-360 | if in both conditions NOT stands over nothing that can be m and the operands are logical or built-in constants, an accepted entry is off with the symbol or with the condition of its prompt in all valuations |
| Submenu.AcceptedWhileVisible | buildroot/support/kconfig/menu.c:343-360 | otherwise it need not be: an entry that is placed under S and is m while S and the condition of its prompt are n |
| Submenu.DependsAccepted | buildroot/support/kconfig/menu.c:343-349 | an entry that depends on the symbol outright passes the test |
| Submenu.DependsSymbolIff | buildroot/support/kconfig/expr.c:797-824 | an entry depends on a symbol outright exactly if its condition is a conjunction with the symbol, S=y, S=m or S!=n as a member |
| Submenu.AcceptedIff | buildroot/support/kconfig/menu.c:343-360 | where the condition of the prompt comes down to basic tests that must all hold: accepted exactly if the entry names the symbol and depends on it outright or its own test is a conjunction with all of these |
| Submenu.AcceptedUnconditional | buildroot/support/kconfig/menu.c:343-360 | without a condition on the prompt, every entry that names the symbol is accepted |
| Submenu.SubmenuOff | buildroot/support/kconfig/menu.c:338-363 | over booleans, an entry placed under a symbol is n where both the symbol and its prompt condition are |
| MenuTree.Walk | buildroot/support/kconfig/confdata.c:673-729 | the stackless walk ends and visits exactly the preorder of the tree below the root, each entry once |
| MenuTree.LinkedDistinct | buildroot/support/kconfig/confdata.c:673-729 | entries that the parent, child and sibling pointers arrange in a forest below a root are all different |
| MenuTree.Climb | buildroot/support/kconfig/confdata.c:720-728 | the step from an exhausted entry leads to the next entry of the preorder or ends the walk |
| MenuTree.HoistLinked | buildroot/support/kconfig/menu.c:412-421 | the pointer assignments of the hoisting give the sibling list with the children behind their entry |
| MenuState.AddAllValue | buildroot/support/kconfig/expr.c:55-60 | a dependency built with expr_alloc_or reaches a value exactly if it did before or one of the added reasons does |
| MenuState.AddedValue | buildroot/support/kconfig/menu.c:329-333 | the same for reasons added in any order |
| MenuState.DirDepIsDisjunctionIff | buildroot/support/kconfig/menu.c:370-370 | the direct dependency of a symbol is the disjunction of its definitions if and only if all are conditional, all are unconditional, or a conditional one is in force |
| MenuState.DirDepAlwaysDisjunctionIff | buildroot/support/kconfig/menu.c:370-370 | the same over all valuations: the conditional definitions are never all n together |
| MenuState.UnconditionalForgotten | buildroot/support/kconfig/expr.c:55-60 | an unconditional definition beside one whose condition is n leaves the direct dependency at n |
| MenuState.EffectJoin | buildroot/support/kconfig/menu.c:336-337 | finalizing one part of a list and then another has the effect of finalizing both |
| MenuState.TransBoolSameOff | buildroot/support/kconfig/menu.c:323-328 | a condition made boolean is n where the conjunction is n and not n where it is y |
| MenuState.RestrictedMeaning | buildroot/support/kconfig/menu.c:317-328 | what becomes of a property: its condition is the simplified conjunction with the dependency of the entry, and for a symbol other than a tristate it is made boolean and compares no tristate with n |
| BooleanConditions.FactsKeptIff | buildroot/support/kconfig/menu.c:323-333 | with boolean conditions, the rules give all symbols the same facts if and only if they give all of them the same reverse dependencies |
| BooleanConditions.VisibleKept | buildroot/support/kconfig/menu.c:323-328 | with boolean conditions every symbol is as visible as before |
| BooleanConditions.DefaultValueKept | buildroot/support/kconfig/menu.c:323-328 | a boolean or tristate has a default in force exactly if it had one before, and defaults and selects together give it the same value |
| BooleanConditions.SolutionKeptIff | buildroot/support/kconfig/symbol.c:195-201 | a solution survives the boolean conditions if and only if all reverse dependencies keep their values |
| BooleanConditions.RevDifference | buildroot/support/kconfig/menu.c:329-333 | with reverse dependencies built from the selects, a weakened target has m instead of y, and every other symbol the same reverse dependency |
| BooleanConditions.CollectedKeptIff | buildroot/support/kconfig/menu.c:323-333 | a configuration survives if and only if no target of a select is weakened |
| BooleanConditions.HarmlessKept | buildroot/support/kconfig/menu.c:323-333 | for all user values, if every select by a symbol other than a tristate has an effectively boolean target or a condition that is boolean already |
| BooleanConditions.RewrittenSelectDiffers | buildroot/support/kconfig/menu.c:323-333 | a table where a tristate is selected with y as declared and with m after its condition was made boolean |
| BooleanConditions.TristateWouldChange | buildroot/support/kconfig/menu.c:326-327 | made boolean, the prompt condition of a tristate would change its visibility |
| MenuFinalize.Conjoin | buildroot/support/kconfig/menu.c:312-314 | the simplified conjunction of an inherited and an own condition keeps every y and n of the conjunction |
| MenuState.ConjoinedSimplified | buildroot/support/kconfig/menu.c:312-322 | every dependency that is handed down is simplified already, and conjoining nothing to it leaves it as it is |
| MenuFinalize.MenuBuilder.Propagate | buildroot/support/kconfig/menu.c:312-334 | the dependency and all property conditions of an entry are conjoined with the parent's, those of symbols other than tristates made boolean, and its selects are added to their targets |
| MenuFinalize.MenuBuilder.PropagateAll | buildroot/support/kconfig/menu.c:311-335 | exactly the entries of one child list inherit, and nothing else changes |
| MenuFinalize.MenuBuilder.Hoist | buildroot/support/kconfig/menu.c:372-422 | entries without a prompt text give their children to the parent; the list is exactly the hoisted one, and order, parent pointers and all other links are right |
| MenuArrange.HoistedOrder | buildroot/support/kconfig/menu.c:412-421 | hoisting keeps the order |
| MenuArrange.HoistedPrompted | buildroot/support/kconfig/menu.c:412-421 | hoisting leaves no entry without a prompt text with children |
| MenuArrange.HoistedFixed | buildroot/support/kconfig/menu.c:412-421 | the lists that hoisting leaves alone are exactly those in which only entries with a prompt text have children |
| MenuArrange.ArrangeOrder | buildroot/support/kconfig/menu.c:336-422 | moving entries into submenus and out of entries without a prompt text keeps the order of all entries |
| MenuArrange.ArrangeAppend | buildroot/support/kconfig/menu.c:336-363 | a list is arranged part by part, as long as no symbol at the end of one part takes in the first entry of the next |
| MenuArrange.SitsUnderOwner | buildroot/support/kconfig/menu.c:336-422 | in the arranged tree an entry sits under its declared parent or an earlier sibling without declared children whose test it passes, or is reached from there past entries without a prompt text |
| MenuArrange.NextNotTaken | buildroot/support/kconfig/menu.c:339-368 | a symbol declared without children takes in all it can: what follows it in the arranged list does not pass its test |
| MenuArrange.TakesInSound | buildroot/support/kconfig/menu.c:343-360 | an entry that was taken in is off with the symbol or, where comparing with n at the symbols is exact, with the condition of its prompt |
| MenuFinalize.MenuBuilder.Reparent | buildroot/support/kconfig/menu.c:413-417 | all entries of a list get the new parent, and the last one is found |
| MenuFinalize.MenuBuilder.AdoptAccepted | buildroot/support/kconfig/menu.c:339-363 | the followers that the test accepts, up to the first that is not accepted, are finalized and get the entry of the symbol as their parent |
| MenuFinalize.MenuBuilder.TakeIn | buildroot/support/kconfig/menu.c:364-368 | the three assignments after the loop cut the accepted followers out of the sibling list |
| MenuFinalize.MenuBuilder.FinalizeLeaf | buildroot/support/kconfig/menu.c:338-371 | the branch of a symbol without children: its children are then exactly the run of arranged followers that pass the test, which the next one does not; its dependency is added to the direct dependencies of the symbol |
| MenuFinalize.MenuBuilder.FinalizeInner | buildroot/support/kconfig/menu.c:306-337 | the branch of an entry with children: they inherit from it and are finalized in turn |
| MenuFinalize.MenuBuilder.Finalize | buildroot/support/kconfig/menu.c:279-422 | the entry and the followers it took in become exactly the arranged entry; preorder kept, parents right, each entry finalized once, everything outside unchanged, dependencies inherited along the declared tree |
| MenuFinalize.FinalizeMenus | buildroot/support/kconfig/zconf.y:509-509 | for the whole tree: the final tree is exactly the arranged one; the walk meets the declared order, each entry once; every entry inherited from its declared parent; the symbols got exactly the selects of all entries and the dependencies of all leaves |
| MenuMeaning.OffBelow | buildroot/support/kconfig/menu.c:306-328 | where an entry or its prompt is n, nothing declared below it is in force, in however many levels |
| MenuMeaning.ReverseDependencyIff | buildroot/support/kconfig/menu.c:329-333 | the reverse dependency of a symbol reaches a value exactly if some entry selects it with a symbol and a condition that do |
| MenuMeaning.DirectDependencyIff | buildroot/support/kconfig/menu.c:370-370 | the direct dependency of a symbol reaches a value exactly if the dependency of some definition without declared children does |
| MenuRewriting.FinalizedIsRewritten | buildroot/support/kconfig/menu.c:312-334 | the finalized table is the one with plain conjunctions, its conditions made boolean and its reverse dependencies collected from the selects |
| MenuRewriting.FinalizedKeptIff | buildroot/support/kconfig/menu.c:323-333 | a configuration is one both of the finalized table and of the plain one if and only if no target of a select is weakened |
| MenuTable.DirDepRecurs | buildroot/support/kconfig/menu.c:312-370 | every declared symbol in the direct dependency of a symbol recurs in the condition of its P_SYMBOL property, so the check follows it |
| MenuTable.FinalizedWellReferenced | buildroot/support/kconfig/menu.c:312-370 | the table that finalization leaves behind meets what numbering it by the finishing order needs, if it holds every symbol that is named |
| MenuTable.CheckTable | buildroot/support/kconfig/zconf.y:510-513 | the check of a table reports exactly if it has a cycle; without a report a well-referenced table can be numbered and evaluated, and a table that can be numbered is not reported |
| MenuTable.FinishParsing | buildroot/support/kconfig/zconf.y:509-513 | finalizing the menus and checking all symbols: a report exactly if the finalized table has a cycle, and otherwise a table that can be evaluated |
| Defconfig.RoundTrip | buildroot/support/kconfig/confdata.c:661-732 | saving a minimal configuration and reading it back restores all facts if and only if no symbol is lost |
| Defconfig.SymbolReproduced | buildroot/support/kconfig/confdata.c:684-700 | a symbol whose dependencies are restored is restored if and only if it is not lost |
| Defconfig.SavedIsNeeded | buildroot/support/kconfig/confdata.c:690-692 | no saved symbol can be left out: without a user value for it, whatever the others have, the configuration is another one |
| Defconfig.SavedIsMinimal | buildroot/support/kconfig/confdata.c:661-732 | if nothing is lost, the whole minimal configuration gives the configuration back and no part of it does |
| Defconfig.LostLogical | buildroot/support/kconfig/symbol.c:784-787 | a boolean or tristate is lost exactly if it is a tristate with modules, visible as m, selected as m, with default y and a user value |
| Defconfig.UnselectedStringNotLost | buildroot/support/kconfig/symbol.c:693-758 | a string symbol that nothing selects is never lost |
| Defconfig.RoundTripWithoutModules | buildroot/support/kconfig/confdata.c:657-732 | configurations of booleans, tristates without modules and unselected strings are always restored |
| Defconfig.LostExists | buildroot/support/kconfig/confdata.c:688-692 | a table with one symbol whose configuration is not restored |
| ConfText.EscapeString | buildroot/support/kconfig/symbol.c:915-956 | both passes: the buffer has exactly the size of the quoted and escaped text and its terminator |
| ConfText.UnescapeEscape | buildroot/support/kconfig/symbol.c:915-956 | unescaping undoes escaping for every string, whatever follows the closing quote |
| ConfText.DropChar | buildroot/support/kconfig/confdata.c:162-162 | memmove by one character within the terminated buffer |
| ConfText.UnescapeInPlace | buildroot/support/kconfig/confdata.c:154-168 | the in-place loop succeeds exactly if there is a closing quote and then leaves exactly the unescaped text, terminated |
| ConfFile.RecordParses | buildroot/support/kconfig/confdata.c:480-501 | a printed record is taken apart into the name and the printed value |
| ConfFile.SettingReadsBack | buildroot/support/kconfig/confdata.c:119-188 | a printed value is accepted and stored as the value it was printed for |
| ConfFile.RecordReadsBack | buildroot/support/kconfig/confdata.c:310-371 | a whole record, quoted string, y, m, number or "is not set", reads back to its value |
| ConfFile.ReadConfig | buildroot/support/kconfig/confdata.c:310-371 | the reading loop applies the lines one after another to a cleared table |
| ConfFile.SettingIff | buildroot/support/kconfig/confdata.c:346-357 | a line sets a value exactly if it is the prefix, a name, an equal sign and the value |
| ConfFile.NotSetIff | buildroot/support/kconfig/confdata.c:311-318 | a line unsets a name exactly if it is a comment with the prefix, the name and "is not set" |
| ConfFile.StripEndIff | buildroot/support/kconfig/confdata.c:351-356 | the value ends at the first newline, or at one carriage return before it |
| ConfFile.LogicalSettingIff | buildroot/support/kconfig/confdata.c:124-147 | of a value for a boolean or tristate only the first character counts, and m only for a tristate |
| ConfFile.StringSettingQuoted | buildroot/support/kconfig/confdata.c:155-169 | a value for a string counts only between quotes |
| ConfFile.ValidIntIff | buildroot/support/kconfig/symbol.c:559-571 | an int is accepted exactly if it is a decimal number without leading zeros, with or without a minus sign |
| ConfFile.ValidHexIff | buildroot/support/kconfig/symbol.c:572-580 | a hex is accepted exactly if it consists of hexadecimal digits, with or without 0x or 0X |
| ConfFile.EntryChanges | buildroot/support/kconfig/confdata.c:311-371 | a line changes at most the symbol it names, and "is not set" only booleans and tristates |
| ConfFile.LastLineCounts | buildroot/support/kconfig/confdata.c:306-371 | the lines count in their order, the last one last |
| ConfFile.LinesReadBack | buildroot/support/kconfig/confdata.c:661-732 | reading the lines of a minimal configuration leaves exactly the saved user values |
| ConfFile.OneLineEach | buildroot/support/kconfig/confdata.c:673-700 | every saved symbol has one line, however many menu entries it has |
| ConfFile.LinesInOrder | buildroot/support/kconfig/confdata.c:673-729 | the lines come in the order of the menu entries |
| ConfFile.FileRoundTrip | buildroot/support/kconfig/confdata.c:661-732 | the round trip through the lines of the file restores the configuration if and only if nothing is lost |
| ConfWriter.StringDefaultOf | buildroot/support/kconfig/symbol.c:693-758 | the default string of an evaluated symbol |
| ConfWriter.PrintRecord | buildroot/support/kconfig/confdata.c:480-640 | the record of a symbol, with strings escaped and n printed as "is not set" |
| ConfWriter.WriteDefconfig | buildroot/support/kconfig/confdata.c:661-732 | the loop, evaluating symbols as it goes, writes exactly the lines of the minimal configuration of the solution |
| Crc.DivideWord | buildroot/package/mkpimage/mkpimage.c:150-158 | sending the bits of a word is adding the word to the register and sending zeros |
| Crc.PolyOfGenerator | buildroot/package/mkpimage/mkpimage.c:104-106 | 0x04c11db7 is the generator polynomial of section 3.2.9 of IEEE 802.3 without x^32 |
| Crc.TableIsRemainder | buildroot/package/mkpimage/mkpimage.c:104-148 | every table entry is the remainder of its index followed by zeros |
| Crc.StepDivides | buildroot/package/mkpimage/mkpimage.c:154-155 | one round with a table of remainders divides the eight bits of the byte |
| Crc.Crc32 | buildroot/package/mkpimage/mkpimage.c:150-158 | for every buffer and start value the result is the register after the division of all bits, most significant bit of each byte first |
| Crc.PolyDeterminesWord | buildroot/package/mkpimage/mkpimage.c:150-158 | a word is determined by its polynomial, so the division determines the checksum |
| Mkpimage.BranchDecodes | buildroot/package/mkpimage/mkpimage.c:163-171 | decoded with sign extension the branch leads to its destination exactly if that is a whole number of words away and within 32 megabytes |
| Mkpimage.Branch | buildroot/package/mkpimage/mkpimage.c:163-171 | writes the four bytes of the branch and nothing else |
| Mkpimage.SumBytes | buildroot/package/mkpimage/mkpimage.c:237-239 | the loop computes the sum of the bytes before the checksum field |
| Mkpimage.SumDetects | buildroot/package/mkpimage/mkpimage.c:237-239 | the sum tells when a single byte of the header before it is changed |
| Mkpimage.PutCrc | buildroot/package/mkpimage/mkpimage.c:249-252 | the last word is the complemented remainder of everything before it, little endian |
| Mkpimage.CrcUnique | buildroot/package/mkpimage/mkpimage.c:249-252 | there is only one word that is the CRC of a message |
| Mkpimage.AddHeader | buildroot/package/mkpimage/mkpimage.c:175-255 | refused exactly if the size is not a multiple of four; otherwise length, sum, entry point and CRC describe the final bytes if the header ends before the CRC, and nothing else changes |
| Mkpimage.FitsExactly | buildroot/package/mkpimage/mkpimage.c:299-328 | the accepted programs whose header ends before the CRC, and the one size whose header would not fit into the buffer |
| Mkpimage.AcceptedIff | buildroot/package/mkpimage/mkpimage.c:299-328 | a program is accepted exactly if the image fills no more than 60 or 224 kilobytes and there is room for the header |
| Mkpimage.BareboxBranches | buildroot/package/mkpimage/mkpimage.c:45-66 | both branches of the barebox header lead to where the program is put, and its other vectors are loops |
| Mkpimage.BareboxStarts | buildroot/package/mkpimage/mkpimage.c:340-356 | an image with the barebox header starts with the branch to the program |
| Mkpimage.OverwrittenBranch | buildroot/package/mkpimage/mkpimage.c:191-252 | in an image whose CRC lies over the branch, the entry point leads to the program if and only if the CRC is that branch |
| Mkpimage.Load | buildroot/package/mkpimage/mkpimage.c:336-356 | padding, barebox header and program in the new buffer |
| Mkpimage.Build | buildroot/package/mkpimage/mkpimage.c:299-374 | refused exactly if the size is out of bounds, and past the buffer exactly for 80 bytes under version 1 without barebox; the image has a multiple of four bytes, a right CRC and the program outside the header; it is consistent if the header fits, and otherwise right but for the branch |

## Left out

- E_LIST and E_RANGE expressions, P_RANGE clamping of int and hex values, environment symbols, SYMBOL_AUTO, SYMBOL_CHANGED and the random and all-yes configurations: more cases, no new kind of proof.
- Choices outside `Choice`: tristate choices, the write flags of members, nested choices, `sym_check_choice_deps`, the choice branches of `menu_finalize` (with the reverse dependency of choices on m) and of the writers.
- The value of the modules symbol changing during evaluation: it is a parameter of the table.
- Sharing and freeing of expression nodes. `ExprNodes` overwrites nodes in place for copying, folding, the two rewritings and equality. The duplicate elimination, whose two pointers lead into the same tree, the joins and the extraction work on values: the pointers are paths in a list (`ExprSlots`), an assignment through one is a new value, and `trans_count` is passed in and returned.
- `expr_trans_compare` against m: its callers use n only.
- CalcValue: does not model choices, the clamping of numbers to a range, and the modules symbol among the symbols evaluated; nor do Recalculate, CalcLogical and CalcString.
- Recalculate: as CalcValue, without `sym_validate_range` and the branches for choices.
- CalcString: the value before it is clamped to a range.
- ClearAllValid: the modules symbol is not evaluated again.
- CheckDeps: choices and their members are not checked; nor in CheckAll.
- CheckAll: tables without choices.
- Report: records the symbols of the cycle, not the property that leads from one to the next.
- Hoist: the choice branches of the same loop are not modelled; nor are those of FinalizeInner, Finalize and FinalizeMenus.
- FinalizeInner: the branch of a choice with children, which sets types and uses the choice as the dependency.
- Finalize: menu trees without choices; the warnings at the end and the SYMBOL_WARNED flag are not modelled.
- FinalizeMenus: menu trees without choices; nor does FinishParsing have any.
- CheckTable: as CheckAll, tables without choices.
- FinishParsing: that every symbol named in the menus is in the symbol table is a condition of the result, since entering names into the table is part of the parser.
- WriteDefconfig: the branch for choice values is not modelled.
- ChoiceEvaluator.CalcValue: the write flags of members and the symbols outside the group are not computed.
- AcceptedIff: where the condition of the prompt comes down to a disjunction, or to y or n, which entries are accepted beyond the outright dependents is not characterised further.
- ExprEqIff: lists that hold other lists or the constants y and n are covered by ExprEqSound and PassComplete only; so for ExtractsAllIff.
- AcceptsEntry: an accepted entry is off with the prompt condition only in valuations where comparing both conditions with n at the symbols is exact; outside them the source is wrong (`AcceptedWhileVisible`). So too for AcceptedSound and TakesInSound.
- Build: for 80 bytes under version 1 without the barebox header the outcome is only `Overrun`, since C does not define what writing past the buffer does.
- BooleanConditions: the two tables differ in the boolean conditions alone; the other simplifications of conditions are in `MenuState` and `ExprDuplicates`.
- Symbol, property and menu records are maps from symbols or entries to values and not objects; the evaluator, the finalizer, the dependency check and the choice evaluator are classes over such maps.
- The reader of `ExprPrint` works on tokens that carry their symbol; the characters of names, the quoting of constants and the lexer are not part of the model. It follows the precedences of the grammar, not the tables of the generated parser.
- conf_read after the lines are read (clearing user values that are out of range, counting unset symbols), comments for menus, `auto.conf` and the other output formats, symbol lookup and expansion of `$`.
- Reading and writing files, command-line parsing, allocation failures, messages and translation.
- mkpimage stores the CRC word in the byte order of the machine; the model assumes little endian.
- The other packages, drivers, scripts and front ends of the repository.
