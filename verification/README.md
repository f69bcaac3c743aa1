# Configuration engine, stream placement and dependency fixer: a verified model

The main part models the Kconfig engine in `scripts/kconfig`: a compiler and evaluator for dependency
expressions over the three values no < mod < yes, where AND is the minimum, OR the maximum and NOT is 2 - x.

| file | what it holds |
|---|---|
| `Tristates.dfy`, `Exprs.dfy` | the three values, symbols, expression trees and their value in an environment |
| `Rewrites.dfy` | constant folding, negation normal form, comparison pushing, the two occurrence tests |
| `Equality.dfy`, `EqualityTerms.dfy` | cancelling common terms, equality by cancelling, factoring out; the same seen on lists of terms |
| `Duplicates.dfy`, `DuplicatesGone.dfy` | joining terms and the two passes of duplicate elimination; which terms join, and that none of them are left |
| `ExprNodes.dfy` | the rewriters on nodes in the heap, overwritten in place, each equal to its function on trees |
| `Ranges.dfy` | decimal and hex text, the range check of int and hex symbols |
| `SymbolRules.dfy`, `SymbolMeaning.dfy`, `SymbolTheory.dfy` | the value of a symbol as one equation for each symbol; what the equations mean; existence and uniqueness of solutions; choices |
| `SymbolReads.dfy` | what a value is computed from, directly and in the end; what does not depend on MODULES |
| `SymbolCache.dfy` | the changing part of the symbols, what the VALID flags promise and what an evaluation leaves alone |
| `SymbolSet.dfy`, `SymbolKeep.dfy` | the user values after a set and what they come to; when a set that changes no value may keep the cache |
| `SymbolTable.dfy` | the evaluator with its VALID flags, setting and toggling of values |
| `DepCheck.dfy`, `DepCycles.dfy`, `CheckedEval.dfy` | the detector of recursive dependencies, where its cycles are values that are computed from themselves, and an evaluation after it has been silent |
| `MenuDeps.dfy`, `Menus.dfy`, `MenuWalk.dfy` | inheriting conditions, re-linking of the menu tree, the walk with no stack |
| `MenuShape.dfy`, `MenuMeaning.dfy`, `MenuConfig.dfy` | what hoisting brings into a list, what the conditions of the finalized menu mean, and the configuration it hands to evaluation |
| `ExprText.dfy`, `ExprGrammar.dfy` | printing of expressions and the shift/reduce reader; the grammar it accepts and the round trip |
| `ConfText.dfy`, `ConfFile.dfy` | escaping, unescaping in the line buffer, writing and reading configuration files |

Two smaller cores follow the same pattern: `VideoBoards.dfy` models the placement of video streams on boards
(slots, load accounting, least-loaded choice), and `FixDep.dfy` with `DepFile.dfy` models `fixdep` (a
newline-separated buffer used as a set, the scanner that fills it, and the dependency file that names what is scanned).

Conventions. An environment gives every symbol a tristate and a string; in a well-typed one a bool symbol is never
mod. A missing expression is `None` and means yes. Code that the repository writes as recursion over trees is a
function; code that overwrites fields, buffers or links is a method on a class or an array, proved equal to such a
function, and the promises are lemmas about the functions. A `Rank` numbers a set of symbols such that everything a
value in the set is computed from is in it with a smaller number; results about values hold on every such set, in
whatever configuration it lies.

Where a law is false in general, the model keeps the code and says when the law holds:

- Duplicate elimination applies laws of two-valued logic, so a mod result may become definite. A definite result
  never changes (`EliminateDupsRefines`); mod survives where no chain holds a chain of the other connective
  (`EliminateDupsExactOnFlat`); a single contradiction step is exact exactly if the chain is not mod
  (`ContradictionStepExactIff`); `ModMayBecomeNo` shows an input whose mod becomes no.
- Pushing a comparison under NOT is exact exactly if the negated part is not mod (`TransCompareOfNotExactIff`), and
  a chain compared with m is given back unchanged, which is right exactly where it is no (`TransCompareWithModExactIff`).
  A symbol that stands alone is compared by its string, which for an int, hex or string symbol need not say what its
  tristate says (`BareAgree`).
- Clearing the cache works out MODULES once, under the value it had. What comes out is right if it is that value again
  or if nothing MODULES is computed from is tristate (`ClearAllValid`); `ModulesMayFlip` shows a configuration in which
  it never is.
- Setting a symbol to the value it has keeps the cache, which is right if and only if `MayKeepCache` holds before
  (`SetSameIff`): always for symbols that are neither a choice nor picked in one; for a choice unless it is no though
  selected as mod (`TristateChoiceMoves`); for a picked member unless the choice or another member gets a value that
  counts where none did (`DefaultGivesWay`).
- A silent dependency check does not rule out that a symbol is computed from itself through a choice
  (`SilentButCyclic`); what can be evaluated is exactly what is not (`RankIffAcyclic`).
- `expr_trans_bool` does not keep "non-no" under NOT (`TransBoolUnderNot`); it does on normal forms.
- Deleting a stream that the device refuses to drop gives its slot and load back but not its count
  (`Board.DelOnce`); a channel number chosen by hand can be given out again (`HandNumberingCollides`).
- Two options whose names differ only in case are recorded twice but print the same header (`SameHeaderIff`), and
  a marker inside a name is counted again (`MarkerInsideName`).
- A dependency file whose last name is followed by more than one separator does not read back: the code takes a
  negative length or a longer name (`SplitReadsBack`).
- A last line of a single # with no newline is read on into what an earlier line has left in the buffer
  (`LoneHashReadsOn`).
- A range with its bounds the wrong way round gives a value that the range test then refuses
  (`ValidateRangeAcceptedIff`).

## Model

| member | source | states |
|---|---|---|
| Exprs.EvalDependsOnSymbols | scripts/kconfig/expr.c:942-981 | the value of an expression depends only on the symbols in it |
| Exprs.ModFreeIsDefinite | scripts/kconfig/expr.c:942-981 | where no symbol is mod, no expression is |
| Rewrites.EliminateYnExact | scripts/kconfig/expr.c:235-316 | folding y and n away keeps the value in all three values |
| Rewrites.EliminateYnShrinks | scripts/kconfig/expr.c:235-316 | it never grows the tree, and shrinks it strictly if a y or n stood under a connective |
| Rewrites.EliminateYnLeavesNoConst | scripts/kconfig/expr.c:235-316 | afterwards no y or n stands under AND, OR or NOT |
| Rewrites.DeMorganIsLighter | scripts/kconfig/expr.c:720-737 | the weight that makes expr_transform end: a De Morgan step lowers it although the tree grows |
| Rewrites.TransformExact | scripts/kconfig/expr.c:640-775 | expr_transform keeps the value in every well-typed environment |
| Rewrites.TransformNormalizes | scripts/kconfig/expr.c:640-775 | it ends in normal form: NOT only on symbols other than y, m, n, no bool compared with y or n |
| Rewrites.TransformFixesNormalForms | scripts/kconfig/expr.c:640-775 | an expression is left as it is if and only if it is in that form |
| Rewrites.TransformIdempotent | scripts/kconfig/expr.c:640-775 | transforming twice is transforming once |
| Rewrites.TransBoolKeepsNonNo | scripts/kconfig/expr.c:321-345 | on negation normal forms expr_trans_bool keeps whether the value is non-no |
| Rewrites.TransBoolUnderNot | scripts/kconfig/expr.c:325-340 | under a NOT it keeps that if and only if the compared symbol is not mod |
| Rewrites.TransCompareExact | scripts/kconfig/expr.c:881-940 | comparing with y or n by pushing it inwards gives yes or no exactly as the value compares, if no negated part is mod and the string of each symbol that stands alone compares as its tristate does |
| Rewrites.TransCompareOfNotExactIff | scripts/kconfig/expr.c:912-913 | for a negation: if and only if the negated part is not mod |
| Rewrites.TransCompareWithModExactIff | scripts/kconfig/expr.c:881-940 | comparing any expression with m is right if and only if the part below the negations is right: a chain if it is no (yes under an odd number of negations), a comparison if it is not negated, a symbol if its string answers for it |
| Rewrites.TristatesAgree | scripts/kconfig/expr.c:881-940 | for bool and tristate symbols and the built-in ones the string always compares as the value does |
| Rewrites.ContainsSymbolCorrect | scripts/kconfig/expr.c:777-799 | the occurrence test finds exactly the symbols of the expression |
| Rewrites.DependsSymbolSound | scripts/kconfig/expr.c:801-828 | if it answers yes, a non-no expression makes the symbol non-no |
| Rewrites.DependsSymbolIff | scripts/kconfig/expr.c:801-828 | it answers yes exactly if one of the terms the expression is the conjunction of is the symbol, its comparison with y or m, or its being other than n |
| Equality.ElimEqInSplits | scripts/kconfig/expr.c:135-166 | whatever is cancelled is the same on both sides: both old values are one and the same factor combined with the new ones |
| Equality.ExprEqSound | scripts/kconfig/expr.c:193-233 | if expr_eq answers yes, both expressions have the same value in every well-typed environment |
| Equality.EliminateEqBounds | scripts/kconfig/expr.c:168-188 | what is left over bounds the sides: if the base is left as yes, dep is at most base everywhere |
| Equality.EliminateEqKeepsEquality | scripts/kconfig/expr.c:168-188 | sides that are equal after cancelling were equal before |
| Equality.ExtractEqSplits | scripts/kconfig/expr.c:852-879 | factoring out collects terms common to both sides and loses none of the value |
| Equality.ExtractEqFoldBounds | scripts/kconfig/expr.c:830-850 | the factor and the two rests give back both values, after folding |
| EqualityTerms.ElimIsCancelAll | scripts/kconfig/expr.c:135-166 | cancelling two trees is going through their lists of terms from left to right, each term against the first equal one of the other side |
| EqualityTerms.CancelAllApart | scripts/kconfig/expr.c:135-166 | terms are only replaced by the unit, and no term that is left on one side equals one on the other, apart from y, n and quoted constants |
| EqualityTerms.EliminateEqLeavesApart | scripts/kconfig/expr.c:168-188 | the same of expr_eliminate_eq with its folding, for both connectives, where the two expressions have no y or n to fold |
| EqualityTerms.FoldingMayMeet | scripts/kconfig/expr.c:168-188 | with an n to fold, two sides that share a term afterwards |
| EqualityTerms.ExprEqReflexive | scripts/kconfig/expr.c:193-233 | every expression without y, n or a quoted constant under a connective equals itself |
| EqualityTerms.TwoConstantsUnequal | scripts/kconfig/expr.c:147-149 | an expression with two quoted constants that does not equal itself |
| EqualityTerms.NamedGroups | scripts/kconfig/expr.c:168-188 | of two chains of named symbols cancelling leaves each what it has more often than the other |
| EqualityTerms.NamedGroupsEqualIff | scripts/kconfig/expr.c:193-233 | two such chains are equal if and only if they have the same symbols equally often |
| EqualityTerms.NamedGroupsUsedUpIff | scripts/kconfig/expr.c:168-188 | nothing is left of one of them if and only if the other has all of its symbols as often |
| Duplicates.JoinOrExact | scripts/kconfig/expr.c:350-412 | a join of two OR terms has the value of the OR in all three values |
| Duplicates.JoinAndExact | scripts/kconfig/expr.c:414-506 | a join of two AND terms has the value of the AND in all three values |
| Duplicates.Dups1Exact | scripts/kconfig/expr.c:508-558 | the first pass keeps the value exactly, through pointers to two terms of one tree |
| Duplicates.ContradictionStepExactIff | scripts/kconfig/expr.c:560-614 | one step of the second pass keeps the value of the chain if and only if that value is not mod |
| Duplicates.Dups2Refines | scripts/kconfig/expr.c:560-614 | the second pass never changes a definite value |
| Duplicates.EliminateDupsLoop | scripts/kconfig/expr.c:616-638 | the loop ends, because each round that joins leaves a constant that folding removes, and computes EliminateDups |
| Duplicates.EliminateDupsRefines | scripts/kconfig/expr.c:616-638 | in every well-typed environment a definite verdict stays as it is |
| Duplicates.EliminateDupsExactWithoutMod | scripts/kconfig/expr.c:616-638 | where no symbol is mod the value is kept exactly |
| Duplicates.EliminateDupsIdempotent | scripts/kconfig/expr.c:616-638 | eliminating twice is eliminating once |
| Duplicates.EliminateDupsKeepsNnf | scripts/kconfig/expr.c:616-638 | negation normal form survives |
| Duplicates.EliminateDupsExactOnFlat | scripts/kconfig/expr.c:560-638 | where no chain holds a chain of the other connective all three values are kept |
| Duplicates.ModMayBecomeNo | scripts/kconfig/expr.c:560-638 | (A or B) and (not A and not B), which is mod for two mod symbols, is rewritten to an expression that is no |
| DuplicatesGone.JoinOrIff | scripts/kconfig/expr.c:350-412 | two OR terms are joined exactly if they are equal, or compare a tristate symbol with two of y, m and n, or are a bool symbol and its negation |
| DuplicatesGone.JoinAndIff | scripts/kconfig/expr.c:414-506 | two AND terms are joined exactly if they are equal or one of the listed pairs about one symbol |
| DuplicatesGone.EliminateDupsLeavesNone | scripts/kconfig/expr.c:508-638 | in the result no chain that AND and OR nodes lead to has two equal terms |
| DuplicatesGone.EliminateDupsLeavesApart | scripts/kconfig/expr.c:508-638 | nor the chain at the root two terms that join, nor a chain among its terms that contradicts another term |
| ExprNodes.Copy | scripts/kconfig/expr.c:67-102 | a copy shares no node with the original and is the same tree |
| ExprNodes.EliminateYn | scripts/kconfig/expr.c:235-316 | the node-overwriting fold leaves the tree that the function gives |
| ExprNodes.TransBool | scripts/kconfig/expr.c:321-345 | the same for expr_trans_bool |
| ExprNodes.Transform | scripts/kconfig/expr.c:640-775 | the same for expr_transform, with its reuse of nodes |
| ExprNodes.ElimEqIn | scripts/kconfig/expr.c:135-166 | cancelling in place in two disjoint trees leaves the pair that the function gives |
| ExprNodes.EliminateEq | scripts/kconfig/expr.c:168-188 | the same for expr_eliminate_eq |
| ExprNodes.ExprEq | scripts/kconfig/expr.c:193-233 | expr_eq destroys only its copies and answers as the function |
| Ranges.PrintNatReadsBack | scripts/kconfig/symbol.c:144-158 | decimal text of a number reads back as the number |
| Ranges.PrintIntReadsBack | scripts/kconfig/symbol.c:160-191 | so does the printed bound, for every int, and the text is a valid int string |
| Ranges.ValidateRangeInt | scripts/kconfig/symbol.c:160-191 | an int in range is left alone, otherwise the nearest bound is stored |
| Ranges.ValidateRangeAcceptedIff | scripts/kconfig/symbol.c:527-567 | the result passes the range test if and only if the bounds are in order |
| Ranges.PrintHexReadsBack | scripts/kconfig/symbol.c:160-191 | hexadecimal text of a number reads back as the number |
| Ranges.PrintBoundReadsBack | scripts/kconfig/symbol.c:160-191 | so does every printed bound of an int or hex symbol, a negative hex bound being printed as its low 32 bits |
| Ranges.BoundReads | scripts/kconfig/symbol.c:144-158 | the text of a bound is read in the base of its own type if that is int or hex, else in that of the symbol whose range it is |
| Ranges.ValidateRangeHolds | scripts/kconfig/symbol.c:160-191 | for int and hex symbols a value in range is left alone, otherwise the nearest bound is stored |
| Ranges.ValidateRangeIdempotent | scripts/kconfig/symbol.c:160-191 | for both, checking again changes nothing when the bounds are in order |
| Ranges.StrtolSkips | scripts/kconfig/symbol.c:144-158 | white space in front of a bound counts for nothing |
| Ranges.StrtolPlus | scripts/kconfig/symbol.c:144-158 | nor does a plus |
| Ranges.StrtolOverflows | scripts/kconfig/symbol.c:144-158 | digits that are too many for a long count as -1, and as 0 with a minus |
| Ranges.DigitsStop | scripts/kconfig/symbol.c:144-158 | reading a number ends where its digits do |
| SymbolMeaning.VisibleIff | scripts/kconfig/symbol.c:193-211 | visibility is the strongest of the prompt conditions, with mod raised to yes where mod cannot be |
| SymbolMeaning.PickIff | scripts/kconfig/symbol.c:223-260 | a choice stands on the pick if it can be seen, else on what the first active default with a visible symbol names, else on the first visible member, by position in the lists |
| SymbolMeaning.RuleMeetsIff | scripts/kconfig/symbol.c:262-369 | the equation of a symbol says just what its prompts, its selectors, its user value, the first active default and the first active range ask for, each described without the functions that compute it |
| SymbolMeaning.DefaultDecides | scripts/kconfig/symbol.c:120-130 | a symbol that only its defaults speak for has the value of the first that is active, with mod raised to yes where it is bool |
| SymbolMeaning.DefaultAndRangeDecide | scripts/kconfig/symbol.c:160-191 | an int or hex symbol has the text that the first active default names, held to the first active range |
| SymbolTheory.RuleReadsBelow | scripts/kconfig/symbol.c:262-369 | with ranked dependencies a symbol's value depends only on values of lower rank |
| SymbolTheory.SolutionExists | scripts/kconfig/symbol.c:262-369 | plain recursion over the ranks solves the equations of all symbols |
| SymbolTheory.SolutionUnique | scripts/kconfig/symbol.c:262-369 | and nothing else does |
| SymbolTheory.SolutionsAgreeUpTo | scripts/kconfig/symbol.c:262-369 | user values of higher rank do not matter to a symbol |
| SymbolTheory.SolutionsAreWellTyped | scripts/kconfig/symbol.c:323-325 | every solution is a well-typed environment, as the rewriters need |
| SymbolTheory.MemberYesIff | scripts/kconfig/symbol.c:303-305 | a boolean choice member is yes if and only if it is visible and the choice stands on it, and is never mod |
| SymbolTheory.ChoiceAtMostOne | scripts/kconfig/symbol.c:303-305 | at most one member of a choice is yes |
| SymbolTheory.ChoiceExactlyOne | scripts/kconfig/symbol.c:223-260 | while a choice stays yes exactly one member is: the visible pick, else what the first active default with a visible symbol names, else the member before which none is visible |
| SymbolReads.RankedIff | scripts/kconfig/symbol.c:160-369 | a symbol is ranked if and only if everything its calculation asks for ranks lower |
| SymbolReads.RankIffAcyclic | scripts/kconfig/symbol.c:193-369 | a finite set that is closed under reading, with choices or without, can be ranked if and only if no value in it is computed from itself |
| SymbolReads.DefaultChoiceRanks | scripts/kconfig/symbol.c:236-245 | a choice whose default names a member can be ranked: it asks for the visibility of the member only |
| SymbolReads.ReachedUsersDecide | scripts/kconfig/symbol.c:262-369 | a value depends only on the user values of the symbols it is computed from in the end |
| SymbolReads.RuleIgnoresModules | scripts/kconfig/symbol.c:77-89 | only the equation of a tristate symbol looks at the value of MODULES |
| SymbolReads.PlainModulesAgree | scripts/kconfig/symbol.c:355-381 | if nothing MODULES is computed from is tristate, all of it comes out the same under any assumed value of MODULES |
| SymbolReads.ModulesMayFlip | scripts/kconfig/symbol.c:355-381 | with a tristate symbol below it, MODULES can come to y while it was n and to n once it is y |
| SymbolTable.SymTab.EvalExpr | scripts/kconfig/expr.c:942-981 | evaluation through the cache gives the value of the expression over the outcomes |
| SymbolTable.SymTab.CalcVisibility | scripts/kconfig/symbol.c:193-221 | visible and rev_dep.tri become those of the equations; settled cells keep theirs |
| SymbolTable.SymTab.CalcChoice | scripts/kconfig/symbol.c:223-260 | the pick is that of the equations, while members are looked at from the open choice |
| SymbolTable.SymTab.CalcValue | scripts/kconfig/symbol.c:262-369 | the symbol is flagged, every flagged symbol not under way holds its outcome, no settled cell changed, and the value of MODULES is taken over when MODULES is calculated |
| SymbolTable.SymTab.Calculate | scripts/kconfig/symbol.c:262-369 | the value is that of the equations, and only a choice is ever asked for while its own calculation is under way |
| SymbolTable.SymTab.CachedIsPlain | scripts/kconfig/symbol.c:262-369 | in every state that these calls reach a cached value is the one plain recursion gives, for choices too |
| SymbolTable.SymTab.CheckRange | scripts/kconfig/symbol.c:160-191 | the stored string is checked against the first active range |
| SymbolTable.SymTab.ClearAllValid | scripts/kconfig/symbol.c:371-381 | from any value of MODULES: it becomes the outcome under the old value, user values stay, and the table is sound for the new value if that is the old one or nothing MODULES is computed from is tristate |
| SymbolTable.SymTab.CalcModules | scripts/kconfig/symbol.c:379-380 | the calculation that does this while nothing else is flagged |
| SymbolTable.SymTab.SetTristate | scripts/kconfig/symbol.c:422-459 | accepted exactly if equal or within range; a rejected call changes nothing; an accepted value is the next outcome of a plain symbol, also when it changes MODULES; a boolean member set to yes leaves its choice yes and every other member no |
| SymbolTable.SymTab.ToggleTristate | scripts/kconfig/symbol.c:461-482 | stops within three tries at the next acceptable value in cyclic order, or at the old one |
| SymbolSet.SetYields | scripts/kconfig/symbol.c:403-459 | a value accepted for a plain symbol is the value that the new equations give |
| SymbolSet.PickYields | scripts/kconfig/symbol.c:435-450 | a visible member of a boolean choice that stays yes is yes once it is picked, and every other member is no |
| SymbolSet.SetSameRule | scripts/kconfig/symbol.c:451-456 | storing the value a symbol has anyway does not change its outcome |
| SymbolSet.ApartKeepsModules | scripts/kconfig/symbol.c:422-459 | setting a symbol that MODULES is not computed from leaves MODULES as it is |
| SymbolKeep.SetSameChoiceIff | scripts/kconfig/symbol.c:451-456 | storing the value a choice has keeps its outcome if and only if it is boolean, or MODULES is n, or it is not no, or it is not selected as mod |
| SymbolKeep.TristateChoiceMoves | scripts/kconfig/symbol.c:451-456 | a tristate choice that is no and becomes mod when it is set to no |
| SymbolKeep.ChoiceStaysIff | scripts/kconfig/symbol.c:437-449 | picking a member that is yes leaves its choice as it is if and only if the value of the choice raises nothing new and the pick is visible or replaces none that is |
| SymbolKeep.MemberStaysIff | scripts/kconfig/symbol.c:446-449 | another member changes with it if and only if it loses its NEW flag, can be mod, and its own value counts otherwise than its default |
| SymbolKeep.DefaultGivesWay | scripts/kconfig/symbol.c:437-449 | a choice in which picking the picked member again turns another one from mod to no |
| SymbolKeep.SetSameIff | scripts/kconfig/symbol.c:422-459 | setting any symbol to the value it has leaves all outcomes as they are if and only if these conditions hold before |
| SymbolKeep.SetSameReady | scripts/kconfig/symbol.c:451-456 | then the cache that is kept holds the outcomes of the new user values |
| SymbolKeep.BooleanChoiceKeeps | scripts/kconfig/symbol.c:437-449 | they hold for every yes member of a choice between booleans without defaults |
| DepCheck.Checker.CheckSymbol | scripts/kconfig/symbol.c:790-829 | each report names a symbol on a real cycle; without a report the symbol and all it depends on are finished in order |
| DepCheck.Checker.CheckAll | scripts/kconfig/zconf.tab.c:1962-1964 | over all symbols: nothing is reported if and only if the checked dependencies are acyclic |
| DepCheck.SortedDescends | scripts/kconfig/symbol.c:760-829 | along every dependency path the finishing order descends |
| DepCheck.PlainReads | scripts/kconfig/symbol.c:760-829 | the search follows everything that the value of a symbol without choice role is computed from, apart from range bounds |
| DepCheck.NoReportRanks | scripts/kconfig/symbol.c:760-829 | in any configuration, no report means that everything a range-free symbol without choice role is computed from directly comes earlier in the finishing order |
| DepCheck.NoReportDetermines | scripts/kconfig/symbol.c:760-829 | hence on every set of such symbols that is closed under dependencies every setting of the user values has one solution and no other |
| DepCheck.SilentButCyclic | scripts/kconfig/symbol.c:807-818 | a configuration without report in which a plain symbol is computed from itself, through what a choice reads of its members |
| DepCycles.EdgeIff | scripts/kconfig/symbol.c:800-818 | what is followed from any symbol: its reverse dependency, the conditions of its prompts, defaults and ranges, and the values of its defaults unless it is a choice; never what it selects |
| DepCycles.EdgesAreReads | scripts/kconfig/symbol.c:800-818 | for bool and tristate symbols outside choices and without ranges that is exactly what their value is computed from |
| DepCycles.CycleIff | scripts/kconfig/symbol.c:790-829 | in a closed set of such symbols a symbol is on a cycle if and only if it is computed from itself |
| DepCycles.AcyclicIffRanked | scripts/kconfig/symbol.c:790-829 | and there is no cycle if and only if the set can be ranked |
| DepCycles.CheckExact | scripts/kconfig/zconf.tab.c:1962-1964 | checking such a configuration is silent if and only if its values can be ranked, and every report names a symbol that is computed from itself |
| CheckedEval.CheckThenCalculate | scripts/kconfig/zconf.tab.c:1962-1964 | after a silent check the values of such a set are determined, and the evaluator finds the one asked for and never meets a symbol that is under way |
| CheckedEval.CheckThenClear | scripts/kconfig/zconf.tab.c:1962-1964 | the same for a set with MODULES in it, which is worked out first |
| MenuDeps.InheritRefines | scripts/kconfig/menu.c:231-245 | an inherited condition is the conjunction, up to deciding mod |
| MenuDeps.InheritVisibleMeaning | scripts/kconfig/menu.c:240-248 | what a prompt's visibility comes to for tristate symbols and for others |
| MenuDeps.NonNoExact | scripts/kconfig/menu.c:259-261 | the rewritten condition asks exactly whether the condition is non-no |
| MenuDeps.AbsorbsSound | scripts/kconfig/menu.c:263-278 | an absorbed sibling mentions the symbol, and when it shows, the symbol is non-no or the entry's prompt shows; only the test by cancelling needs that no negated part is mod |
| MenuDeps.AbsorbsIff | scripts/kconfig/menu.c:262-285 | for conjunctions of symbols, exactly when a sibling passes the test: it mentions the symbol, and a term of its condition asks for it or it has every symbol of the prompt |
| MenuDeps.AbsorbsDependent | scripts/kconfig/menu.c:266-269 | whatever the prompt, a sibling passes if a term of its condition asks for the symbol |
| Menus.SelectsRaise | scripts/kconfig/menu.c:249-253 | a reverse dependency is the strongest of its selectors, each under the condition of its select |
| Menus.RaisedEntry | scripts/kconfig/menu.c:249-253 | all the selects of an entry at once: each reverse dependency reaches a value exactly if it did or if a select asks for it |
| Menus.RaisedHead | scripts/kconfig/menu.c:339-343 | a choice that is not optional asks itself to be at least mod while its prompt shows, and asks nothing else |
| Menus.RaisedTrans | scripts/kconfig/menu.c:205-344 | what two stretches of finalizing ask for is what their entries together ask for |
| Menus.JoinedAppend | scripts/kconfig/menu.c:290-313 | the members that two stretches give to choices do not get into each other's way |
| Menus.ConditionedFurther | scripts/kconfig/menu.c:205-255 | two stretches of finalizing pass conditions on as one, and change no others |
| Menus.SourcedFurther | scripts/kconfig/menu.c:290-313 | and give to choices with prompted lists only members from those lists |
| Menus.MenuTree.PropagateEntry | scripts/kconfig/menu.c:231-255 | the new dep, the new property conditions and the new reverse dependencies of one entry |
| Menus.MenuTree.Propagate | scripts/kconfig/menu.c:214-255 | exactly the entries of the list get their parent's condition, and every reverse dependency becomes the maximum of what it was and what their selects ask |
| Menus.MenuTree.Absorb | scripts/kconfig/menu.c:258-289 | the longest run of following entries that pass the test becomes the list; order, links and parents are kept |
| Menus.MenuTree.Hoist | scripts/kconfig/menu.c:290-324 | lists below entries without a prompt are spliced in after them, order kept; a choice gets the symbols of the resulting list as members, in order |
| Menus.MenuTree.AddMember | scripts/kconfig/menu.c:291-313 | a member is appended to the list of its choice |
| Menus.MenuTree.AddChoiceRevDep | scripts/kconfig/menu.c:339-343 | a choice that is not optional becomes at least mod under its prompt |
| Menus.MenuTree.Finalize | scripts/kconfig/menu.c:205-344 | preorder kept, every parent pointer agrees with the list it is in, only prompted entries keep lists, every entry gets the final condition of the entry it was parsed below, and no other condition changes; reverse dependencies raised by exactly the entries dealt with; every choice with a prompt has the symbols of its list as new members |
| MenuShape.HoistedIff | scripts/kconfig/menu.c:314-324 | after hoisting a list holds exactly the entries that were in it or in the list of an entry without a prompt that is in it, those with a prompt with the list they had and the others with none |
| MenuShape.PropagatedFolds | scripts/kconfig/menu.c:238-246 | a condition passed to a property of a symbol that is not tristate never says of a tristate symbol that it is not n |
| MenuWalk.Climb | scripts/kconfig/confdata.c:533-538 | climbing by parent pointers comes to the next entry in order, or ends |
| MenuWalk.Walk | scripts/kconfig/confdata.c:422-539 | the walk with no stack ends and visits the entries in preorder |
| MenuWalk.FinalizeAndWalk | scripts/kconfig/zconf.tab.c:1961-1961 | after finalizing, the walk still visits every entry once, in the order in which they were parsed; every entry has the final condition of the entry above it added to its own; every reverse dependency is the maximum over the selects of all entries and over the choices; every choice with a prompt has the symbols of its final list as its new members |
| MenuMeaning.FinalConditions | scripts/kconfig/menu.c:205-255 | in every environment the final conditions of each entry stand for the conjunction of its own and of all above it up to the nearest choice: no stays no, and where no condition above is undecided a definite value is kept |
| MenuConfig.ShownMentionsChoice | scripts/kconfig/menu.c:214-248 | what an entry of a choice asks for mentions the choice, or can never be met |
| MenuConfig.MemberFits | scripts/kconfig/menu.c:290-313 | a member of a choice comes from its list and has a prompt that mentions the choice |
| MenuConfig.ConfigFits | scripts/kconfig/menu.c:205-344 | a well-parsed menu gives a configuration in which choices and members name each other as evaluation needs |
| MenuConfig.FinalizeToConfig | scripts/kconfig/zconf.tab.c:1961-1961 | finalizing leaves just that configuration |
| ExprText.Parse | scripts/kconfig/zconf.tab.c:1657-1707 | the loop with an explicit stack computes the run of the reader |
| ExprText.LeftNestExact | scripts/kconfig/zconf.tab.c:1690-1697 | nesting chains to the left, as the reader does, keeps the value |
| ExprText.PrintableIff | scripts/kconfig/zconf.y:448-449 | the symbols whose printed name looks them up again are y, m, n and the named ones of known type |
| ExprGrammar.ParseIff | scripts/kconfig/zconf.y:438-449 | the reader accepts an input with an expression if and only if what stands before the first end is the tokens of a parse tree of the grammar that respects the precedences and nests equal operators to the left, and that is its expression |
| ExprGrammar.Unambiguous | scripts/kconfig/zconf.y:80-83 | two such trees with the same tokens have the same expression |
| ExprGrammar.PrintParse | scripts/kconfig/expr.c:983-1079 | printed tokens are accepted, read back with the same value everywhere, and as the same tree if and only if chains nest to the left |
| ExprGrammar.PrintParseMissing | scripts/kconfig/expr.c:1015-1020 | a missing expression prints as y and reads back as y |
| ConfText.WriteEscaped | scripts/kconfig/confdata.c:482-496 | the writing loop puts a backslash before each quote and backslash and nothing else |
| ConfText.UnescapeEscape | scripts/kconfig/confdata.c:205-218 | unescaping recovers every string that was escaped |
| ConfText.DropChar | scripts/kconfig/confdata.c:213-213 | memmove takes one character out of the string in the buffer and leaves the old end in place |
| ConfText.UnescapeInPlace | scripts/kconfig/confdata.c:208-218 | the loop in the buffer leaves the unescaped string, or fails exactly if there is no closing quote, for any text |
| ConfFile.WriteFile | scripts/kconfig/confdata.c:451-523 | the lines of all symbols, by type |
| ConfFile.WriteNone | scripts/kconfig/confdata.c:451-523 | no symbols, or one without a type, leave no text behind |
| ConfFile.ReadFile | scripts/kconfig/confdata.c:134-261 | reading line by line through the buffer assigns symbols and choices as the plain reader does, for any content and whatever is in the buffer |
| ConfFile.ReadWrittenLine | scripts/kconfig/confdata.c:134-239 | a written line reads back as the value that was written |
| ConfFile.ReadTriLine | scripts/kconfig/confdata.c:185-204 | an assignment to a bool or tristate symbol that has no value yet counts by its first letter, y, n or m, where m is for tristate symbols only |
| ConfFile.ReadNoTriLine | scripts/kconfig/confdata.c:185-204 | with any other first letter it assigns nothing |
| ConfFile.ReadStringLine | scripts/kconfig/confdata.c:205-229 | a string symbol gets what stands escaped between quotes, whatever follows, and nothing without two quotes |
| ConfFile.ReadNumberLine | scripts/kconfig/confdata.c:219-229 | an int symbol gets decimal text and a hex symbol hexadecimal text with or without 0x, and neither anything else |
| ConfFile.ReadKnownLine | scripts/kconfig/confdata.c:177-184 | an unknown name or one that has a value already changes nothing |
| ConfFile.ReadNotSetLine | scripts/kconfig/confdata.c:138-164 | the comment sets bool and tristate symbols that have no value to n, and no others |
| ConfFile.LoneHashReadsOn | scripts/kconfig/confdata.c:138-144 | a line of a single # takes the name that an earlier line has left behind it in the buffer |
| ConfFile.ReadWrite | scripts/kconfig/confdata.c:87-267 | a whole written file reads back as all its values |
| ConfFile.AssignedEach | scripts/kconfig/confdata.c:87-267 | each symbol gets just its own value |
| ConfFile.AssignedChoices | scripts/kconfig/confdata.c:240-260 | each choice gets the greatest value of its members and a member that is yes, and is marked if and only if no choice can have members with these values |
| ConfFile.UnsetMember | scripts/kconfig/confdata.c:240-260 | a line that leaves a member without a value changes no choice |
| ConfFile.RoundTrip | scripts/kconfig/confdata.c:331-558 | writing and then reading restores every storable value, and every choice from its members |
| VideoBoards.SlotUpdate | source/application/V9/v9_video_board.c:351-412 | changing one slot changes load and count by what it holds |
| VideoBoards.DelUndoesAdd | source/application/V9/v9_video_board.c:351-412 | deleting the stream just added restores all slots |
| VideoBoards.AddKeepsNumbering | source/application/V9/v9_video_api.c:84-101 | numbers and slots stay in step if and only if the stream got the number of the first free slot |
| VideoBoards.NumberedFinds | source/application/V9/v9_video_board.c:432-452 | while they are in step a channel number finds its slot and no other |
| VideoBoards.HandNumberingCollides | source/application/V9/v9_video_api.c:84-101 | a number given by hand can be given out again |
| VideoBoards.Board.Add | source/application/V9/v9_video_board.c:351-389 | takes the first free slot, fails exactly if there is none, keeps load and flags right modulo 2^32 |
| VideoBoards.Board.Del | source/application/V9/v9_video_board.c:391-412 | gives the slot and the load back; an error exactly if the stream is not there or the device refuses |
| VideoBoards.Board.DelOnce | source/application/V9/v9_video_board.c:560-585 | the count stays right if and only if the device did not refuse |
| VideoBoards.Table.GetMinLoad | source/application/V9/v9_video_board.c:480-503 | the first eligible board of least load, which is in use, active and not disabled, or an error exactly if all such boards are above the ceiling |
| VideoBoards.Table.StreamAlloc | source/application/V9/v9_video_board.c:506-525 | the number of the first free channel of that board |
| VideoBoards.Table.StreamAdd | source/application/V9/v9_video_board.c:528-558 | succeeds exactly if the board is there, the stream is not on it and a slot is free; all accounts stay right |
| VideoBoards.Table.StreamDel | source/application/V9/v9_video_board.c:560-585 | removes exactly that stream; the accounts stay right if and only if the device did not refuse |
| VideoBoards.Table.LookupByIdAndCh | source/application/V9/v9_video_board.c:432-452 | the first stream with that number on that board, or none |
| VideoBoards.Table.AddApi | source/application/V9/v9_video_api.c:73-128 | board, channel and slot of an added stream, and exactly when an add fails |
| VideoBoards.Table.GivenNumber | source/application/V9/v9_video_api.c:76-84 | with boards numbered from 1, a given number n means the board with number n + 1, and the first board only an open number |
| VideoBoards.Table.AddAnywhere | source/application/V9/v9_video_api.c:73-128 | an add with nothing given is a placement on an eligible board of least real load, or changes no load; the same boards stay eligible |
| VideoBoards.PlacementStaysBalanced | source/application/V9/v9_video_board.c:480-503 | a placement keeps any spread of the loads that covers its frame rate |
| VideoBoards.RunStaysBalanced | source/application/V9/v9_video_board.c:480-503 | over every run of placements the loads stay within the largest frame rate of each other, and none is lost |
| VideoBoards.Table.AddRun | source/application/V9/v9_video_api.c:73-128 | adding any sequence of cameras gives such a run: the real loads stay within the largest frame rate of each other, and grow by just what was placed |
| FixDep.StandsIffIn | scripts/basic/fixdep.c:168-179 | searching the buffer between newlines finds exactly the names put in |
| FixDep.SameHeaderIff | scripts/basic/fixdep.c:217-223 | two options print the same header if and only if they differ in case only |
| FixDep.WordIff | scripts/basic/fixdep.c:238-239 | names are made of the letters, digits and the underscore |
| FixDep.HeaderAt | scripts/basic/fixdep.c:217-223 | the header has a slash for an underscore, a small letter for the same capital one, and every other character as it is |
| FixDep.ScanMissesNothing | scripts/basic/fixdep.c:226-269 | the rest of every maximal identifier that starts with a marker is recorded |
| FixDep.MarkerIff | scripts/basic/fixdep.c:240-256 | the markers are CONFIG_, ENABLE_ and IF_NOT_ with something after them in the file, and IF_ where none of these stands |
| FixDep.OptionIsMarked | scripts/basic/fixdep.c:240-256 | what follows each of the four markers in an identifier is recorded |
| FixDep.ScanRecordsOnlyMarked | scripts/basic/fixdep.c:226-269 | whatever is recorded follows a marker and ends where its identifier ends |
| FixDep.MarkerInsideName | scripts/basic/fixdep.c:258-267 | the scan goes on inside a recorded name |
| FixDep.RecordedKeepsSet | scripts/basic/fixdep.c:205-224 | recording adds exactly the new names and repeats none |
| FixDep.Config.Grow | scripts/basic/fixdep.c:152-161 | the buffer is large enough afterwards and keeps its contents |
| FixDep.Config.Define | scripts/basic/fixdep.c:184-191 | adds one name |
| FixDep.Config.Clear | scripts/basic/fixdep.c:196-200 | leaves the empty set |
| FixDep.Config.IsDefined | scripts/basic/fixdep.c:168-179 | true exactly for the names defined since the last clear |
| FixDep.Config.Use | scripts/basic/fixdep.c:205-224 | records and prints a name exactly if it is new |
| FixDep.Config.ParseFile | scripts/basic/fixdep.c:226-269 | the scanning loop records what the scan says |
| FixDep.Config.ParseFiles | scripts/basic/fixdep.c:314-352 | in one run every marked identifier of every scanned file is recorded, and no name is printed twice |
| DepFile.SplitFile | scripts/basic/fixdep.c:314-349 | the pointer loops find the words of the dependency file, no colon, or a negative length |
| DepFile.NoColonIff | scripts/basic/fixdep.c:318-322 | nothing is read exactly if the text has no colon |
| DepFile.AlnumIff | scripts/basic/fixdep.c:324-345 | the last name ends behind the last letter or digit, of those of ASCII |
| DepFile.SplitReadsBack | scripts/basic/fixdep.c:314-349 | a file that names a target and its dependencies reads back as those names if and only if at most one separator ends it |
| DepFile.ParseDepFile | scripts/basic/fixdep.c:314-352 | in a run over such a file every marked identifier of every scanned file it names is recorded, and no name is printed twice |

## Left out

- The front ends, the lexer, the generated parser tables, the dynamic loader, files, timestamps, locales and warnings.
- malloc and free, and the nodes that expr_free leaks; trees are owned and distinct.
- EqualityTerms.EliminateEqLeavesApart: with a y or n to fold, terms that only folding makes equal can be left on both sides (`FoldingMayMeet`).
- EqualityTerms.ExprEqReflexive: y, n and quoted constants are never cancelled, so an expression with several of them under a connective need not equal itself (`TwoConstantsUnequal`).
- DuplicatesGone.EliminateDupsLeavesApart: stated for the chain at the root; nested chains are searched for equal terms and contradictions in the same way.
- Duplicates.Dups1Exact: expr_eliminate_dups1 and dups2 hold pointers into one tree that they overwrite; here that tree is a value and the pointers are positions in it, so the aliasing is modelled but not the heap cells. The counter trans_count is the second result and does not wrap around.
- Equality.ExtractEqSplits: expr_extract_eq is modelled on values, not on nodes.
- Expressions with E_CHOICE, E_RANGE and E_NONE nodes; the list of choice members is a sequence instead.
- SymbolTable.SymTab.CalcValue: the flags CHANGED and WRITE, prop->visible.tri and the change counter are not modelled. Type decisions use one value of MODULES during an evaluation, so a calculation of MODULES in the middle of another one has to come to that value.
- SymbolTable.SymTab.ClearAllValid: where MODULES comes out otherwise and is computed from a tristate symbol, nothing is promised about the cells that were calculated on the way; they keep values of the old MODULES.
- SymbolTable.SymTab.SetTristate: symbols that MODULES is computed from are excluded if it is also computed from a tristate symbol, for that reason. When the value is unchanged and `MayKeepCache` fails, the code keeps a cache that is out of date for the symbols that change, and nothing is promised about it.
- SymbolTable.SymTab.ToggleTristate: after falling back to the old value the cache is promised to be sound under the same condition.
- SymbolTheory.ChoiceExactlyOne: stated for boolean members without defaults of their own, as the warnings of menu_finalize ask; tristate choices whose value is mod have no pick.
- DepCheck.NoReportRanks: range bounds that are symbols, and what a choice reads of its members, are not followed by the detector; symbols that are computed from such need not be ranked when it is silent.
- Menus.JoinedAppend: members are stated for choice symbols with one entry each, as the parser makes them.
- Menus.MenuTree.Finalize: menu_set_type, the P_CHOICE property of members and the warnings.
- MenuDeps.AbsorbsSound: where the sibling passes the test by cancelling only, stated if no negated part of the two conditions is mod and bare symbols compare as their tristate does, which is when the comparison they are rewritten to is exact.
- ExprGrammar.PrintParse: symbols that need quotes (constants) and choice symbols, whose printed form is not an expression.
- ConfFile.RoundTrip: header and comment lines of menus, the C header that is written beside, what conf_read does after the lines are read, and the fallback to default files. A value must be storable: one line, no NUL, at most 1023 characters.
- ConfFile.ReadFile: choices follow only symbols that are bool or tristate; the tristate of all others stays no.
- MenuConfig.ConfigFits: types that menu_set_type fills in and defaults that name members are taken as given; entries of a choice have prompts that can be shown and symbols of their own.
- VideoBoards.Table.AddApi: looking for a channel on a board number that no board has follows an error value as a pointer in the code; such calls are excluded. Address, port, user name and the text of the URL do not matter to placement.
- VideoBoards.Table.AddRun: stated for runs whose total load stays below 2^32, where the counters do not wrap around.
- Adding and deleting boards, the hardware sync timer, v9_video_board_stream_cleanup and v9_video_board_stream_lookup_api, the device protocol, locking and the command line.
- DepFile.ParseDepFile: the names are split off first and scanned afterwards, which differs only if a file is missing or the list breaks off. A text with no letter or digit at all is counted as broken off.
- FixDep.Config.ParseFiles: signed or locale-dependent character classes; letters and digits are those of ASCII. Buffer sizes do not overflow.
- docproc, split-include, echo, kxgettext and modem_bitmap: input and output, or easy members only.
