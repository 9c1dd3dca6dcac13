# Verified model of the Cassowary layout solver and its neighbours in GNUstep GUI

This project models parts of GNUstep's AppKit implementation in Dafny and proves properties of
the model. The centre is the incremental simplex solver behind automatic layout (the classes
`GSCS...`), the algorithm of Badros, Borning and Stuckey's "The Cassowary Linear Arithmetic
Constraint Solving Algorithm". Around it stand the layout engine's batching, Bézier paths,
diffable data sources, key binding tables, the `FOR_IN` macro, an option parser and the
bit-field structs used for archiving.

`dafny verify dfyconfig.toml` checks everything.

## What the model rests on

The bodies of all modelled operations are in the repository, in the `.m` files under `Source/`
and in the header files that hold code (`Source/GSFastEnumeration.h`, `Source/GSCodingFlags.h`,
`Tools/wgetopt.h`). The model follows those bodies, branch by branch. The public headers are
used only for what they promise. Where the two differ the code is modelled as it stands, the
difference is proved, and it is listed under "Where the code and its promises part".

Objects whose methods change them are classes here as well (`LinearExpression`, `Tableau`,
`Solver`, `Snapshot`, `DataSource`, `BezierPath`, `KeyBindingTable`, `Parser`, `LayoutEngine`).
Each of their methods is proved against a function or predicate on values, and the theorems
about whole runs are lemmas about those functions. `Sequences` and `Options` hold what several
modules share.

## How the solver's proof is built

- `LinearAlgebra`, `RowAlgebra`: a table of rows reads as the equations `subject == expression`.
  `Solved` says that no subject occurs on a right-hand side and no zero coefficient is stored,
  `Sat(rows, s)` that the valuation `s` satisfies all rows. Substitution, change of subject and
  pivot are functions on such tables.
- `Expressions`, `Tableaux`: the two mutable classes. `Tableau.Valid()` is index agreement: the
  column of a variable lists exactly the rows that mention it, no subject has a column, and the
  external rows and the parametric externals are those of the table. Every tableau method
  keeps it, so it holds over every run of row additions and removals, substitutions, variable
  additions and pivots.
- `Simplex`: why the pivot rules are right. `Feasible` says that slack rows are non-negative and
  dummy rows zero.
- `Incremental`, `Artificial`, `Removal`, `Edits`: the table against the list of equations
  it stands for (`Represents`), while constraints come and go. `Sound` is the invariant
  (feasible, dummy rows mention dummies only, restricted rows mention restricted variables only).
- `Comparisons`, `Constraints`: the constraint factories, and when two linear relations are
  satisfied by the same values.
- `Bookkeeping`, `Registry`, `Preferences`: which variables belong to which constraint, and
  what a solution means for the constraints the program stated. Every equation of the table has
  an `Entry`: the constraint it was made for, its own variables, the offset edits have moved its
  constant by, and, for what a refused constraint leaves behind, the artificial variable.
  `Registered` ties the entries to the equations and the objective, `BooksMatch` the solver's
  marker and error tables to the entries, `InfosFit` the remembered edit infos. All three hold
  after every operation, refusals and suggestions included (`Solver.Booked`), so the results
  about solutions hold over every history of additions, removals and suggestions. A history is a
  list of `Change`s: an entry comes in, one goes, an edit moves a constant.
- `Examples`: the tables on which the solver goes wrong, each derived from the empty table by
  the solver's own steps.
- `Solvers`: the class. Its methods take the number of pivots they may use as `fuel`.

## Where the code and its promises part

Each of these is proved, with the exact condition where there is one.

- `addExpression:multiplier:` overwrites the coefficient of a shared variable instead of adding
  to it (`OverwrittenIsSum`). The expression a constraint factory builds is therefore the
  difference of the two sides if and only if they share no variable
  (`FromExpressionsDifference`). The constraint states the relation it was asked for if and only
  if the sides share no variable, or one is a multiple of the other but for an equal constant,
  with a factor other than one (for inequalities one that is negative or above one), as in
  `2 * x == x` (`FromExpressionsMeaning`). `x == 0.5 * x + 1` turns into `x == 1`
  (`SharedTermMisleads`), `x == x` into `x == 0` (`SelfRelation`).
- A constraint that cannot be met leaves the row of its artificial variable in the tableau: the
  source removes that variable's column, but the variable is basic (`AddConstraintToTableau`).
  One side of the refused equation stays in force for good, also when what it contradicted is
  taken out (`RefusedEqualityStays`); the demands of a table count it (`Projection`).
- `findPivotableExitVariable:` passes over dummy rows. A step keeps them at zero if and only if
  it has length zero or no dummy row mentions the entry variable (`StepKeepsDummies`). `Sound`
  rules the bad case out, and adding constraints keeps `Sound`.
- Removing a required equation can leave another one violated. The reported solution stays right
  if and only if the table is not `Stranded` (`RemovalKeepsFeasible`). `Examples.RemovalStrands`
  has the example: `x == 1` twice and `x >= -3`; after removing one of the equations the
  optimiser has nothing to do, and `x` is reported as -3. Removing anything else never does harm
  (`RemoveConstraint`), and in every case the values the tableau allows afterwards are those of the
  demands that are left (`Retracted`, `AddAndRemove`).
- `suggestEditVariable:equals:` moves the constraint's constant by the distance from the value it
  remembers, and that the wrong way when an error variable of a preferred constraint is basic, or
  the marker of a required one is not. It reaches its value if and only if the constraint is in the
  tableau and stands at its `Origin`: at the value remembered when the constant moves the right
  way, and else at that value plus twice the change (`AimExactly`, `TableReaches`, `Suggest`). For
  a constraint that stands at the value remembered this means that nothing changes or the constant
  moves the right way. It need not stand there.
  - In `Examples.EditMissesTarget` a variable resting at its limit of 100 after a suggestion of 150
    stays there when 50 is suggested. The constraint then stands at 250, so that a suggestion of 60
    misses with no error variable basic, and one of 150 succeeds with one (`DriftAfterMiss`).
  - An edit constraint is made for the value its variable has at that moment, while the solver
    remembers the value of the moment it is entered; a difference stays for good (`RegisteredAimed`,
    `DriftAtRegistration`).
  - Removing an edit constraint leaves what is remembered of it. Suggestions for its variable then
    move nothing, also when the same constraint object is entered again (`StaleMisses`).
  - For a required edit constraint the two cases change places (`RequiredSwaps`).
- `optimize:` ignores coefficients above -1e-8. Its result is optimal up to that tolerance times
  the slacks involved (`StoppedIsNearlyOptimal`, `WeightedNearlyBest`). It is a true minimum when
  no slack has a negative coefficient, and for tables whose rows leave the entering slack room
  only then (`OptimalExactly`). `Examples.ToleranceMissesMinimum` has two preferred constraints
  whose weights differ by 5e-9: the loop stops at 10 where the minimum lies at 20. That is exact
  arithmetic: in the code the test for zero has the same threshold and drops the coefficient of
  -5e-9 before the loop looks at it, with the same 10 reported.
- In the same way a constraint is refused when the artificial objective stops above zero. That
  shows a contradiction unless a coefficient lies inside the tolerance; in general a solution
  would need slacks of at least the row's constant divided by the tolerance (`Refutes`).
- `bezierPathByReversingPath` drops the last point of every closed subpath, so it reverses
  the winding up to the triangle spanned by that point and its neighbours (`ReversedTotal`). For
  one closed subpath the winding count is negated everywhere off the paths if and only if
  those three points are collinear (`ClosedReversal`); several such subpaths and open ones always
  get the negated count (`FlatEndsHaveNoGaps`, `OpenHasNoGaps`).
- `bezierPathByReversingPath` does not copy the winding rule: the new path has the default rule.
  Off both paths and where the count is negated, path and reversal contain the same if and only if
  the path has the default rule, or the count is zero or odd (`ReversalKeepsContains`). Two nested
  squares walked the same way have a hole under the even-odd rule, which the reversed path fills
  (`ReversalFillsHole`).
- `applySnapshot:` ignores the snapshot it is given and installs an empty one, which equals the
  given one if and only if that has no section; no difference is computed anywhere, in contrast to
  what Headers/AppKit/NSDiffableDataSource.h:236-247 says (`ApplySnapshot`). No other code sets a
  data source's snapshot, so in the code as it stands the index is always empty;
  `RebuildIndexLookup` and `IndexIsInverse` are about any snapshot.
- Moving a section after itself shifts it by one place; for the last section the insertion raises
  after the removal, and the section is lost while its items stay (`MoveSectionAfter`).
- `itemIdentifierForRow:` raises on a negative row when there is a section (`ItemForRow`).
- A `break` in a `FOR_IN` body leaves the inner loop only; it behaves like a break if and
  only if it comes in the last batch (`BreakShows`).
- In a group of layout additions the constraints wait in a list, the suggestions do not. A group
  posts what the single calls post, once each and in order, but the solver it leaves is the same if
  and only if (`GroupAgainstSingle`, `Alike`)
  - every variable it suggests had an edit constraint before; otherwise the solver adds one of its
    own;
  - the last edit constraint of each is out of the solver, or the value remembered for it is the
    measured one; otherwise the group's suggestion moves that older constraint (`OlderOneMoves`);
  - each new edit constraint is created at the value where the single call's suggestion leaves it,
    because nothing moves a new constraint in a group, and the values reported when the group is
    handed over are the measured ones.

  When the reported values do not change meanwhile, the last condition says that every suggested
  variable already has its measured value (`SteadyGroup`). A view whose layout is removed and added
  again is an example: its intrinsic width has an edit constraint the solver remembers but no
  longer holds, so in a group the new one is left at the 0 the width has fallen to, while a
  single call brings it to the intrinsic width (`ReaddedStaysBehind`, `InfosOutlive`).
- No constraint is lost in a group, and a group of removals always leaves what single calls leave
  (`RemovalGroupIsSingle`). The edit constraints the solver has added itself are never recalled: a
  group that is added and removed again leaves them in the solver, and no other constraint
  (`AddedAndRemoved`).
- The engine's map from layout constraints to solver constraints keeps its entry on removal.
  Removing a layout constraint again makes the solver raise (`RemovedTwiceRaises`); adding one
  twice loses its first solver constraint for good (`AddTends`).
- The tie-break by `_id` never takes effect, because no code assigns `_id`
  (Source/GSCSVariable.m:137-140).

## Model

| member | source | states |
|---|---|---|
| RowAlgebra.EvalSubstitute | Source/GSCSTableau.m:259-315 | substituting an expression for a variable changes a row's value by its coefficient times the distance between the two, for every valuation |
| RowAlgebra.ChangeSubjectEquation | Source/GSCSTableau.m:440-447 | the equation solved for another subject holds under exactly the same valuations |
| RowAlgebra.ChangeSubjectInverse | Source/GSCSTableau.m:440-447 | changing the subject from a to b and back restores every term and the constant |
| RowAlgebra.PivotSolved | Source/GSCSTableau.m:454-477 | a pivot makes the entry variable basic and the exit variable parametric, and no subject occurs on a right-hand side |
| RowAlgebra.PivotMeaning | Source/GSCSTableau.m:454-477 | a pivot does not change which valuations satisfy the rows |
| RowAlgebra.PivotInverse | Source/GSCSTableau.m:454-477 | the opposite pivot restores the whole table |
| RowAlgebra.SameBasisSameRows | Source/GSCSTableau.m:454-477 | two tables with the same subjects and the same solutions are the same table |
| RowAlgebra.RunMeaning | Source/GSCSTableau.m:454-477 | any sequence of pivots keeps the table solved and its solutions the same |
| RowAlgebra.RunsMeet | Source/GSCSTableau.m:454-477 | two sequences of pivots that end with the same subjects end with the same table |
| Expressions.LinearExpression.RemoveVariable | Source/GSCSLinearExpression.m:110-114 | exactly the given term goes, from the map and from the list |
| Expressions.LinearExpression.AddVariable | Source/GSCSLinearExpression.m:263-276 | the coefficient is set, not added; a zero is ignored; map and list of terms keep agreeing |
| Expressions.LinearExpression.MultiplyBy | Source/GSCSLinearExpression.m:131-146 | every coefficient and the constant are scaled once |
| Expressions.LinearExpression.Normalize | Source/GSCSLinearExpression.m:158-161 | the expression is negated |
| Expressions.LinearExpression.NewSubject | Source/GSCSLinearExpression.m:121-129 | the expression becomes the equation solved for the subject (see NewSubjectEquation), the result is the reciprocal of its coefficient |
| Expressions.LinearExpression.Copy | Source/GSCSLinearExpression.m:163-176 | the copy is a new object with the same terms and constant |
| Expressions.LinearExpression.AddExpression | Source/GSCSLinearExpression.m:297-307 | the constants add up, and coefficients of shared variables are overwritten |
| Expressions.LinearExpression.FindPivotableVariablesWithMostNegativeCoefficient | Source/GSCSLinearExpression.m:178-201 | exactly the pivotable terms with the least coefficient, if negative; empty exactly when no pivotable coefficient is negative |
| Expressions.LinearExpression.AnyPivotableVariable | Source/GSCSLinearExpression.m:213-231 | a pivotable term, or nil exactly when there is none |
| Tableaux.Tableau.AddTermVariables | Source/GSCSTableau.m:151-163 | exactly the row's terms are entered in the column index, and the externals among them recorded |
| Tableaux.Tableau.AddRow | Source/GSCSTableau.m:140-149 | the row is added, and index agreement holds |
| Tableaux.Tableau.RemoveRow | Source/GSCSTableau.m:206-227 | exactly the row goes, with its column entries; raises exactly when there is none |
| Tableaux.Tableau.RemoveColumn | Source/GSCSTableau.m:188-204 | the variable goes from every row and loses its column, rows and columns always agree; the record of externals survives if and only if the variable is not external or the tableau does not know it |
| Tableaux.Tableau.SubstituteOutTermInExpression | Source/GSCSTableau.m:278-315 | one coefficient moves by the given amount, a coefficient that cancels goes, and the column of the term stays exact |
| Tableaux.Tableau.SubstituteOutTerm | Source/GSCSTableau.m:259-276 | the row is the one with the term replaced, and its column entries are those of the new terms |
| Tableaux.Tableau.SubstituteOut | Source/GSCSTableau.m:234-257 | every row is substituted, the list of infeasible rows grows by exactly the restricted rows of the column that became negative, and only the variable's own row is missing for index agreement |
| Tableaux.Tableau.Pivot | Source/GSCSTableau.m:454-477 | the in-place exchange is the pivot on values and keeps index agreement and the record of externals |
| Tableaux.Tableau.AddVariable | Source/GSCSTableau.m:348-384 | the amount is added to one coefficient of one row, with the index kept exact also when the term appears or cancels |
| Tableaux.Tableau.AddExpression | Source/GSCSTableau.m:405-422 | a multiple of an expression is added to one row and no other row changes |
| Tableaux.Tableau.FindPivotableExitVariable | Source/GSCSTableau.m:576-611 | a pivotable row of least ratio among those the entry variable lowers, or nil exactly when there is none |
| Simplex.FeasibleMeansAdmissible | Source/GSCassowarySolver.m:838-851 | the solution read off the table always satisfies the rows, and is admissible if and only if the table is feasible |
| Simplex.PivotConstants | Source/GSCSTableau.m:454-477 | the constants after a pivot: the entry variable takes the ratio, every other row moves by its coefficient times the ratio |
| Simplex.StepKeepsSlacks | Source/GSCSTableau.m:576-611 | pivoting on the least ratio keeps every slack row non-negative |
| Simplex.StepImproves | Source/GSCassowarySolver.m:640-682 | the objective never rises in a step, and falls exactly when the exit row's constant is positive |
| Simplex.StepKeepsDummies | Source/GSCSTableau.m:576-611 | a step keeps dummy rows at zero if and only if it has length zero or no dummy row mentions the entry variable |
| Simplex.OptimizerRunSafe | Source/GSCassowarySolver.m:640-682 | over any run of steps the solutions stay the same, the table stays feasible and the objective never rises |
| Simplex.StoppedIsNearlyOptimal | Source/GSCassowarySolver.m:640-682 | where the loop stops, no admissible solution is better by more than 1e-8 times the sum of the slacks in the objective row |
| Simplex.StoppedAt | Source/GSCassowarySolver.m:647-659 | the loop stops exactly when no slack has a coefficient below -0.00000001 |
| Simplex.StoppedIsOptimal | Source/GSCassowarySolver.m:640-682 | when no slack has a negative coefficient the reported solution minimises the objective over all admissible solutions |
| Simplex.OptimalExactly | Source/GSCassowarySolver.m:640-682 | for tables whose rows leave room the reported solution is a minimum if and only if no slack has a negative coefficient |
| Examples.ToleranceMissesMinimum | Source/GSCassowarySolver.m:640-682 | in exact arithmetic, a table where the loop stops and an admissible solution with a smaller objective exists; in the code the same threshold drops that coefficient as zero earlier on |
| Examples.InsideToleranceArises | Source/GSCassowarySolver.m:102-128 | that table is what entering two preferred constraints into the empty one gives |
| Simplex.NoExitIsUnbounded | Source/GSCassowarySolver.m:661-674 | when no row can leave, admissible solutions with objective below any bound exist |
| Removal.RunSound | Source/GSCassowarySolver.m:640-682 | any run of the optimiser keeps the invariant and leaves unrestricted subjects basic |
| Removal.OptimizeMinimises | Source/GSCassowarySolver.m:640-682 | the solution reported after a run that left no negative coefficient solves the rows the run started from, and no admissible solution of them has a smaller objective |
| Removal.ObjectiveRestricted | Source/GSCassowarySolver.m:417-427 | the objective row mentions restricted variables only, as the optimality results need |
| Removal.EnterSound | Source/GSCassowarySolver.m:429-521 | adding a row with any subject the choice rules allow keeps the invariant, so no repair is needed |
| Removal.RemovalKeepsFeasible | Source/GSCassowarySolver.m:577-636 | after a marker's removal the reported solution is admissible if and only if the table was not stranded |
| Removal.RemovalKeepsSound | Source/GSCassowarySolver.m:577-636 | removal keeps the whole invariant if and only if a dummy leaves or no dummy row mentions the marker |
| Removal.RemovalKeepsPurity | Source/GSCassowarySolver.m:577-636 | dummy rows keep mentioning dummies only under exactly the same condition |
| Examples.TwicePinnedIsStranded | Source/GSCassowarySolver.m:577-636 | the table of a twice entered equation is stranded, and its slack row is the one chosen to leave |
| Examples.TwicePinnedArises | Source/GSCassowarySolver.m:102-128 | that table is what entering the three constraints into the empty one gives |
| Examples.RemovalStrands | Source/GSCassowarySolver.m:156-237 | taking out one of two equal required constraints leaves a table where the optimiser stops at once and -3 is reported for a variable still required to be 1 |
| Incremental.NewSubjectEquation | Source/GSCSLinearExpression.m:121-129 | solving for a subject keeps the equation's meaning whenever the subject's coefficient is not zero |
| Incremental.EnterMeaning | Source/GSCassowarySolver.m:429-444 | the table with a new row has exactly the old solutions that satisfy the new equation |
| Incremental.EnterRepresents | Source/GSCassowarySolver.m:429-444 | entering an expression extends the list of equations the table stands for by exactly that equation |
| Incremental.DropRowRepresents | Source/GSCassowarySolver.m:195-217 | removing the row of a marker releases exactly the equation of that marker |
| Incremental.UnmentionedIsAbsent | Source/GSCassowarySolver.m:218-231 | a variable the equations and the objective no longer mention occurs nowhere in the rows |
| Incremental.KeyHasRow | Source/GSCassowarySolver.m:577-636 | a marker is always basic or mentioned by a row other than the objective's, so it can always be taken out |
| Incremental.ObjectiveRepresents | Source/GSCassowarySolver.m:417-427 | adding to the objective row changes the objective by that amount and nothing else |
| Edits.EditMeaning | Source/GSCassowarySolver.m:740-779 | an edit changes the constant of the edited equation, and a constant in the objective, and nothing else |
| Edits.EditReachesTarget | Source/GSCassowarySolver.m:740-779 | after an edit the table forces the edited equation with its constant moved by any given amount if and only if that is the move of the case at hand |
| Examples.EditMissesTarget | Source/GSCassowarySolver.m:265-286 | a variable resting at its limit stays at 100 when 50 is suggested, with nothing left to repair |
| Examples.DriftAfterMiss | Source/GSCassowarySolver.m:265-286 | after a missed suggestion the constraint stands elsewhere than remembered, the next suggestion misses with no error variable basic, and another one succeeds with one |
| Examples.DriftAtRegistration | Source/GSCSConstraint.m:84-97 | an edit constraint made at one value of its variable and entered at another misses the first suggestion |
| Examples.StaleMisses | Source/GSCassowarySolver.m:697-717 | when its constraint has been taken out no suggestion through an info reaches its value, nor after the same constraint object is entered again, which makes no new info |
| Examples.RequiredSwaps | Source/GSCassowarySolver.m:345-352 | for a required edit constraint a suggestion lands with the marker basic and goes the wrong way without |
| Examples.RestsAtLimitArises | Source/GSCassowarySolver.m:265-286 | that state is what a suggestion of 150 and the dual step it causes give |
| Examples.EditedBelowArises | Source/GSCassowarySolver.m:102-128 | and the table before the suggestion is what entering the edit constraint and the limit gives |
| Edits.DualStepRepairs | Source/GSCassowarySolver.m:783-836 | a dual step makes the infeasible row's place positive |
| Edits.DualStepKeepsOptimal | Source/GSCassowarySolver.m:806-820 | choosing the least quotient keeps every objective coefficient non-negative |
| Edits.NoDualEntryIsInfeasible | Source/GSCassowarySolver.m:822-830 | when no variable can enter, no admissible valuation satisfies the rows |
| Constraints.OverwrittenIsSum | Source/GSCSLinearExpression.m:297-307 | adding one expression to another adds their values if and only if they share no variable |
| Constraints.FromExpressionsDifference | Source/GSCSConstraint.m:264-294 | the factory builds the difference of the two sides if and only if they share no variable |
| Constraints.FromExpressionsMeaning | Source/GSCSConstraint.m:264-294 | the constraint is satisfied exactly where the relation asked for holds if and only if the sides share no variable or one is a suitable multiple of the other |
| Constraints.SharedTermMisleads | Source/GSCSConstraint.m:264-294 | a relation that holds for 2 turns into a constraint satisfied for 1 only |
| Constraints.FromVariablesMeaning | Source/GSCSConstraint.m:138-167 | two different variables are related as asked, for all three operators |
| Constraints.SelfRelation | Source/GSCSConstraint.m:138-167 | relating a variable to itself compares it with zero, for all three operators |
| Constraints.FactoriesRequire | Source/GSCSConstraint.m:128-300 | both factories make constraints of strength 1000, which are required, an equation or an inequality by the operator |
| Constraints.EditAsks | Source/GSCSConstraint.m:84-97 | an edit constraint asks its variable to have the value, and is required at strength 1000 only |
| Artificial.NonZeroLeavesArtificial | Source/GSCassowarySolver.m:540-553 | the artificial objective equals the artificial variable, so a non-zero result means that variable is still basic |
| Artificial.PivotableExists | Source/GSCassowarySolver.m:555-567 | the variable to pivot on that the code asks for without a check exists in every sound table |
| Artificial.PositiveArtificialIsInfeasible | Source/GSCassowarySolver.m:526-553 | when the loop stops above zero, a solution of the rest and the new equation needs slacks of at least the constant divided by the tolerance, and none exists when no negative coefficient is left |
| Bookkeeping.Refuted | Source/GSCassowarySolver.m:540-553 | the same for the row the artificial variable leaves behind |
| Artificial.DegeneratePivotSound | Source/GSCassowarySolver.m:565-567 | pivoting the artificial variable out at zero keeps the invariant |
| Artificial.DropArtificial | Source/GSCassowarySolver.m:555-570 | with the artificial variable gone, the table stands for the old equations and the new one |
| Bookkeeping.Released | Source/GSCassowarySolver.m:156-231 | the whole removal keeps feasibility and the invariant under exactly the two conditions above |
| Bookkeeping.GoalIsBounded | Source/GSCassowarySolver.m:661-674 | an objective made of error variables with non-negative weights, with any constant, is never unbounded |
| Registry.RegisterKeeps | Source/GSCassowarySolver.m:102-128 | recording a constraint, or what a refused one leaves, keeps every entry's variables its own, mentioned by its equation and the objective only |
| Registry.UnregisterKeeps | Source/GSCassowarySolver.m:156-231 | removing a constraint takes its errors out of the objective and leaves the others registered |
| Registry.TurnKeeps | Source/GSCassowarySolver.m:740-779 | moving the constant of an edited equation keeps the entries matched to equations and objective |
| Registry.EquationMeaning | Source/GSCassowarySolver.m:293-380 | where an entry's equation holds, what it demands is met, and a preferred constraint is violated by no more than the sum of its errors |
| Registry.FittedMeets | Source/GSCassowarySolver.m:293-380 | conversely the equation can be met wherever its demand is, with errors of exactly the violation, changing the entry's own variables only |
| Registry.EditPair | Source/GSCassowarySolver.m:697-726 | the marker and error of an edit constraint are the pair an edit needs, and editing through them moves the constraint's constant by exactly the turn |
| Registry.AimExactly | Source/GSCassowarySolver.m:265-286 | for any info, whether its constraint is gone, required or standing elsewhere: the constraint stands at the suggested value afterwards if and only if it is in the tableau and stood at its origin; from the remembered value that means nothing changes or the constant moves the right way; without the constraint no entry changes |
| Registry.TableReaches | Source/GSCassowarySolver.m:265-286 | the same for the table: it forces the equation of the constraint standing at the value if and only if it stood at its origin |
| Registry.RegisteredAimed | Source/GSCassowarySolver.m:697-726 | a new info remembers the value its constraint stands at if and only if the constraint was made for the value its variable has when it is entered |
| Preferences.GoalIsSum | Source/GSCassowarySolver.m:417-427 | the objective is the weighted sum of the errors of all constraints |
| Preferences.RequiredHold | Source/GSCassowarySolver.m:838-851 | everything the entries demand is met by the solution a feasible table reports |
| Preferences.WeightedBest | Source/GSCassowarySolver.m:640-682 | when no slack has a negative coefficient, no values that meet the demands have a smaller weighted sum of violations |
| Preferences.WeightedNearlyBest | Source/GSCassowarySolver.m:640-682 | where the loop stops, none have one smaller by more than 1e-8 times the slacks they need |
| Preferences.Projection | Source/GSCassowarySolver.m:102-128 | what the table allows for the program's variables is exactly what the demands allow, after any history |
| Preferences.RefusedForAll | Source/GSCassowarySolver.m:526-570 | when no coefficient lies inside the tolerance, no values that meet the demands satisfy a refused constraint |
| Examples.RefusedEqualityStays | Source/GSCassowarySolver.m:526-570 | the entry a refused equation leaves behind allows one side of it only, whatever else is taken out |
| Preferences.PreferencesComeAndGo | Source/GSCassowarySolver.m:136-286 | any history of suggestions and of preferred constraints that come and go leaves every demand as it was |
| Preferences.RetractionOverHistory | Source/GSCassowarySolver.m:136-286 | a constraint entered before such a history and taken out after it leaves the demands there were before |
| Preferences.RetractionForgets | Source/GSCassowarySolver.m:136-286 | over any history, entering a constraint before it and taking it out after it is as if it had never been entered |
| Preferences.Retraction | Source/GSCassowarySolver.m:136-286 | tables with the same demands allow the same values, whatever happened between them |
| Preferences.StandingViolation | Source/GSCSConstraint.m:84-97 | an edit constraint is violated by the distance of its variable from the value it stands at |
| Solvers.Solver.constructor | Source/GSCassowarySolver.m:85-100 | a new solver satisfies all invariants and holds no constraint |
| Solvers.Solver.SubstituteBasics | Source/GSCassowarySolver.m:293-323 | the expression mentions no basic variable and has the constraint's value on every solution; new externals are listed |
| Solvers.Solver.AddErrorVariable | Source/GSCassowarySolver.m:417-427 | the weight goes on the error in the objective row and nowhere else |
| Solvers.Solver.ExpressionForNewConstraint | Source/GSCassowarySolver.m:293-380 | the new expression has the value of the constraint's equation on every solution, a non-negative constant and no basic variable, with marker and errors of the right kinds |
| Solvers.Solver.ChooseSubject | Source/GSCassowarySolver.m:450-521 | a subject that keeps the invariant, or nil exactly with what the artificial variable needs |
| Solvers.Solver.TryAddingDirectly | Source/GSCassowarySolver.m:429-444 | the row is entered with a valid subject, or the tableau stays as it was |
| Solvers.Solver.AddWithArtificial | Source/GSCassowarySolver.m:526-570 | the equation is entered and the artificial variable gone, or the row it leaves behind refutes the equation; it fails only where the loop over the artificial objective does, or where the artificial row has nothing to pivot on |
| Solvers.Solver.AddConstraintToTableau | Source/GSCassowarySolver.m:102-128 | one entry comes in, and its equation; preferred constraints always can be added; a refused one is required, leaves one side of its equation and a row that refutes it, and contradicts the demands when no coefficient lies inside the tolerance; a failure is one of the artificial phase, begun at the table as it was |
| Solvers.Solver.AddConstraint | Source/GSCassowarySolver.m:136-140 | the same, and all invariants hold afterwards and the values are those of the table the optimiser stopped at, which has run until it had to stop; otherwise the values stay |
| Solvers.Solver.RemoveErrorVariable | Source/GSCassowarySolver.m:171-190 | the weight is taken off the error whether it is basic or not |
| Solvers.Solver.RemoveConstraintFromTableau | Source/GSCassowarySolver.m:156-231 | exactly the constraint's entry, equation and errors go; raises exactly when it is not there; feasibility and the invariant survive under the exact conditions |
| Solvers.Solver.RemoveConstraint | Source/GSCassowarySolver.m:233-237 | exactly the constraint's entry goes, the invariant survives for all but required equations, and the optimiser runs until it has to stop |
| Solvers.Solver.AdmitsExactly | Source/GSCassowarySolver.m:102-237 | the tableau allows the program's variables exactly the values that meet every demand on record |
| Solvers.Solver.Retracted | Source/GSCassowarySolver.m:136-237 | a constraint that came in and was taken out again, with suggestions and preferred constraints in between, leaves the tableau allowing what it allowed before |
| Solvers.AddAndRemove | Source/GSCassowarySolver.m:136-237 | entering a constraint that can be met and removing it again restores the entries and the values the program's variables can take |
| Solvers.Solver.ExitVariableForMarker | Source/GSCassowarySolver.m:577-636 | the choice of the three loops: smallest ratio among drained rows, else the restricted row nearest to zero, else any row but the objective's |
| Solvers.Solver.Optimize | Source/GSCassowarySolver.m:640-682 | performs a run of optimiser steps and stops where none is left, where no row can leave for the entry variable, or when it has made as many pivots as it may, and nowhere else |
| Solvers.MustPivot | Source/GSCassowarySolver.m:640-682 | a table with a coefficient below the tolerance, a row to leave for every variable that may enter, and pivots left to make is pivoted, on a least coefficient and a least ratio |
| Solvers.FuelLeft | Source/GSCassowarySolver.m:640-682 | a loop that ends short of its pivots ends where nothing is left to do or nothing bounds the entry variable |
| Solvers.Solver.Resolve | Source/GSCassowarySolver.m:130-134 | the solutions stay the same, values are those of the optimum and unchanged without one, non-negative weights never end unbounded, and the run of pivots ends as Optimize says |
| Solvers.Solver.SetExternalVariables | Source/GSCassowarySolver.m:838-851 | every listed variable gets its value in the basic solution and other values stay |
| Solvers.Solver.Solve | Source/GSCassowarySolver.m:253-263 | the solution has a value for exactly the listed variables, that of the basic solution |
| Solvers.Solver.SolutionSatisfies | Source/GSCassowarySolver.m:253-263 | the reported values satisfy every required constraint over external variables, as it stands after edits |
| Solvers.Solver.SolutionIsBest | Source/GSCassowarySolver.m:253-263 | when no slack has a negative coefficient the reported values have the least weighted violation among all that meet the demands, after any history |
| Solvers.Solver.SolutionIsNearlyBest | Source/GSCassowarySolver.m:253-263 | where the optimiser stopped they do up to the tolerance times the slacks needed |
| Solvers.Solver.SuggestionIsBest | Source/GSCassowarySolver.m:265-286 | the reported values weigh the distance to where an edit constraint stands, which is the suggested value if that was reached, against everything else as well as any values that meet the demands |
| Preferences.StrongerPrevails | Source/GSCassowarySolver.m:265-286 | where a preferred edit constraint is stronger than all the other preferred ones on its variable together, each by its coefficient, every step of the variable towards the value it stands at lowers the weighted violation |
| Solvers.Solver.StrongestIsMet | Source/GSCassowarySolver.m:265-286 | the optimum then reports the value the constraint stands at if the demands allow it, and they allow no step towards it otherwise |
| Solvers.Solver.FirstSuggestionIsMet | Source/GSCassowarySolver.m:265-286 | a first suggestion that reached its value has it reported if the demands allow it and the other preferred constraints on the variable weigh less than 750 together |
| Solvers.Solver.DeltaEditConstant | Source/GSCassowarySolver.m:740-779 | the rows move as described for each of the three cases, exactly one equation's constant changes, none when the variables are found nowhere, and rows that became infeasible are listed |
| Solvers.Solver.DualOptimize | Source/GSCassowarySolver.m:783-836 | a run of turns, each dropping the first listed row or pivoting it out on a least quotient, until the list is empty, a row has nothing to enter, or all allowed turns are made; the solutions stay the same, optimality is kept, and raising means there is no admissible solution |
| Solvers.Solver.EditFor | Source/GSCassowarySolver.m:684-735 | the last info of the variable, or a new one: then exactly one constraint is entered, an edit constraint of strength 750 that asks for the variable's current value |
| Solvers.Solver.Aim | Source/GSCassowarySolver.m:265-286 | the info remembers the value and its constraint's entry turns; the constraint stands at the value if and only if it stood at its origin, for any info; books and coverage are kept, and so are optimality and the rest of the invariant |
| Solvers.Solver.Suggest | Source/GSCassowarySolver.m:265-286 | with the dual phase, which starts at the moved rows: the constraint stands at the value if and only if it was in the tableau at its origin; after a repair the invariant holds again and the values are reported, otherwise they stay; raising means there is no admissible solution |
| Solvers.Solver.SuggestEdit | Source/GSCassowarySolver.m:265-286 | the whole call, from a variable: with an info it stands at the value if and only if it was at its origin; without one the history begins with an edit constraint of strength 750 at the current value, and it stands at the value if nothing changes or no error variable is basic; both phases end as Optimize and DualOptimize say; books, coverage, optimality and the invariant are kept as above |
| Solvers.Solver.SetValue | Source/GSCSVariable.m:147-150 | a program may set a variable's value, which changes nothing but the start of a later edit |
| BezierPaths.WindingAntisymmetric | Source/NSBezierPath.m:1335-1387 | an edge walked backwards counts the opposite, at every point |
| BezierPaths.TotalDefined | Source/NSBezierPath.m:1532-1644 | a count is produced if and only if the path starts with a move and a move follows every close |
| BezierPaths.ValidIsFlat | Source/NSBezierPath.m:1532-1644 | every such path is made of subpaths |
| BezierPaths.TotalIsLoops | Source/NSBezierPath.m:1532-1644 | the total is the sum over the subpaths, each closed by its first point whether it has a close or not |
| BezierPaths.TotalEven | Source/NSBezierPath.m:1532-1644 | off the path the doubled count is even, so halving it loses nothing |
| BezierPaths.ReversedFlat | Source/NSBezierPath.m:672-739 | reversal turns the subpaths round one by one in the opposite order, and closed ones lose their last point |
| BezierPaths.ReversedTotal | Source/NSBezierPath.m:672-739 | at every point the total of the reversed path is the negated total plus the windings of the lost triangles |
| BezierPaths.ReversalNegates | Source/NSBezierPath.m:672-739 | off both paths the winding count is negated if and only if the lost triangles do not wind around the point |
| BezierPaths.OpenHasNoGaps | Source/NSBezierPath.m:672-739 | open subpaths and those of fewer than three points lose no triangle |
| BezierPaths.TriangleWinds | Source/NSBezierPath.m:1335-1387 | a proper triangle winds once around every point inside, with the sign of its orientation |
| BezierPaths.ClosedReversal | Source/NSBezierPath.m:672-739 | reversing a closed subpath negates the winding count at every point off both paths if and only if its last two points and its first are collinear, and then the total everywhere |
| BezierPaths.FlatEndsHaveNoGaps | Source/NSBezierPath.m:672-739 | a path whose closed subpaths all end collinear with their first point loses nothing |
| BezierPaths.ReversalKeepsInside | Source/NSBezierPath.m:1646-1671 | where the lost triangles do not wind, a path under its rule and the reversal under another one agree about a point if and only if the rules are equal or the count is zero or odd |
| BezierPaths.OutsideCountsZero | Source/NSBezierPath.m:1646-1671 | off the path a point outside the bounds has the total zero |
| BezierPaths.ContainsIsInside | Source/NSBezierPath.m:1646-1671 | off the path the test against the bounds changes nothing: containment is the winding rule alone |
| BezierPaths.ContainsByTotal | Source/NSBezierPath.m:1646-1671 | off the path a point is inside by the non-zero rule where the total of its windings, twice the count, is not zero, and by the even-odd rule where it is no multiple of four |
| BezierPaths.ContainsInBounds | Source/NSBezierPath.m:1646-1671 | anywhere, also on the path: inside the half-open rectangle and with a total of two or more either way, or one that is two or three modulo four without its sign |
| BezierPaths.TriangleContains | Source/NSBezierPath.m:1646-1671 | a proper triangle contains the points inside it, closed or not, either way round and under both rules |
| BezierPaths.ReversalKeepsContains | Source/NSBezierPath.m:1646-1671 | the same for containment, off both paths; the reversal has the default rule |
| BezierPaths.ReversalFillsHole | Source/NSBezierPath.m:672-739 | two nested squares walked the same way: the even-odd path does not contain the origin, its reversal with the default rule does |
| BezierPaths.OpenReversalKeepsBounds | Source/NSBezierPath.m:2133-2255 | a path of open subpaths and its reversal have the same bounds |
| BezierPaths.AppendAdds | Source/NSBezierPath.m:921-951 | appending adds the totals everywhere and the winding counts off both paths |
| BezierPaths.BezierPath.ElementAtIndex | Source/NSBezierPath.m:846-885 | the element's kind and point; a close takes the point of the last move before it |
| BezierPaths.BezierPath.AppendBezierPath | Source/NSBezierPath.m:921-951 | the other path's elements follow this one's, also when it is the same path |
| BezierPaths.BezierPath.ByReversingPath | Source/NSBezierPath.m:672-739 | the new path is the reversal ReversedFlat and ReversedTotal describe, with the default winding rule, and this one is unchanged |
| BezierPaths.BezierPath.constructor | Source/NSBezierPath.m:258-280 | an empty path with the default winding rule |
| BezierPaths.BezierPath.SetWindingRule | Source/NSBezierPath.m:447-450 | the rule changes and the elements stay |
| BezierPaths.BezierPath.WindingCountAtPoint | Source/NSBezierPath.m:1532-1644 | the loop returns half the total of the path, and zero for an invalid one |
| BezierPaths.BezierPath.ContainsPoint | Source/NSBezierPath.m:1646-1671 | inside the rectangle of the path's bounds and by the path's own winding rule, also for invalid paths |
| BezierPaths.BezierPath.RecalculateBounds | Source/NSBezierPath.m:2133-2255 | the least rectangle that holds every point of the path and its first associated point |
| OptionParsing.Parser.IndexOf | Tools/wgetopt.h:27-40 | the first index of the character, or -1 exactly when it does not occur |
| OptionParsing.Parser.GetOpt | Tools/wgetopt.h:42-88 | one call reports and consumes what the scan of the words from optind says, and starts past the program's name |
| OptionParsing.RunConserves | Tools/wgetopt.h:51-87 | the words consumed by a run's calls, two exactly with an argument and else one, make up a stretch of argv; it ends at the first place that is the end or a last option without its argument, and at no other |
| OptionParsing.OptionCall | Tools/wgetopt.h:51-87 | a dash and a letter of the option string: the next word is its argument exactly when a colon follows the first such letter there, and without a next word the call ends |
| OptionParsing.EndsExactly | Tools/wgetopt.h:51-87 | a call gives -1 if and only if no word is left or the last one is an option whose argument is missing |
| OptionParsing.StopRepeats | Tools/wgetopt.h:51-87 | once -1 is returned every later call returns it too |
| OptionParsing.ParsePrinted | Tools/wgetopt.h:42-88 | printed options parse back to the same letters and arguments and use up every word |
| OptionParsing.PrintParsed | Tools/wgetopt.h:42-88 | a run that met only options prints back as the words it consumed |
| FastEnumeration.ForIn | Source/GSFastEnumeration.h:9-37 | the nested loops read and announce exactly what batch-by-batch enumeration says, for bodies with a state of their own, and leave that state |
| FastEnumeration.InnerLoop | Source/GSFastEnumeration.h:19-33 | within a batch every read is in bounds, and events and state are those of plain iteration |
| FastEnumeration.BatchesDoNotShow | Source/GSFastEnumeration.h:9-37 | without a break the result does not depend on the batches |
| FastEnumeration.ReadsAll | Source/GSFastEnumeration.h:9-37 | every element is read once and in order; with a break a prefix is |
| FastEnumeration.BreakShows | Source/GSFastEnumeration.h:9-37 | a break behaves like one if and only if no batch but the last delivered breaks |
| FastEnumeration.HookBeforeRead | Source/GSFastEnumeration.h:19-26 | the mutation hook is called right before an element is read, and then once, if and only if the counter differs from its first value |
| FastEnumeration.BrokenOff | Source/GSFastEnumeration.h:19-33 | where the body first breaks the elements up to that one have been read, and counter and state are those the body left |
| FastEnumeration.NotBrokenOff | Source/GSFastEnumeration.h:19-33 | where it breaks at none, the loop is not broken off and leaves the state after the last element |
| FastEnumeration.GoesOn | Source/GSFastEnumeration.h:9-37 | after a break the next batch goes on from the state the body left |
| FastEnumeration.EmptyBatchEnds | Source/GSFastEnumeration.h:9-37 | nothing after an empty batch is read |
| CodingFlags.SamePosition | Source/GSCodingFlags.h:38-111 | allocating fields from the top down and their mirror from the bottom up gives each the same position |
| CodingFlags.LayoutIndependent | Source/GSCodingFlags.h:38-111 | both allocations pack values to the same word |
| CodingFlags.UnpackPack | Source/GSCodingFlags.h:107-111 | unpacking a packed word gives the values back |
| CodingFlags.PackUnpack | Source/GSCodingFlags.h:107-111 | packing what was unpacked gives the word back |
| CodingFlags.FieldBits | Source/GSCodingFlags.h:107-111 | each field reads as its own bits of the word |
| CodingFlags.UnionIsPortable | Source/GSCodingFlags.h:107-111 | for mirrored declarations the union's word is the same on both kinds of machine and stands for one choice of values |
| CodingFlags.CellMirrored | Source/GSCodingFlags.h:38-105 | the two declarations of GSCellFlags mirror each other and fill 32 bits |
| CodingFlags.Cell2Mirrored | Source/GSCodingFlags.h:113-150 | the same for GSCellFlags2 |
| CodingFlags.ButtonCellMirrored | Source/GSCodingFlags.h:158-213 | the same for GSButtonCellFlags |
| CodingFlags.ButtonCell2Mirrored | Source/GSCodingFlags.h:221-237 | the same for GSButtonCellFlags2 |
| CodingFlags.ViewMirrored | Source/GSCodingFlags.h:245-270 | the same for GSvFlags |
| CodingFlags.TabViewMirrored | Source/GSCodingFlags.h:278-295 | the same for GSTabViewTypeFlags |
| CodingFlags.TableViewMirrored | Source/GSCodingFlags.h:308-335 | the same for GSTableViewFlags |
| CodingFlags.MatrixMirrored | Source/GSCodingFlags.h:349-381 | the same for GSMatrixFlags |
| KeyBindings.NestedBinds | Source/GSKeyBindingTable.m:57-92 | the temporary dictionaries built for an array of keys bind the whole sequence |
| KeyBindings.BindMeans | Source/GSKeyBindingTable.m:46-228 | walking the tables after a binding gives what a flat map from stroke sequences gives after assigning the sequence and clearing what it displaces |
| KeyBindings.LoadMeans | Source/GSKeyBindingTable.m:34-44 | the same for a whole dictionary of any depth, over any tables |
| KeyBindings.LoadDistinct | Source/GSKeyBindingTable.m:34-44 | a dictionary without clashes acts as it is written, whatever order its keys are enumerated in |
| KeyBindings.StoredForOne | Source/GSKeyBindingTable.m:108-127 | a key is stored as the one stroke with its character, its Alternate, Control and number pad, its Shift if it is a function key, and without the mark of a function key |
| KeyBindings.KeyBindsStroke | Source/GSKeyBindingTable.m:108-228 | binding a key changes what exactly that stroke does: a name makes it the selector, a list the selectors, a prebuilt action that action, and the empty name or an unknown object disables it |
| KeyBindings.KeysBindSequence | Source/GSKeyBindingTable.m:57-228 | the same for an array of keys and the sequence of the strokes stored for them |
| KeyBindings.KeyBindingTable.LoadBindingsFromDictionary | Source/GSKeyBindingTable.m:34-44 | the bindings become those of LoadMeans |
| KeyBindings.KeyBindingTable.BindKey | Source/GSKeyBindingTable.m:46-228 | the bindings become those of BindMeans and KeyBindsStroke; keys that do not parse and empty arrays change nothing |
| KeyBindings.KeyBindingTable.LookupKeyStroke | Source/GSKeyBindingTable.m:230-258 | the action or table of the first binding of the stroke; not found exactly when there is none or it is disabled |
| Snapshots.Snapshot.Copy | Source/NSDiffableDataSource.m:78-109 | a new object with the same sections and items |
| Snapshots.Snapshot.ItemIdentifiers | Source/NSDiffableDataSource.m:126-176 | the items of all sections in order, and their number |
| Snapshots.Snapshot.EnsureSection | Source/NSDiffableDataSource.m:179-196 | a section is added, empty, exactly when it was missing |
| Snapshots.Snapshot.AppendSections | Source/NSDiffableDataSource.m:198-205 | new sections go to the end, each once, and no item changes |
| Snapshots.Snapshot.InsertSectionsBefore | Source/NSDiffableDataSource.m:212-233 | the new ones stand together before the given section, or at the end, and no item changes |
| Snapshots.Snapshot.InsertSectionsAfter | Source/NSDiffableDataSource.m:235-258 | the new ones stand together after the given section, or at the end, and no item changes |
| Snapshots.Snapshot.DeleteSections | Source/NSDiffableDataSource.m:260-268 | exactly the listed sections and their items go |
| Snapshots.Snapshot.MoveSectionBefore | Source/NSDiffableDataSource.m:270-288 | the section stands right before the other, the rest keep their order and every section its items |
| Snapshots.Snapshot.MoveSectionAfter | Source/NSDiffableDataSource.m:290-308 | the same after the other, if the two differ; what happens when they do not |
| Snapshots.Snapshot.AppendItems | Source/NSDiffableDataSource.m:310-319 | the items go to the end of the last section, or of a default section if there is none, and so to the end of all items |
| Snapshots.Snapshot.AppendItemsInto | Source/NSDiffableDataSource.m:321-328 | the items go to the end of the section, which is made if missing |
| Snapshots.Snapshot.FindItem | Source/NSDiffableDataSource.m:330-356 | the first place of the item, or nothing |
| Arrangements.LocateIsFirst | Source/NSDiffableDataSource.m:330-356 | that place is the first occurrence in the flattened list, and nothing means it does not occur |
| Snapshots.Snapshot.InsertItemsBefore | Source/NSDiffableDataSource.m:358-379 | the first section that has the item gets the items right before its first occurrence, no other section changes, and so the flattened list does; without the item they go where AppendItems puts them |
| Snapshots.Snapshot.InsertItemsAfter | Source/NSDiffableDataSource.m:381-403 | the first section that has the item gets the items right after its first occurrence, no other section changes, and so the flattened list does; without the item they go where AppendItems puts them |
| Snapshots.Snapshot.DeleteItems | Source/NSDiffableDataSource.m:405-423 | the flattened list loses the first occurrence of each |
| Arrangements.DeletedSection | Source/NSDiffableDataSource.m:405-423 | deleting one item takes its first occurrence out of the first section that has it, and changes no other section |
| Arrangements.ItemsStayDistinct | Source/NSDiffableDataSource.m:358-403 | fresh items put anywhere keep all items distinct |
| Arrangements.FewerSectionsDistinct | Source/NSDiffableDataSource.m:260-268 | taking a section away keeps the other items distinct |
| Arrangements.StepKeeps | Source/NSDiffableDataSource.m:178-423 | every operation keeps sections and map matching, and all items distinct when the ones it brings in are new |
| Arrangements.RunKeeps | Source/NSDiffableDataSource.m:178-423 | over any run of operations sections are listed once each and are the keys of the map, and items stay distinct when every operation brings in new ones |
| Arrangements.RunsUnlessMovedAfterItself | Source/NSDiffableDataSource.m:290-308 | a run in which no section is moved after itself never raises |
| DataSources.DataSource.RebuildIndexLookup | Source/NSDiffableDataSource.m:456-476 | the index has exactly the items of the snapshot, each with a path it is found at, the last one |
| DataSources.DataSource.ApplySnapshot | Source/NSDiffableDataSource.m:478-485 | afterwards snapshot and index are empty, whatever was given; the installed snapshot equals the given one if and only if that has no section |
| DataSources.DataSource.IndexPathForItem | Source/NSDiffableDataSource.m:492-495 | a path exactly for the items of the snapshot, looking it up gives the item, and no later path does |
| DataSources.DataSource.ItemForIndexPath | Source/NSDiffableDataSource.m:497-527 | the item at the path, or nothing out of range; short paths count as the first item's |
| DataSources.DataSource.ItemForRow | Source/NSDiffableDataSource.m:757-776 | the row of the flattened list; raises exactly for negative rows with a section |
| DataSources.IndexIsInverse | Source/NSDiffableDataSource.m:456-527 | the two lookups undo each other if and only if no identifier occurs twice |
| DataSources.UniqueIsDistinct | Source/NSDiffableDataSource.m:456-476 | identifiers occur once each if and only if the flattened list has no repetition |
| LayoutEngines.LayoutEngine.AddSolverConstraint | Source/GSAutoLayoutEngine.m:1268-1279 | inside a group the constraint waits, outside it goes to the solver, which remembers the value of its variable; it is listed either way |
| LayoutEngines.LayoutEngine.ResolveVariable | Source/GSAutoLayoutEngine.m:1320-1328 | in or out of a group the solver is suggested the measured value at once; without an edit constraint it makes one, and one that is gone does not move |
| LayoutEngines.LayoutEngine.AddConstraint | Source/GSAutoLayoutEngine.m:303-329 | the maps and the solver get from where they are to where one more layout constraint takes them, in or out of a group |
| LayoutTables.ResolvedByAttribute | Source/GSAutoLayoutEngine.m:657-984 | which variables a layout constraint suggests values for: the offset from the bottom exactly for an item with the attribute baseline, the one from the top exactly for first baseline, and the intrinsic dimensions exactly of items without internal constraints so far |
| LayoutTables.HowMany | Source/GSAutoLayoutEngine.m:657-984 | how many supporting constraints each attribute gives, two, one or none, and how many internal ones a new view gets, two and three more for each intrinsic dimension |
| LayoutEngines.LayoutEngine.AddConstraints | Source/GSAutoLayoutEngine.m:285-301 | the group hands everything that waited to the solver, in order, and the maps are those of the single calls |
| LayoutEngines.LayoutEngine.RemoveConstraint | Source/GSAutoLayoutEngine.m:331-370 | the constraint, its supporting ones and those of views no longer used are recalled, in or out of a group; raises exactly when the solver lacks one of them |
| LayoutEngines.LayoutEngine.RemoveConstraints | Source/GSAutoLayoutEngine.m:372-388 | the group recalls everything that waited, in order, and the maps are those of the single calls; when the solver raises the list keeps its content |
| LayoutGroups.GroupAgainstSingle | Source/GSAutoLayoutEngine.m:285-329 | a group posts what the single calls post, once each and in order, after an extra edit constraint for every variable first suggested in it; constraints, the values edit constraints stand at and the infos are equal if and only if every suggested variable had an info, whose constraint is gone or has the measured value, and the values reported in the group are those where the single calls leave the new constraints |
| LayoutGroups.SteadyGroup | Source/GSAutoLayoutEngine.m:285-329 | while reported values do not change, this says that every suggested variable had an info at rest and the measured value already |
| LayoutGroups.NewOnesStand | Source/GSAutoLayoutEngine.m:959-1008 | a new edit constraint ends at the value of its creation in a group, and where its suggestion lands in single calls |
| LayoutGroups.OlderOneMoves | Source/GSAutoLayoutEngine.m:998-1008 | an older edit constraint that remembers another value than the measured one is moved by a group and left alone by single calls |
| LayoutGroups.PlayKnows | Source/GSCassowarySolver.m:684-717 | whatever is asked of the solver, each of its infos is for an edit constraint of that variable |
| LayoutGroups.SuggestionMoves | Source/GSCassowarySolver.m:265-286 | one suggestion: without an info the solver's own edit constraint is made at the present value and moved, with one its constraint moves by the difference from the value remembered, the other way with a basic error variable, unless it is gone; the value is remembered and nothing else changes |
| LayoutGroups.NestedGroupLosesNothing | Source/GSAutoLayoutEngine.m:285-301 | a group within a group hands over what waited outside, then its own |
| LayoutGroups.RemovalGroupIsSingle | Source/GSAutoLayoutEngine.m:331-388 | a group of removals leaves the solver as the single calls do, and raises when they do |
| LayoutEngines.HeldExactly | Source/GSCassowarySolver.m:239-251 | the solver raises if and only if it is asked for a constraint twice or for one it does not hold |
| LayoutTables.AddTends | Source/GSAutoLayoutEngine.m:303-329 | a view has internal constraints exactly while a layout uses it, and layouts and solver constraints stay mapped one to one if and only if the layout is new |
| LayoutTables.RemoveTends | Source/GSAutoLayoutEngine.m:331-370 | a removal keeps this for the views |
| LayoutTables.RecallsAreSubmissions | Source/GSAutoLayoutEngine.m:285-388 | removing a group of new layouts recalls every constraint the group submitted, once each, and no other |
| LayoutTables.AddedAndRemoved | Source/GSAutoLayoutEngine.m:285-388 | a group added and removed again leaves the solver with its old constraints and its own edit constraints; single calls leave the old ones alone |
| LayoutTables.InfosOutlive | Source/GSCassowarySolver.m:684-717 | after layouts have been added and removed, every variable they suggested has an info whose constraint is gone, and single calls leave the old edit constraints where they stood |
| LayoutTables.ReaddedStaysBehind | Source/GSAutoLayoutEngine.m:285-329 | a layout on a view with an intrinsic width, added, removed and added again: constraints agree, but in a group the new width constraint keeps the value reported after the removal, and a single call brings it to the measured width |
| LayoutTables.RemovedTwiceRaises | Source/GSAutoLayoutEngine.m:331-370 | removing a layout a second time makes the solver raise |
| LayoutGroups.PreparedLayouts | Source/GSAutoLayoutEngine.m:870-1008 | every new edit constraint is a new object followed at once by the suggestion for its variable, and there are no other suggestions |

## Left out

- Rounding: reals are exact. `GSCSFloatComparator` becomes an exact test for zero, `DBL_MAX` in
  the search for an entry variable an absent value, and the 32-bit floats some
  coefficients pass through are reals. The -1e-8 of `optimize:` is kept.
- Termination of the two simplex loops: the source has no rule against cycling, so the methods
  take the number of pivots they may use and say `Interrupted` or `Unfinished` when, and only
  when, all of them have been made.
- Sharing of row objects: a tableau row is held as the value of its expression. That `_rows` and
  `_externalRows` hold the same object, and that callers can keep a row, is not captured. The
  expression class itself is modelled as an object.
- The stack of `GSCSEditVariableManager` and its removal of infos, which the solver never uses.
- Solvers.Solver.AddConstraint: does not cover constraints over variables the solver made up, because no caller can name one; `setStrength:` after a constraint was added is not modelled either.
- Solvers.Solver.RemoveConstraint: of a constraint object added twice it takes out the second
  entry; the first stays as an entry that no table points to.
- The solver's own `addConstraints:` and `removeConstraints:`: a loop over the modelled single
  operations with one `resolve` at the end.
- Curves, arcs, flattening, stroking and glyphs in `NSBezierPath`; caching of the bounds; `held`
  stands for what the caller's point buffer holds. NSPointInRect is Foundation's: the left and
  lower sides belong to a rectangle, the other two do not.
- Bytes beyond ASCII in `getopt`.
- The syntax of key names (`parseKey:`) and the order in which a dictionary enumerates its keys,
  which are parameters; arrays as members of key arrays; nested tables as shared objects.
- Views, cells, reloading and animation around the data sources.
- Alignment rectangles and notifications of the layout engine, the expressions of its solver
  constraints, updates through key-value observing, and refusals by the solver in the middle
  of a group of additions. For the engine the solver is what its constraints, edit constraints and
  infos show; the values it reports and whether an error variable is basic are functions of
  everything asked of it, and with the sizes the views measure they are parameters (`Oracle`). A
  constraint object is taken to be posted once, as the engine does.
- LayoutEngines.LayoutEngine.RemoveConstraint: does not say how far the maps have come when the solver raises half-way.
- The clang form of `FOR_IN`, which is the language's own loop.
- `GSWindowTemplateFlags`, whose struct is declared elsewhere.
- The rest of the repository: user interface, drawing, archiving, printing, audio and images.
