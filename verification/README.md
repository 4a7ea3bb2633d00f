# Verified model of fault collapsing, fault detection analysis and the SAT layer beneath it

The project models the parts of the program that decide what its results mean, and proves
that they mean it. A circuit is an indexed netlist with a value for every net under every
input vector and every stuck net; a set of clauses is its set of models; a set of cubes is
the set of input patterns it covers. Code that changes things step by step is modelled by
classes and methods with loops, and each of them is tied to one of these meanings.

* **Netlists.** `Netlists`, `Connection`, `ConnectedNetlist` and `SignalConnector` model how
  read signals are connected so that every gate input has a net of its own. `TimeExpansion`
  models the two-frame expansion for transition faults. `Levels` models the memoised levels.
* **Fault collapsing.** `FaultGroups` is the union-find, `FaultCollapsing` the gate rules and
  their soundness in faulty circuits, `FaultSelection` the choice of representatives,
  `TargetOrders` the order of the targets, `FaultTables` the fault list and the finished
  groups, `ResultFile` the result rows and reading them back. `ConnectedCollapsing` joins
  these results: for every acyclic design as read, collapsing on its connected netlist, or
  on the expansion of it, is sound.
* **Fault analysis.** `CubeEnumeration` is the enumeration of detecting cubes with blocking
  clauses against a solver and a generaliser that are given by contracts. `WorkerPool` is the
  dispatcher with workers that reply in any order. `SamplingProbability` and `CoverageModels`
  are the coverage arithmetic over exact reals.
* **SAT simplification.** `Literals`, `ImplicationGraph`, `SearchState`, `SearchSteps`,
  `SearchInvariant` and `EquivalentLiterals` model the iterative search for equivalent
  literals. `Extension`, `ClauseDatabase`, `Resolution`, `Antecedents`,
  `VariableElimination`, `FastElimination`, `BlockedClauses`, `BlockedRemoval` and
  `Simplification` model bounded variable elimination, blocked clause removal and the
  backward pass that extends models, over whole runs.
* **Certificates.** `WatchedClauses`, `Propagation`, `BlockedTest` and `Checker` model the
  watched-literal proof checker. `Aig`, `AigCnf`, `Interpolation` and `CraigTracer` model and-inverter graphs,
  their clauses, and the four constructions of Craig interpolants; `ResolutionChains` says
  what following a chain of antecedents with marks computes, and for which chains that is
  the derived clause, and `LostInterpolants` says when this keeps the interpolants.
* `Cardinality` and `Options` hold what several of them share.

Large invariants are kept folded behind a quantifier over `Unfold`: a method that only passes
such an invariant on does not see its parts, and a lemma that needs them asks for them. Ghost
parameters carry the witnesses that the proofs need.

Facts about the code that the proofs bring out:

* In automatic mode the error for a fault without representative cannot occur, for either
  fault model and whatever equivalent pairs are added from a file.
* The interpolating tracer marks every literal it has met and resolves on each literal whose
  negation is marked. On a linear resolution that brings a resolved literal back this fails:
  for the antecedents {-2, 1}, {-1, 3}, {1, 2}, followed last to first, and the clause {1, 3},
  the literal -2 stays behind and A does not imply the interpolant
  (`ResolutionChains.StaleMarkFails`, `ResolutionChains.StaleMarkLosesInterpolant`). In each of
  the four constructions, a linear resolution keeps the interpolants of all antecedents exactly
  when each pivot brought back by a stale mark is absorbed by a later step
  (`LostInterpolants.KeptIffAbsorbed`). Chains that are unit propagations from the negated
  clause, with every unit new, never have the problem.
* The proof checker's test for blocked clauses looks at live stored clauses only. It overlooks
  units, which are on the trail, and deleted binary clauses, which propagation uses until they
  are freed (`BlockedTest.UnitIsOverlooked`, `BlockedTest.DeletedIsOverlooked`). It is right
  about a literal exactly when it overlooks nothing (`BlockedTest.BlockedIffLeft`), and then
  accepting the clause keeps the clauses satisfiable.
* The dispatcher's test whether a fault was answered already can never fire.
* In the general case of blocked clause removal, the candidate filter and the early exit never
  lose a blocked clause: exactly the blocked clauses of admissible size are removed.
* Counting resolvents may itself change the clauses. Then the elimination criterion is told
  from both sides: true means that it holds afterwards, false without a decision that it failed
  before. It is exact when no pair of clauses leads to a change.
* When the elimination bound is negative, a pivot that occurs in both phases but has no proper
  resolvent is still eliminated, since the counter is compared with the bound only after it
  is raised.
* The upper word of a clause identifier on the extension stack is computed by a shift to the
  left and cut to 32 bits, so it is always zero. The backward pass never reads it.

## Model

| member | source | states |
|---|---|---|
| ImplicationGraph.Formula.ReachIsPath | external/cadical/src/decompose.cpp:198-228 | Reachability, defined by closed sets of literals, is the existence of a path of binary implications |
| ImplicationGraph.Formula.ReachMirror | external/cadical/src/decompose.cpp:173-179 | If a reaches b then -b reaches -a, so that the search from both signs of a variable sees mirrored components |
| SearchSteps.TailIsComponent | external/cadical/src/decompose.cpp:230-236 | When a literal cannot lower its index, the literals from it on the component stack are exactly its strongly connected component |
| EquivalentLiterals.Decomposer.Visit | external/cadical/src/decompose.cpp:372-397 | The pre-fix step keeps the search invariant and uses up one of at most 2*maxVar visit numbers |
| EquivalentLiterals.Decomposer.LeastMin | external/cadical/src/decompose.cpp:211-228 | The result is at most the index of the literal and of every child, and is the index of one of them |
| EquivalentLiterals.Decomposer.FindRepr | external/cadical/src/decompose.cpp:289-327 | A conflict is reported exactly when the negation lies in the component; otherwise the result has the least variable of the component |
| EquivalentLiterals.Decomposer.PopComponent | external/cadical/src/decompose.cpp:332-357 | Exactly the component leaves the stack; each of its literals is closed and gets the representative, frozen ones themselves |
| EquivalentLiterals.Decomposer.Leave | external/cadical/src/decompose.cpp:207-370 | The post-fix step keeps the invariant, whether the literal is an entry or stays open |
| EquivalentLiterals.Decomposer.Search | external/cadical/src/decompose.cpp:178-399 | One iterative search terminates with everything reachable from the root visited, or with unsatisfiability found |
| EquivalentLiterals.Decomposer.DecomposeRound | external/cadical/src/decompose.cpp:173-399 | Terminates; unsatisfiable exactly when a literal and its negation share a component; otherwise every active literal is represented by a literal of least variable in its component (frozen ones by themselves) |
| EquivalentLiterals.SameReprIffMutual | external/cadical/src/decompose.cpp:289-357 | Two active non-frozen literals have the same representative exactly when each reaches the other |
| EquivalentLiterals.ReprOfNegation | external/cadical/src/decompose.cpp:289-357 | The representative of -l is the negated representative of l |
| EquivalentLiterals.ReprIsFixed | external/cadical/src/decompose.cpp:333-357 | Representatives represent themselves |
| EquivalentLiterals.ReprAgreesInModels | external/cadical/src/decompose.cpp:289-357 | In every model of the binary clauses a literal and its representative have the same value |
| EquivalentLiterals.ContradictoryHasNoModel | external/cadical/src/decompose.cpp:298-316 | If a literal and its negation share a component, the binary clauses have no model |
| Extension.ExtensionStack.PushClause | external/cadical/src/extend.cpp:65-69 | Exactly one entry is appended: witness the pivot, then the clause, between the separators |
| Extension.ExtensionStack.PushBinaryClause | external/cadical/src/extend.cpp:71-82 | The same for a binary clause |
| Extension.ExtensionStack.PushExternalClauseAndWitness | external/cadical/src/extend.cpp:86-102 | The same for a clause with any witness |
| Extension.ExtensionStack.Extend | external/cadical/src/extend.cpp:121-204 | The backward pass over the words computes the entry-wise backward pass: entries last to first, flipping the witness of each clause that is not satisfied |
| ClauseDatabase.SoundMore | external/cadical/src/extend.cpp:121-204 | Simplification steps compose: no model is lost, and the concatenated entries reconstruct a model of the first state from one of the last |
| ClauseDatabase.Solver.NewClause | external/cadical/src/elim.cpp:90-105 | The collected literals become a live clause that hangs in the lists of exactly its literals; the database stays well-formed |
| Resolution.SelfSubsuming | external/cadical/src/elim.cpp:400-444 | The size tests hold exactly when the resolvent has the same literals as the rest of the antecedent |
| Resolution.ResolventImplied | external/cadical/src/elim.cpp:264-330 | The resolvent of two live clauses, without falsified literals, is implied |
| Resolution.FlipPhase | external/cadical/src/extend.cpp:121-204 | A block of entries for one literal flips it if and only if one of their clauses needs it, and satisfies all of them |
| Resolution.EliminationReconstructs | external/cadical/src/elim.cpp:611-671 | A model of the clauses without the pivot, run backward over the saved clauses, satisfies every clause with the pivot |
| Antecedents.OnTheFlySelfSubsumption | external/cadical/src/elim.cpp:209-260 | The clause is replaced by its copy without pivot and false literals; the models stay the same |
| VariableElimination.ElimPropagate | external/cadical/src/elim.cpp:142-205 | Propagation over occurrence lists terminates and keeps exactly the models; unless the empty clause is found, no clause with a new unit is left, and each one with its negation has a true literal or two that are not false |
| VariableElimination.ResolveClauses | external/cadical/src/elim.cpp:264-451 | Keeps exactly the models; a leftover resolvent is implied, non-tautological and changes nothing; without one the pair needs no resolvent and has no proper one any more; pairs that are quiet change nothing |
| VariableElimination.FinishResolvent | external/cadical/src/elim.cpp:388-451 | The empty, unit, self-subsuming and doubly self-subsuming cases each change the database and finish the pair without changing the models |
| FastElimination.FlushElimfastOccs | external/cadical/src/elimfast.cpp:15-43 | Within both limits the list becomes exactly its live clauses and the result counts them; otherwise the result is one above the limit; no live clause is lost |
| FastElimination.SortIsOrdered | external/cadical/src/elimfast.cpp:232-236 | The occurrence list is ordered by clause size and keeps every entry |
| FastElimination.ElimfastResolventsAreBounded | external/cadical/src/elimfast.cpp:55-131 | Keeps exactly the models; true means that the criterion holds for the clauses it leaves, false without a decision that it failed for those at the start, and these are the same if all pairs are quiet |
| FastElimination.ProperPairsCount | external/cadical/src/elimfast.cpp:95-127 | The counter of the criterion is the number of pairs of clauses with a proper resolvent |
| FastElimination.BoundedSorted | external/cadical/src/elimfast.cpp:232-236 | Sorting the lists changes neither the criterion nor whether all pairs are quiet |
| FastElimination.BoundedSwap | external/cadical/src/elimfast.cpp:207-221 | Nor does exchanging the two phases of the pivot |
| FastElimination.AddResolvents | external/cadical/src/elimfast.cpp:139-180 | Keeps exactly the models; unless unsatisfiable, every pair of positive and negative clauses is finished |
| FastElimination.MarkEliminatedClausesAsGarbage | external/cadical/src/elim.cpp:611-671 | No clause mentions the pivot any more; no model is lost and the pushed entries reconstruct models of everything removed |
| FastElimination.Eliminate | external/cadical/src/elimfast.cpp:238-247 | Over the whole run so far no model is lost and every remaining model extends backward to the original clauses; the variable is retired and not mentioned |
| FastElimination.TryToFastEliminateVariable | external/cadical/src/elimfast.cpp:185-256 | The same promise; an inactive pivot or too many occurrences change nothing; otherwise the variable goes only if the criterion holds for the clauses that counting leaves, and if it stays and is undecided the criterion failed for the flushed lists; when the product fits or all pairs are quiet, counting changes nothing |
| BlockedClauses.FindHit | external/cadical/src/block.cpp:75-120 | Finds the first literal that makes a resolvent tautological and moves it to the front, or restores the literals unchanged |
| BlockedClauses.IsBlockedClause | external/cadical/src/block.cpp:43-145 | True exactly when the clause clashes with every clause in the list of the negated literal; literals are only permuted, and the list is unchanged or has the first clause that does not clash, and no other, moved to the front |
| BlockedClauses.BlockedIsSound | external/cadical/src/block.cpp:249-290 | Removing a blocked clause loses no model, and flipping the literal when needed restores one |
| BlockedClauses.BlockPureLiteral | external/cadical/src/block.cpp:249-290 | Exactly the clauses with the pure literal are removed; the run stays sound and the variable is retired |
| BlockedRemoval.BlockedStays | external/cadical/src/block.cpp:545-640 | Removing other clauses with the literal does not change which clauses are blocked on it |
| BlockedRemoval.BlockLiteralWithOneNegativeOcc | external/cadical/src/block.cpp:298-429 | Exactly the blocked clauses of admissible size are removed, and the run stays sound |
| BlockedRemoval.BlockCandidates | external/cadical/src/block.cpp:435-495 | The candidates are exactly the live positive clauses of admissible size with a literal that is negated in some negative clause |
| BlockedRemoval.BlockImpossible | external/cadical/src/block.cpp:500-540 | True exactly when some negative clause clashes with no candidate, and then no candidate is blocked |
| BlockedRemoval.BlockLiteralWithAtLeastTwoNegativeOccs | external/cadical/src/block.cpp:545-640 | Exactly the blocked clauses of admissible size are removed, and the run stays sound |
| BlockedRemoval.BlockLiteral | external/cadical/src/block.cpp:690-733 | With too many negative occurrences nothing changes, a pure literal loses all its clauses, and otherwise exactly the blocked clauses of admissible size go |
| Simplification.Simplify | external/cadical/src/extend.cpp:121-204 | Makes the attempts in order, each with its own outcome, until the clauses are found unsatisfiable, and any sequence keeps the promise over the whole run |
| Simplification.ExtendModel | external/cadical/src/extend.cpp:121-204 | A model of what is left, run through the backward pass, satisfies every original clause and agrees on frozen variables |
| Simplification.FrozenStay | external/cadical/src/extend.cpp:121-204 | The backward pass keeps the values of frozen variables |
| Simplification.EquisatisfiableUnderAssumptions | external/cadical/src/block.cpp:690-696 | The same under any assumptions on frozen variables |
| Simplification.Equisatisfiable | external/cadical/src/elimfast.cpp:185-256 | The original clauses have a model if and only if the simplified ones have |
| AndInverterGraphs.EvalStable | external/cadical/contrib/craigtracer.cpp:137-163 | Growing the graph changes no earlier value |
| AndInverterGraphs.NodesAreUnique | external/cadical/contrib/craigtracer.cpp:137-163 | Structural hashing never builds the same node twice |
| AndInverterGraphs.Aig.CreateVar | external/cadical/contrib/craigtracer.cpp:118-130 | The edge has the value of the variable; the graph only grows |
| AndInverterGraphs.Aig.CreateAnd | external/cadical/contrib/craigtracer.cpp:137-163 | With all simplifications and hashing, the edge is the conjunction; no earlier node changes and no variable is added |
| AndInverterGraphs.Aig.CreateAndAll | external/cadical/contrib/craigtracer.cpp:165-186 | Pairwise reduction terminates and yields the conjunction of the list, true for the empty list |
| AndInverterGraphs.Aig.CreateOrAll | external/cadical/contrib/craigtracer.cpp:192-196 | The disjunction of a list |
| AigCnf.NamePending | external/cadical/contrib/craigtracer.cpp:218-270 | The pending loop terminates, names the node and everything below it, and its clauses define each name and constrain nothing else |
| AigCnf.CreateCnf | external/cadical/contrib/craigtracer.cpp:198-277 | Constants give the empty clause or none; otherwise the clauses before the last define the literal of the last as the value of the root |
| AigCnf.DefinesExactly | external/cadical/contrib/craigtracer.cpp:198-277 | For every assignment, some choice of the fresh variables satisfies the clauses exactly when the root is true, and with the last literal negated exactly when it is false |
| Interpolation.ResolutionKeepsPartial | external/cadical/contrib/craigtracer.cpp:677-745 | For each of the four constructions, combining two partial interpolants by the rule for the pivot label gives a partial interpolant of the resolvent |
| Interpolation.InitialIsPartialA | external/cadical/contrib/craigtracer.cpp:619-675 | What an A clause starts with is a partial interpolant of it |
| Interpolation.InitialIsPartialB | external/cadical/contrib/craigtracer.cpp:619-675 | What a B clause starts with is a partial interpolant of it |
| Interpolation.EmptyClauseInterpolates | external/cadical/contrib/craigtracer.cpp:823-835 | A partial interpolant of the empty clause is implied by A and contradicts B |
| ResolutionChains.FollowedIsPartial | external/cadical/contrib/craigtracer.cpp:425-462 | Whatever the chain is, the combined interpolant is a partial interpolant of the clause that following the marks leaves |
| ResolutionChains.PropagationFollowsClause | external/cadical/contrib/craigtracer.cpp:425-462 | If the chain is a unit propagation from the negated clause, each antecedent but the last giving a value to a literal that has none and the last one false, following leaves literals of the clause only |
| ResolutionChains.FollowedExactly | external/cadical/contrib/craigtracer.cpp:425-462 | On every linear resolution, told by the current clause only, the followed clause is the resolvent together with the pivots that stale marks bring back and no later step absorbs |
| ResolutionChains.FollowedIsResolventIff | external/cadical/contrib/craigtracer.cpp:425-462 | On every linear resolution the followed clause is the resolvent, or stays within it, exactly when every pivot brought back is absorbed later |
| ResolutionChains.JustifiedIsPartial | external/cadical/contrib/craigtracer.cpp:425-462 | For such propagations and such resolutions the combined interpolant is one of the derived clause, in each construction |
| ResolutionChains.StaleMarkFails | external/cadical/contrib/craigtracer.cpp:979-989 | A linear resolution of {1, 3} from {1, 2}, {-1, 3} and {-2, 1} for which following leaves -2 as well, because the mark of -1 is stale |
| ResolutionChains.StaleMarkLosesInterpolant | external/cadical/contrib/craigtracer.cpp:677-745 | Along that chain the symmetric construction gives the empty clause an interpolant that A does not imply |
| LostInterpolants.KeptIffFollowed | external/cadical/contrib/craigtracer.cpp:677-745 | In each construction, combining keeps the interpolants for all labels, clauses and antecedents with interpolants exactly if following leaves literals of the derived clause only; otherwise original clauses that fit their labels give antecedents for which A does not imply what is combined |
| LostInterpolants.KeptIffAbsorbed | external/cadical/contrib/craigtracer.cpp:425-462 | So a linear resolution keeps the interpolants of all its antecedents, in each construction, exactly if every pivot brought back by a stale mark is absorbed later; otherwise antecedents resolved from original clauses lose one |
| CraigTracing.CreateInterpolant | external/cadical/contrib/craigtracer.cpp:619-675 | The edge built for an original clause stands for its initial interpolant, over global variables only |
| CraigTracing.CraigTracer.AddOriginalClause | external/cadical/contrib/craigtracer.cpp:396-423 | The stored data stand for the initial interpolants; if the clause keeps to its own side, all stored clauses stay interpolated |
| CraigTracing.CraigTracer.ExtendWithResolution | external/cadical/contrib/craigtracer.cpp:677-745 | In every enabled construction the new edge stands for the combination of the two interpolants that the pivot label calls for |
| CraigTracing.DerivedInterpolates | external/cadical/contrib/craigtracer.cpp:425-462 | A derived clause keeps all stored clauses interpolated if following its chain stays within it |
| CraigTracing.CraigTracer.AddDerivedClause | external/cadical/contrib/craigtracer.cpp:425-462 | For every chain the stored data stand for what following the marks combines; every clause stays interpolated if the followed clause is within the derived one, so for every justified chain |
| CraigTracing.CraigTracer.CreateCraigInterpolant | external/cadical/contrib/craigtracer.cpp:805-835 | The clauses mean exactly the interpolant that the data stand for, the dual symmetric one negated; they mention no variables but global and fresh ones, and depend on the global ones only; while all clauses are interpolated they are implied by A and contradict B |
| Propagation.NothingFalsifiedOrUnit | external/cadical/src/checker.cpp:384-445 | After successful propagation every live clause has a true literal or two open ones |
| Propagation.BackAtBase | external/cadical/src/checker.cpp:362-376 | Taking back the trail restores the watch invariant, however the watches moved |
| WatchedClauses.FlushedStore | external/cadical/src/checker.cpp:121-168 | After a collection the watch lists are in order and no watch refers to a freed clause |
| ProofChecker.Checker.Propagate | external/cadical/src/checker.cpp:384-445 | Terminates; success leaves every trail literal settled, failure shows that nothing satisfies the clauses and the trail |
| ProofChecker.Checker.NewClause | external/cadical/src/checker.cpp:38-73 | The stored clause has exactly the given literals and watches two open ones |
| BlockedTest.BlockedIffLeft | external/cadical/src/checker.cpp:459-496 | A clause is blocked on a literal by everything that propagation uses exactly if the test leaves the literal marked and overlooks nothing: its negation is not on the trail, nor in a deleted binary clause that is still watched and clashes nowhere else |
| BlockedTest.FlipRepairs | external/cadical/src/checker.cpp:459-496 | Making a literal true on which the clause is blocked repairs every assignment that satisfies everything in play but not the clause |
| BlockedTest.UnitIsOverlooked | external/cadical/src/checker.cpp:459-496 | After the unit -1 the clause {1} passes the test, although nothing satisfies both |
| BlockedTest.DeletedIsOverlooked | external/cadical/src/checker.cpp:459-496 | With {-1, 2} and {-1, -2} deleted but not freed, {1} passes the test, although nothing satisfies it together with the clauses that propagation still uses |
| ProofChecker.Checker.CheckBlocked | external/cadical/src/checker.cpp:459-496 | The answer is true exactly if some literal of the clause is refuted by no live clause |
| ProofChecker.Checker.Check | external/cadical/src/checker.cpp:447-457 | Success means the clause is entailed by the clauses in play and the trail, and so by everything accepted; failure means propagation got stuck without a conflict; values, trail and propagation position are restored exactly |
| ProofChecker.Checker.AddClause | external/cadical/src/checker.cpp:500-539 | Exactly the assignments in force that satisfy the clause stay in force, none if the checker is inconsistent then; otherwise the clause is stored or has a true literal |
| ProofChecker.Checker.Tautological | external/cadical/src/checker.cpp:269-289 | Otherwise the clause is deduplicated with the same literals, none of them true |
| ProofChecker.Checker.AddOriginalClause | external/cadical/src/checker.cpp:541-558 | Exactly the assignments in force that satisfy the clause stay in force, after a collection of garbage if there is one |
| ProofChecker.Checker.AddDerivedClause | external/cadical/src/checker.cpp:560-587 | A clause is accepted if it follows from what is in play or passes the test for blocked clauses; then exactly the assignments that satisfy it stay, and if it is blocked by everything in use, each one lost stays with one literal made true; rejection means neither holds and changes nothing but literal order |
| ProofChecker.Checker.RefutationIsReal | external/cadical/src/checker.cpp:500-587 | If the checker is inconsistent after any run of additions, derivations, deletions and collections, the original clauses have no model, unless a clause that does not follow passed the test with something overlooked, or an original clause was added after one that passed the test only |
| ProofChecker.Checker.DeleteClause | external/cadical/src/checker.cpp:589-623 | Exactly one live clause with these literals becomes garbage, or there is none; nothing leaves what is in force, and a binary clause stays in force until it is freed |
| ProofChecker.Checker.CollectGarbageClauses | external/cadical/src/checker.cpp:121-168 | Exactly the satisfied clauses become garbage, all garbage is freed, only watches of live clauses remain, and exactly what satisfies the live clauses and the trail is in force |
| FaultGroups.Entries.FindRoot | src/fault/equivalence.c:31-42 | Returns the root the fault had before and compression changes no root |
| FaultGroups.Entries.MergeFaults | src/fault/equivalence.c:44-58 | The groups become the classes of the merged pairs with one more pair |
| FaultGroups.Entries.WalkToRoot | src/fault/equivalence.c:326-333 | The look-up without compression finds the same root |
| FaultGroups.SameRootIffConnected | src/fault/equivalence.c:31-58 | Two faults have the same root exactly when the reflexive, symmetric and transitive closure of the merged pairs relates them |
| FaultGroups.ChainIsShort | src/fault/equivalence.c:31-58 | Two to the length of a parent chain is at most the size of the class |
| FaultGroups.SizesAreRight | src/fault/equivalence.c:44-58 | Root sizes are class sizes and add up to the number of faults |
| Levels.LevelTable.ComputeLevelOf | src/fdp/context.c:47-60 | Returns the level and only fills unknown entries with right values |
| Levels.LevelTable.ComputeLevels | src/fdp/context.c:62-69 | Every net gets its level, the number of gates on the longest way from an input |
| Levels.LevelIsDepth | src/fdp/context.c:47-60 | No way through gates to a net passes more gates than its level, and some way from an input passes as many |
| Levels.LevelsRank | src/fdp/context.c:47-69 | Levels rise strictly from the inputs to the output of every gate |
| FaultCollapsing.PairActsAlike | src/fault/equivalence.c:67-100 | If a private input stuck at v forces a gate to w, then beyond that input it acts like the output stuck at w, for every input vector |
| FaultCollapsing.GateRules | src/fault/equivalence.c:79-100 | A pair is merged at a gate exactly if it is an input value that fixes the output and the output value fixed by it, where a gate is no branch, input or state element |
| FaultCollapsing.StructuralPairsExactly | src/fault/equivalence.c:67-100 | The structural pairs are exactly those of all gates, for transition faults only of BUF and INV with both copies in their frames |
| FaultCollapsing.CollapsedFaultsAreSame | src/fault/equivalence.c:60-100 | In fan-out normal form, faults related by structural pairs and truly equivalent external pairs give the same outputs on every input vector |
| FaultCollapsing.CollapsedTransitionsAreSame | src/fault/equivalence.c:67-100 | On a time-expanded netlist, transition faults related by structural pairs and truly equivalent external pairs are detected by the same vectors at the same nets |
| FaultSelection.AddStructuralEquivalences | src/fault/equivalence.c:67-100 | Exactly the pairs of the gate rules are merged, and exactly the input-side faults stop being targets |
| FaultSelection.ChooseRepresentatives | src/fault/equivalence.c:242-258 | Each root gets the choice of the scan, no partition changes, and the count is the number of groups met |
| FaultSelection.ChosenIsLeast | src/fault/equivalence.c:242-258 | The chosen fault is least by level and then by table position; there is none exactly when no fault of the table is in the group |
| FaultSelection.LeastIsUnique | src/fault/equivalence.c:242-258 | There is only one such fault |
| FaultSelection.ChoiceDependsOnPartition | src/fault/equivalence.c:239-258 | Partitions with the same classes choose the same representative, whatever the pairs and roots |
| TargetOrders.CompareIsOrder | src/fault/target_fault.c:17-26 | The comparison is antisymmetric, transitive and separates entries of different rank |
| TargetOrders.InitTargetOrder | src/fault/target_fault.c:35-63 | The filled and sorted entries are those of the fault table, by level and then by table position |
| TargetOrders.ChosenComesFirst | src/fault/target_fault.c:17-63 | The chosen representative is the first of its group in that order |
| TargetOrders.CopyTargetOrder | src/fault/target_fault.c:66-74 | The faults come in that order, so the first one of every group is its representative |
| FaultSelection.RemoveNonrepresentatives | src/fault/equivalence.c:260-277 | The table keeps exactly the representatives, in unchanged relative order |
| FaultSelection.KeptInOrder | src/fault/equivalence.c:260-277 | Every fault of the table keeps its place among the others exactly if it is a representative |
| FaultSelection.PrunedKeepsTheLeast | src/fault/equivalence.c:260-277 | A fault stays in the table exactly when it is the least of its group |
| FaultTables.CreateFault | src/fault/fault_list.c:134-169 | Puts the fault at the head of its bucket unless it is there already; nothing else changes |
| FaultTables.GenerateFaults | src/fault/fault_list.c:67-121 | The table holds exactly the sites whose test flag is still set, each bucket in descending order |
| FaultTables.ListFaults | src/fault/fault_list.c:41-66 | The table holds exactly the listed faults, in each bucket the one listed latest first |
| FaultTables.EveryFaultHasTarget | src/fault/equivalence.c:60-100 | From every fault, pairs lead to a fault of its class whose test flag is still set |
| FaultTables.EveryFaultIsRepresented | src/fault/equivalence.c:284-318 | So in automatic mode every requested fault has a representative, whatever external pairs are added |
| FaultTables.CollectMembers | src/fault/equivalence.c:304-317 | Succeeds exactly when every requested fault has a representative, and then lists each group in ascending order |
| FaultTables.FinalizeFaultEquivalence | src/fault/equivalence.c:284-324 | Succeeds exactly when the pairs were read and every requested fault meets a group of the table; the finished table, members and counts are those of the partition, the count before being that of the partition found |
| FaultTables.FaultTable.ReadFault | src/fault/fault_list.c:36-125 | Fails only for an empty netlist or a bad equivalence file: the missing-representative error is unreachable; the table before pruning holds exactly the listed faults, or the sites that no gate rule makes equivalent to an output |
| ResultFile.WriteFaultResult | src/io/fault_csv.c:4-25 | The first row reads back as the target, with a numeral of cube_cnt, 1 exactly if complete, the density and itself as representative; every other row is for another member, in order, with blank counter and flag, the same density and the target as representative |
| ResultFile.DigitsAreNumeral | src/io/fault_csv.c:12-15 | The counter is written in decimal notation without leading zeros |
| ResultFile.IncompleteAreUnfinished | src/io/fault_csv.c:4-25 | As many rows are marked incomplete as results are not complete |
| ResultFile.ZerosAreUndetectable | src/io/fault_csv.c:4-25 | As many rows have the value zero as requested faults belong to a group whose result is zero |
| ResultFile.MembersAreTheGroup | src/fault/equivalence.c:304-317 | A member list is the requested part of the group, each fault once, ascending |
| ResultFile.RowsAreConserved | src/io/fault_csv.c:4-25 | All results together give exactly one row per requested fault, and the blank rows number numequiv |
| ResultFile.CsvField | src/coverage/coverage.c:33-48 | Returns the given column cut to fit the buffer, empty when there is none |
| ResultFile.CsvFindColumn | src/coverage/coverage.c:51-61 | Returns the first column of that name, or -1 exactly when there is none |
| ResultFile.ColumnOfJoin | src/coverage/coverage.c:33-48 | Fields without separators come back unchanged from a joined line |
| ResultFile.AccumulateFaults | src/coverage/coverage.c:76-124 | Succeeds exactly when the columns exist, all values are probabilities and some line has a value; the counts are the numbers of lines with a value, with value 0, with a blank counter and with complete 0 |
| ResultFile.FileMatchesSummary | src/coverage/coverage.c:76-124 | The written header has the columns that reading looks for, and the lines count to Nf = output_faults, Neq = numequiv, the unfinished results and the undetectable requested faults |
| ResultFile.ReadBack | src/coverage/coverage.c:76-124 | Reading the written file succeeds exactly when some fault was requested, and then returns these counts |
| TimeExpansion.CopiesDiffer | src/netlist/expand_tdf.c:92-110 | Copies are numbered in the order of the nets without gaps or clashes, the second copy right after the first; only a primary input shares its copy |
| TimeExpansion.ExpansionIsAcyclic | src/netlist/expand_tdf.c:87-192 | The expansion has a ranking and no state element |
| TimeExpansion.FirstCopyValue | src/netlist/expand_tdf.c:87-192 | The first copy of a net has its value in cycle one |
| TimeExpansion.SecondCopyValue | src/netlist/expand_tdf.c:87-192 | The second copy has its value in cycle two, after the capture |
| TimeExpansion.PortsCaptureTwice | src/netlist/expand_tdf.c:65-85 | The nets observed at the end hold the second capture of the state elements |
| TimeExpansion.ExpansionIsMirrored | src/netlist/expand_tdf.c:14-40 | The output lists are exactly the converse of the input lists, with multiplicity |
| TimeExpansion.ExpansionIsFrameNormal | src/netlist/expand_tdf.c:87-192 | From a netlist in fan-out normal form the expansion has the form that transition collapsing needs |
| TimeExpansion.ExpandedCollapsingIsSound | src/netlist/expand_tdf.c:87-192 | Transition faults merged on the expansion, with truly equivalent further pairs, are detected by the same vectors at the same nets |
| TimeExpansion.Design.ConnectFrameOutputs | src/netlist/expand_tdf.c:24-40 | The edge to a state element leads from frame one into frame two and nowhere else |
| TimeExpansion.FrameOutputsInOrder | src/netlist/expand_tdf.c:24-40 | The edges of a copy keep the order of the original ones, each with its copy or none at its place |
| TimeExpansion.Design.BuildScanPorts | src/netlist/expand_tdf.c:65-85 | The state ports are the first copies of the state elements, the capture ports the second copies of what they capture |
| TimeExpansion.DrivingThePorts | src/netlist/expand_tdf.c:65-85 | A vector drives the new input ports with the values of the old ones and of the states exactly if the copies carry inputs and initial states |
| TimeExpansion.ExpandedInputs | src/netlist/expand_tdf.c:194-201 | If the old ports list every input once, so do the new ones |
| TimeExpansion.PortsHaveValues | src/netlist/expand_tdf.c:65-85 | In ascending order, each state port has the value of its state, each capture port its second capture, and each output port its value in cycle two |
| TimeExpansion.Design.ExpandTdfNetlist | src/netlist/expand_tdf.c:87-220 | The netlist becomes its expansion and no flip-flop is left; if the old ports listed every input once, the new ones do, the old inputs followed by the states drive it, and all ports have the values of the right cycle |
| Connection.NetsFit | src/netlist/netlist.c:479-505 | The nets made never outnumber those allocated |
| Connection.SlotsAreFilled | src/netlist/netlist.c:797-821 | In the end every output slot of a signal is filled |
| ConnectedNetlist.PinsAreConnected | src/netlist/netlist.c:856-940 | Input j of a gate leads to the signal of pin j directly or by one private branch |
| ConnectedNetlist.ConnectionIsFanoutNormal | src/netlist/netlist.c:826-940 | Every net that a gate other than a branch reads has one sink and is no output port |
| ConnectedNetlist.ConnectionIsMirrored | src/netlist/netlist.c:826-940 | The output lists are the converse of the input lists, with multiplicity |
| SignalConnector.Connector.CountOutputs | src/netlist/netlist.c:797-821 | One slot per use and one more for a used output port |
| SignalConnector.Connector.FindFree | src/netlist/netlist.c:892-898 | The free-slot scan stays in range and finds the first free slot |
| SignalConnector.Connector.ConnectPin | src/netlist/netlist.c:830-850 | One pin: connected directly, by a branch, or by a branch with another one for the port at its first use |
| SignalConnector.Connector.ConnectionYesFout | src/netlist/netlist.c:875-907 | A branch goes between the signal and the gate, in the first free slots |
| SignalConnector.Connector.ConnectionPoFout | src/netlist/netlist.c:912-936 | The port gets a branch without readers |
| SignalConnector.Connector.ConnectionSignal | src/netlist/netlist.c:785-940 | Every slot is filled, the nets fit the allocation, and the result is the connected netlist in fan-out normal form |
| ConnectedCollapsing.ConnectionIsAcyclic | src/netlist/netlist.c:826-940 | Connecting the signals of an acyclic design makes no cycle |
| ConnectedCollapsing.ConnectionKeepsGates | src/netlist/netlist.c:785-940 | In the connected netlist every gate output has the value that the gate of the design makes of the values of its signals |
| ConnectedCollapsing.ConnectionKeepsInputs | src/netlist/netlist.c:785-840 | Every primary input has the value of the environment |
| ConnectedCollapsing.ConnectionKeepsPorts | src/netlist/netlist.c:909-936 | Every output port has the value of its signal, whether or not it is moved to a branch |
| ConnectedCollapsing.StuckAtCollapsingIsSound | src/fault/equivalence.c:60-100 | For every acyclic design as read, stuck-at collapsing with truly equivalent external pairs on its connected netlist is sound at its output ports |
| ConnectedCollapsing.TransitionCollapsingIsSound | src/fault/equivalence.c:60-100 | For every acyclic design as read, transition collapsing with truly equivalent external pairs on the expansion of its connected netlist is sound |
| CubeEnumeration.BlockingClauseBlocks | src/fdp/analysis.c:40-49 | The blocking clause excludes exactly the patterns of the cube |
| CubeEnumeration.AnalyzeOneFault | src/fdp/analysis.c:91-131 | Ends within 2^n cubes, each covering a new pattern; complete means the cubes are exactly the detecting patterns, incomplete means exactly the limit of cubes and a detecting pattern uncovered; failures are those of the oracles |
| CubeEnumeration.NothingOpen | src/fdp/analysis.c:98-131 | When the solver finds no model, exactly the detecting patterns are covered |
| CubeEnumeration.DensityIsExactOrLess | src/fdp/analysis.c:53-72 | The covered share is the detection probability when complete, and strictly less when cut off |
| WorkerPool.AnalyzeSerially | src/fdp/analysis.c:164-181 | Writes the outputs up to the first failure: the rows of each fault stand behind those of all faults before it, and the cube files in ascending order |
| WorkerPool.ConcatIsInOrder | src/fdp/analysis.c:164-181 | The concatenation has the rows of each fault at its offset with nothing between them, and exactly the cube files of faults that have one, in ascending order |
| WorkerPool.ConcatContinues | src/fdp/worker_pool.c:306-325 | What is written for fewer faults is a beginning of what is written for more |
| WorkerPool.FaultPool.AssignNextFault | src/fdp/worker_pool.c:252-263 | The next fault goes to this worker only; fails only when sending fails |
| WorkerPool.FaultPool.ReceiveFaultResult | src/fdp/worker_pool.c:266-303 | Accepts exactly the successful reply for the fault the worker holds; the already-answered test can never fire |
| WorkerPool.FaultPool.WriteReadyResults | src/fdp/worker_pool.c:306-325 | The output is always the concatenation for the faults before next_output, only ever continued, and nothing ready is left waiting |
| WorkerPool.FaultPool.HandleWorker | src/fdp/worker_pool.c:335-346 | Each handled reply completes exactly one more fault and keeps every invariant |
| WorkerPool.FaultPool.CollectFaultResults | src/fdp/worker_pool.c:328-350 | Success means all outputs are written in fault order, every other end leaves a prefix, and it succeeds exactly when the rounds bring all answers in before anything goes wrong |
| WorkerPool.GoodRoundsSucceed | src/fdp/worker_pool.c:328-350 | If whoever replies replies for the fault held, sending works and nothing is cancelled, a run succeeds exactly when there are enough replies |
| WorkerPool.SomeoneIsWorking | src/fdp/worker_pool.c:328-350 | While answers are missing some worker holds a fault, so polling is never in vain |
| WorkerPool.FaultsAreHeldOnce | src/fdp/worker_pool.c:252-263 | No two workers hold the same fault |
| WorkerPool.FaultPoolRun | src/fdp/worker_pool.c:420-485 | For any order of replies, a successful run writes all outputs in fault order as the serial loop does, any run those of the first faults, and the run succeeds exactly when all workers start, the rounds succeed and the workers end well |
| SamplingProbability.MissingIsShare | src/coverage/coverage_model.c:110-112 | The running product is the share of the missing patterns among all choices of n patterns: a quotient of binomial coefficients |
| SamplingProbability.MissingBounds | src/coverage/coverage_model.c:112-150 | The product lies in [0, 1] and is 0 exactly when more patterns are drawn than miss |
| SamplingProbability.WithoutMissesLess | src/coverage/coverage_model.c:110-150 | Without replacement misses are at most as likely as with it, and strictly less from the second pattern on |
| CoverageModels.SetPatternCounts | src/coverage/coverage_options.c:66-73 | The counts are strictly ascending with exactly the given values |
| CoverageModels.AscendingIsUnique | src/coverage/coverage_options.c:66-73 | So they do not depend on the order or repetitions of what was given |
| CoverageModels.PowerUi | src/coverage/coverage_model.c:57-69 | Repeated squaring computes the power |
| CoverageModels.RoundDetectingPatterns | src/coverage/coverage_model.c:97-108 | The result is within [1, N] and within one half of D*N where that is in range |
| CoverageModels.DetectionIsProbability | src/coverage/coverage_model.c:72-150 | Both detection probabilities lie in [0, 1] and never fall with Np; the second is 1 exactly when Np exceeds N - Fd |
| CoverageModels.DetectsWithStep | src/coverage/coverage_model.c:72-94 | Without patterns nothing is detected, and each further one detects what is left with the density as probability |
| CoverageModels.WithoutDetectsMore | src/coverage/coverage_model.c:72-150 | If Fd = D*N, sampling without replacement detects at least as well as with it |
| CoverageModels.CoverageIsShare | src/coverage/coverage_model.c:72-156 | The coverage sums lie between 0 and the number of faults and never fall with Np |
| CoverageModels.WithoutCoversMore | src/coverage/coverage_model.c:72-156 | With exact densities the coverage sum without replacement is at least the one with it |
| CoverageModels.CoverageModel.AddWithReplacement | src/coverage/coverage_model.c:72-94 | The incremental product gives 1 - (1-D)^Np for every Np |
| CoverageModels.CoverageModel.AddWithoutReplacement | src/coverage/coverage_model.c:112-150 | The incremental product gives one minus the share of missing choices for every Np, and no denominator is zero |
| CoverageModels.CoverageModel.AddFault | src/coverage/coverage_model.c:152-156 | Both sums are those over all faults added so far |

## Left out

- FaultTables.FaultTable.ReadFault: does not model reading and parsing fault lists and equivalence files; the listed faults and pairs are parameters, and a file that cannot be read is a flag.
- FaultTables.CreateFault: does not model names and fault texts; a fault is its number, names are distinct, and the checksum of its text is a parameter.
- ResultFile.RowsAreConserved: holds for any order of the remaining targets; that the analysis follows the order of TargetOrders is not needed for it.
- ResultFile.AccumulateFaults: does not model number formats; reading a probability is a parameter, and adding to the coverage model is in CoverageModels.
- TimeExpansion.Design.ExpandTdfNetlist: models plain flip-flops only, and no allocation failures or names of copies.
- SignalConnector.Connector.ConnectionSignal: does not model parsing, names of nets or branches, or the reports about unused signals; the read design is a parameter, and its pins are listed in the order of connection.
- CubeEnumeration.AnalyzeOneFault: does not model the solver, the generalisation of a model to a cube, or the decision diagrams; they are parameters with contracts, and may fail.
- WorkerPool.FaultPoolRun: does not model processes, sockets, polling, signals or write errors; each round says which workers replied, with what, and whether sending worked.
- WorkerPool.FaultPool.CollectFaultResults: promises no progress when replies stop coming, as the program then waits.
- CoverageModels.CoverageModel.AddFault: computes with exact reals, not with rounded numbers of a chosen precision.
- CoverageModels.SetPatternCounts: does not model parsing the text of the option; the library sort is an insertion sort here.
- EquivalentLiterals.Decomposer.DecomposeRound: ends with the representatives; substituting them in the clauses, proof chains and statistics are not part of this model.
- Extension.ExtensionStack.Extend: does not model the mapping between inner and outer literals, witness marks, or growing the value array; clause identifiers are opaque words.
- ClauseDatabase.Solver.NewClause: does not model redundant clauses, arenas, proof output or the heap of candidate variables.
- FastElimination.TryToFastEliminateVariable: does not model the backward subsumption that follows an attempt, effort limits, or the order in which variables are tried; occurrence counters are the lengths of lists.
- FastElimination.ElimfastResolventsAreBounded: when counting changes the clauses, a criterion that fails before and holds afterwards may be answered either way.
- BlockedRemoval.BlockLiteral: does not model rescheduling, the skip marks of literals in oversized clauses, or the counters of occurrences, which are counted in the lists.
- VariableElimination.ResolveClauses: does not model gate clauses or the bookkeeping of resolution steps.
- Simplification.Simplify: leaves the choice and order of attempts open instead of modelling the rounds.
- ProofChecker.Checker.AddDerivedClause: promises repair of what a clause passing the test alone takes away only if the test overlooks nothing, because of the inputs of BlockedTest.UnitIsOverlooked and BlockedTest.DeletedIsOverlooked.
- ProofChecker.Checker.AddClause: whether there is enough garbage for a collection is a parameter; the table sizes that decide it are not modelled.
- ProofChecker.Checker.DeleteClause: compares identifiers directly, and searches the clauses in order, without a hash table.
- CraigTracing.CraigTracer.AddDerivedClause: promises partial interpolants for justified chains only, because the code loses them on the chain of ResolutionChains.StaleMarkFails; labels are fixed at the start, and deleted or restored clauses are not modelled.
- CraigTracing.CraigTracer.CreateCraigInterpolant: does not model the union, intersection, smallest and largest choice among several interpolants, nor conclusions from assumptions and constraints.
- CraigTracing.CraigTracer.AddOriginalClause: promises partial interpolants only if the clause has no literal local to the other side, as the labels of the caller are to ensure.
- Integer widths: counters, identifiers and literals are unbounded, except that the visit numbers of the search for equivalent literals stay below the mark for finished literals.
- Gate-based elimination with extracted definitions, and the heuristics, schedules, statistics and reports of all components.
- The SAT search itself, clause generation for a fault, and the decision diagram package.
