# CNF decision machinery of SAT_Solvers_2, in Dafny

This project models the propositional-CNF core of a small Python SAT-solver
collection:
- **Functions.py**: the clause model, the unit-clause and pure-literal
  rules, their alternation to a fixpoint, and pairwise resolution with the
  single resolution pass used by Davis–Putnam.
- **Methods.py**: the six branching heuristics behind `literal_choice`.

It proves properties of that model.

A literal is an `int`, a clause a `set<int>` and a formula (clause set) a
`set<set<int>>`. The contradiction sentinel `{frozenset()}` is the formula
`{{}}`. Literals are meant to be nonzero. The well-formedness predicate
`Clauses.WellFormed` says so, and only the lemmas about satisfiability
require it.

Each Python loop that rebinds variables is a Dafny `method` with a loop.
Python's set iteration order is the verifier's arbitrary choice (`:|`).
Each method is proved against a specification function:
- `Simplification.UnitPass`: the unit literals applied in a given order.
- `Simplification.PropagateAll` and `Simplification.Reduce`: a whole run of
  unit propagation, literal by literal and in closed form.
- `Simplification.UnitRuleSpec`, `Simplification.PureRuleSpec` and
  `Simplification.RoundSpec`: what the unit-clause rule, the pure-literal
  rule and one round of `apply_simplifications` may return.
- `Simplification.RemoveClausesWith`: the clauses left after removing every clause that holds any literal of a given set.
- `Resolution.ResolutionStep`: the three outcomes of one resolution pass.
- `Heuristics.Occ`, `Heuristics.DlisScore` and `Heuristics.JwScore`: the scores the heuristics maximise.

Besides the shape of each result, the model proves what the rules mean. A
propositional semantics (`Assignment`, `Models`, `Satisfiable`) shows that:
- every simplification and resolution step preserves satisfiability;
- a unit-clause conflict, or an empty resolvent, means the input was
  unsatisfiable.

Some inner loops are factored into methods of their own. Each carries the
loop's contract:
- `Simplification.ApplyUnitLiteral`, `Simplification.ApplyUnitLiterals` and
  `Simplification.RemovePureLiterals`: the `for` loops of the two rules.
- `Simplification.SimplifyRound`: the body of the `while` loop of
  `apply_simplifications`.
- `Resolution.CollectResolvents` and `Resolution.ScanPairs`: the loops of
  `limited_resolution_step`.
- the counting loops of the heuristics.

The docstring of `literal_choice` (Methods.py:9-15) gives one line per
heuristic. The model follows the code, which settles three points that
those lines leave open:
- `dlis` scores a literal `x` as `occ(x) + occ(-x)`, so `x` and `-x` always
  score the same, and the tie between them is broken by iteration order.
- `most_frequent_literal` counts signed literals: `x` and `-x` are counted
  apart.
- `moms` counts only literals whose variable, `abs(lit)`, occurs positively.
  It therefore returns `None` when every literal of the shortest clauses is a
  negative literal whose variable never occurs positively. `Heuristics.MomsCandidatesNonEmpty`
  shows this cannot happen once no literal is pure, which is how the DPLL
  driver calls it.

In Functions.py, `resolve` can meet more than one complementary pair between
two clauses. At most one of the resulting resolvents is not a tautology
(`Resolution.ResolventsAtMostOne`), so `resolve` returns at most one clause.

## Model

| member | source | states |
|---|---|---|
| Clauses.LiteralsIsUnion | Functions.py:34-38 | The literal universe is exactly the union of the clauses: every clause lies inside it, and each of its literals comes from some clause. |
| Clauses.LiteralSet | Functions.py:34-38 | The set accumulated by `literal_set` is the literal universe of the formula. |
| Clauses.IsUnitClause | Functions.py:61-65 | A clause is a unit clause exactly when it is nonempty and all its members are equal, so `next(iter(c))` names the whole clause. |
| Clauses.TautologyIffValid | Functions.py:56-57 | For a clause of nonzero literals, `is_tautology` holds exactly when the clause is true under every assignment. |
| Clauses.FindUnitClauses | Functions.py:61-71 | `l` is returned exactly when the unit clause `{l}` is in the formula. |
| Clauses.NoUnitClauseIffNoneFound | Functions.py:61-71 | `find_unit_clauses` returns nothing exactly when no clause has length one, which is the exit test of `unit_clause_rule`. |
| Clauses.FindPureLiterals | Functions.py:103-112 | `l` is returned exactly when it occurs in some clause and `-l` occurs in none. |
| Clauses.NoPureLiteralOpposed | Functions.py:103-112 | When no literal is pure, the complement of every occurring literal also occurs. |
| Clauses.EmptyClauseUnsatisfiable | Functions.py:91-94 | A formula holding the empty clause, such as the sentinel `{∅}`, has no model. |
| Simplification.Propagate | Functions.py:86-97 | After literal `l` is applied, no clause mentions `l` or `-l`, and each clause lies inside an input clause. |
| Simplification.PropagateShrinks | Functions.py:86-97 | Applying a unit literal never increases the number of clauses. |
| Simplification.PropagatePreservesSatisfiability | Functions.py:86-97 | Applying a unit literal `l` of a formula without `{-l}` keeps satisfiability in both directions. |
| Simplification.ConflictUnsatisfiable | Functions.py:91-94 | When striking `-l` empties a clause, `{l}` and `{-l}` are both present, so the input was unsatisfiable. |
| Simplification.ApplyUnitLiteral | Functions.py:86-97 | The result is `{∅}` with a conflict exactly when `{-l}` is present; otherwise it is the formula with `l` made true. |
| Simplification.UnitPassKeepsUnits | Functions.py:83-97 | During the for-loop, each unit clause not yet visited is still present, unless the formula became `{∅}`. |
| Simplification.UnitPassDerived | Functions.py:83-97 | The for-loop's result is subsumed by its input, is no larger, keeps satisfiability and has strictly fewer literals once a unit literal is applied. |
| Simplification.UnitPassAvoids | Functions.py:83-97 | After the for-loop, no clause mentions an applied unit literal in either polarity. |
| Simplification.UnitPassClash | Functions.py:83-97 | With complementary unit clauses `{x}` and `{-x}`, the pass ends in `{∅}` once it has visited either literal. |
| Simplification.PropagateNoNewEmpty | Functions.py:86-97 | Applying `l` when `{-l}` is absent creates no empty clause. |
| Simplification.ApplyUnitLiterals | Functions.py:83-97 | The loop applies the unit literals in some order of distinct literals. On a conflict it returns `{∅}`, and the last visited literal met its complement as a unit clause. Otherwise it has applied every unit literal one after the other, and the result holds the empty clause only if the input did. |
| Simplification.UnitRound | Functions.py:79-97 | A complete round derives its result from the input, removes a literal, eliminates the round's unit literals, and gives `{∅}` on complementary unit clauses. |
| Simplification.ReduceUnit | Functions.py:79-97 | A unit clause `{l}` of a reduced formula comes from an input clause that the reduction forces to `l`, and `-l` was not made true. |
| Simplification.ReduceDropsSatisfied | Functions.py:86-97 | When the made-true literals touch only some clauses, all of which they satisfy, the reduction just drops those clauses. |
| Simplification.ReduceKeepsUntouched | Functions.py:86-97 | A clause holding no made-true literal and no complement of one survives the reduction unchanged. |
| Simplification.PropagateReduce | Functions.py:86-97 | Applying one more unit literal `l` to a reduction, when `-l` was not made true, is the reduction with `l` made true as well. |
| Simplification.PropagateAllReduce | Functions.py:79-97 | Applying a run of literals, none after its own complement, one at a time gives the same formula as making all of them true at once. |
| Simplification.PropagateAllAppend | Functions.py:79-97 | Applying one run and then another is the same as applying them joined. |
| Simplification.UnitPassPropagates | Functions.py:83-97 | The for-loop either ends in `{∅}` or has applied every visited literal in turn. |
| Simplification.UnitPassConsistent | Functions.py:83-97 | A for-loop that does not end in `{∅}` never visits a literal after its complement. |
| Simplification.UnitDerivationExtend | Functions.py:79-97 | Appending unit literals of the current reduced formula extends a run of unit propagation: each new literal is forced by an input clause. |
| Simplification.RunExtend | Functions.py:79-97 | A round of distinct unit literals of the current formula extends the run: each is forced by an input clause, applying them continues the propagation, and the run stays free of complementary pairs unless the pass ends in `{∅}`. |
| Simplification.ConflictingUnits | Functions.py:89-93 | When the pass stops with a conflict, the formula just before the last literal holds both `{l}` and `{-l}`. |
| Simplification.UnitTraceConflict | Functions.py:89-93 | A conflict is reached along a propagation run with no complementary pair, after which the formula holds complementary unit clauses. |
| Simplification.UnitTraceStep | Functions.py:79-97 | One round of the outer loop keeps the trace: the run stays a propagation run, the formula is `{∅}` or the input reduced by the run, and every unit literal of the input is in the run. |
| Simplification.UnitClosedForm | Functions.py:73-100 | Unless it is `{∅}`, the result of the rule is the input with the applied literals made true, and every input clause they do not touch survives. |
| Simplification.UnitClauseRule | Functions.py:73-100 | The result meets `UnitRuleSpec`. It is `{∅}` or has no unit clause. It is `{∅}` when `{l}` and `{-l}` are both present. Each clause lies inside an input clause and the count never grows. No clause mentions a unit literal of the input. The input comes back unchanged when it has no unit clause. Satisfiability is kept. Besides `{∅}`, the result holds the empty clause only if the input did, and no nonempty input clause is struck to nothing, even when the input already holds the empty clause. A ghost run of applied literals is returned, each forced by an input clause. The result is one of two things. Either it is the input with those literals applied one after the other, no literal comes after its complement, and every unit literal of the input is in the run. Or it is `{∅}`, reached when the run, free of complementary pairs, leaves complementary unit clauses. |
| Simplification.RunOfOneLiteral | Functions.py:79-97 | When every clause other than `{l}` holds two literals other than `-l`, propagation can only ever force `l`. |
| Simplification.UnitRuleSingleUnit | Functions.py:73-100 | On a formula whose only unit clause is `{l}`, where no other clause mentions `l` or `-l` and each holds two literals, propagation ends with the formula minus `{l}` and no conflict. |
| Simplification.UnitPassConflictFree | Functions.py:86-97 | A pass of the for-loop that does not end in `{∅}` met no conflict: at no step was `{-lit}` present. |
| Simplification.ConflictFreeAppend | Functions.py:79-97 | Two conflict-free passes, one after the other, make a conflict-free run. |
| Simplification.NoClauseEmptiedStep | Functions.py:86-97 | Applying one more literal `l` while `{-l}` is absent strikes no further nonempty input clause to nothing. |
| Simplification.ConflictFreeNoEmptied | Functions.py:79-97 | A run without conflicts and without complementary pairs strikes no nonempty input clause to nothing. |
| Simplification.UnitRuleForcedConflict | Functions.py:73-100 | With `{l}`, `{-l, m}` and `{-l, -m}` in the input, every result meeting the rule's contract is `{∅}`, whether or not the input already holds the empty clause. |
| Simplification.UnitRuleStrayEmptyExample | Functions.py:73-100 | On `{{}, {1}, {-1, 2}, {-1, -2}, {5, -5}}` the rule gives `{∅}`, not `{{}, {5, -5}}`. |
| Simplification.UnitRuleNoConflictExample | Functions.py:73-100 | On the unsatisfiable `{{1}, {2, 3}, {-2, 3}, {2, -3}, {-2, -3}}`, propagation ends with the four 2-clauses, not `{∅}`. |
| Simplification.UnitRuleExample | Functions.py:73-100 | Any result meeting the rule's contract on `{{1}, {2, 3}}` is `{{2, 3}}`. |
| Simplification.RemovePureLiterals | Functions.py:127-134 | The for-loop removes the clauses holding each pure literal and returns early only at `{∅}` or at the empty formula. |
| Simplification.RemovePureSatisfiable | Functions.py:115-135 | Removing the clauses that hold pure literals keeps satisfiability in both directions. |
| Simplification.PureRuleStep | Functions.py:119-130 | Each round with a pure literal removes at least one clause and keeps the loop's invariant, so the rule terminates. |
| Simplification.PureFreePartKept | Functions.py:119-130 | A sub-formula without a pure literal loses no clause when the clauses holding pure literals are removed. |
| Simplification.PureLiteralRule | Functions.py:115-135 | The result meets `PureRuleSpec`. It is a subset of the input with no pure literal. It contains every subset of the input that has no pure literal, so it is the largest such subset. The input comes back unchanged when nothing is pure. Every removed clause holds a literal whose complement no longer occurs. Satisfiability is kept. |
| Simplification.PureRuleExample | Functions.py:115-135 | Any result meeting the rule's contract on `{{1, 2}, {-2, 3}, {-3, 2}}` is `{{-2, 3}, {-3, 2}}`. |
| Simplification.SimplifyRoundFixpoint | Functions.py:140-148 | If a round leaves the clause count unchanged, its result has neither a unit clause nor a pure literal. |
| Simplification.SimplifyRound | Functions.py:142-148 | The result meets `RoundSpec`: it is what the unit-clause rule may return, when that is `{∅}`, and otherwise what the pure-literal rule may return on that. So a conflict gives `{∅}` even when the input already holds the empty clause. One round derives its result from the input. A round that keeps the count ends simplified. `{∅}` and already simplified formulas pass through unchanged. |
| Simplification.RoundChainExtend | Functions.py:141-148 | Appending one more round to a chain of rounds keeps it a chain. |
| Simplification.ApplySimplifications | Functions.py:139-149 | A ghost chain of at least one round leads from the input to the result, each round meeting `RoundSpec`, so a conflict in any round gives `{∅}`, with or without an empty clause in the input. The loop terminates with `{∅}` or with a formula that has no unit clause and no pure literal. The result is subsumed by the input, no larger and equisatisfiable. `{∅}` and simplified formulas are returned unchanged. |
| Simplification.SimplifyExample | Functions.py:139-149 | Every chain of rounds from `{{1}, {2, 3}, {-2, -3}}` ends in `{{2, 3}, {-2, -3}}`. |
| Simplification.SimplifyExampleRun | Functions.py:139-149 | `apply_simplifications` returns `{{2, 3}, {-2, -3}}` on `{{1}, {2, 3}, {-2, -3}}`. |
| Simplification.SimplifyTwice | Functions.py:139-149 | Applying `apply_simplifications` to its own output changes nothing. |
| Resolution.Resolvent | Functions.py:51 | A resolvent lies inside the union of its parents, and the resolved pair is gone unless the other parent also holds it. |
| Resolution.Resolvents | Functions.py:42-54 | No returned clause is a tautology, each lies inside `ci ∪ cj`, and nothing is returned without a complementary pair. |
| Resolution.TwoPairsTautology | Functions.py:49-53 | When two different complementary pairs link the clauses, resolving on one of them leaves a tautology. |
| Resolution.ResolventsAtMostOne | Functions.py:42-54 | Two clauses have at most one non-tautological resolvent. |
| Resolution.ResolventsSymmetric | Functions.py:42-54 | `resolve(ci, cj)` and `resolve(cj, ci)` give the same clauses, so visiting each unordered pair once loses nothing. |
| Resolution.ResolventSound | Functions.py:51 | An assignment satisfying both parents satisfies their resolvent on a nonzero literal. |
| Resolution.ResolventsSound | Functions.py:42-54 | Every clause `resolve` returns is implied by its two parents. |
| Resolution.Resolve | Functions.py:42-54 | The returned list holds exactly the non-tautological resolvents and has at most one element; it is empty when there is no complementary pair. |
| Resolution.AllResolvents | Functions.py:163-182 | No resolvent collected from the pairs is a tautology. |
| Resolution.ResolutionStepOrigin | Functions.py:152-187 | Each clause of the result is an input clause or a resolvent of two distinct input clauses. |
| Resolution.ResolutionStepGrows | Functions.py:177-187 | Unless the result is `{∅}`, no input clause is lost. The flag is true exactly when the result differs from the input. |
| Resolution.ResolutionStepSatisfiable | Functions.py:152-187 | One resolution pass keeps satisfiability in both directions, and `{∅}` is returned only for unsatisfiable input. |
| Resolution.ResolutionStepByNew | Functions.py:184-187 | Without an empty resolvent, the outcome is the input with False when nothing is new, and otherwise the input plus the new resolvents with True. |
| Resolution.ClauseList | Functions.py:159 | The list holds every clause of the set exactly once. |
| Resolution.ClausePairs | Functions.py:163-166 | The pair list holds exactly the pairs `(clauses[i], clauses[j])` with `i < j`. |
| Resolution.PairsResolventsMembers | Functions.py:169-171 | A clause is a resolvent of the listed pairs exactly when some listed pair yields it. |
| Resolution.PairsCoverAll | Functions.py:163-171 | Resolving the listed pairs yields exactly the resolvents of all pairs of distinct clauses. |
| Resolution.CollectResolvents | Functions.py:171-182 | The inner loop finds the empty clause exactly when a resolvent is empty; otherwise it adds each resolvent not already present. |
| Resolution.ScanStep | Functions.py:169-182 | One more pair extends the collected new resolvents, or else the empty clause has been derived. |
| Resolution.ScanPairs | Functions.py:169-182 | The pass stops early exactly when some pair has the empty resolvent; otherwise it collects every resolvent that is not an input clause. |
| Resolution.LimitedResolutionStep | Functions.py:152-187 | Python's three outcomes: `({∅}, True)` on an empty resolvent, `(input, False)` when nothing is new, and otherwise `(input ∪ resolvents, True)`. |
| Heuristics.OccAdd | Methods.py:24 | Adding a clause raises the occurrence count of exactly its literals by one. |
| Heuristics.OccPositive | Methods.py:24 | A literal occurs in the formula exactly when its occurrence count is positive. |
| Heuristics.ArgMax | Methods.py:25 | `max` with a key returns a key of greatest score; on an empty table it returns nothing, where Python raises. |
| Heuristics.FirstLiteral | Methods.py:17-18 | The result is a literal of some clause, or StopIteration. StopIteration is raised when the formula is empty or is `{∅}`, never when every clause is nonempty, and otherwise only when the empty clause is present. |
| Heuristics.RandomLiteral | Methods.py:20-21 | The result is some literal of `literal_set`; IndexError is raised exactly when there is none. |
| Heuristics.MostFrequentLiteral | Methods.py:23-25 | The result is an occurring literal contained in at least as many clauses as any other; ValueError is raised exactly when no literal occurs. |
| Heuristics.DlisCountClause | Methods.py:30-35 | One clause adds one to the count of each of its literals and one to the count of each literal whose complement it holds. |
| Heuristics.DlisCountsStep | Methods.py:30-35 | After one more clause, every count is the DLIS score over the clauses seen. |
| Heuristics.DlisCounts | Methods.py:28-35 | Every literal of the universe is counted `occ(x) + occ(-x)`. |
| Heuristics.Dlis | Methods.py:27-43 | The result is an occurring literal of greatest `occ(x) + occ(-x)`; it is `None` exactly when no literal occurs. |
| Heuristics.WeightSumRemove | Methods.py:48-51 | A sum of clause weights is the same whichever clause is taken first, so the accumulation order does not matter. |
| Heuristics.JwScoreAdd | Methods.py:48-51 | Adding a clause adds its weight `2^-len` to the score of exactly its literals. |
| Heuristics.JwScoreAbsent | Methods.py:47-51 | A literal that occurs nowhere has score zero, the Counter's default. |
| Heuristics.AddWeight | Methods.py:50-51 | The inner loop adds the clause's weight to each of its literals, creating the entries that are missing. |
| Heuristics.JwScoresStep | Methods.py:48-51 | After one more clause, the scores are the Jeroslow–Wang scores over the clauses seen. |
| Heuristics.JwScores | Methods.py:47-51 | Every occurring literal gets the sum of `2^-len(c)` over the clauses `c` containing it. |
| Heuristics.JeroslowWang | Methods.py:46-52 | The result is an occurring literal of greatest Jeroslow–Wang score; it is `None` exactly when no literal occurs. |
| Heuristics.ClausesOfLength | Methods.py:59-60 | Given the shortest nonempty length, the selection is nonempty and holds exactly the nonempty clauses no longer than any other nonempty clause. |
| Heuristics.ShortestLength | Methods.py:59 | The result is the length of the shortest nonempty clause. |
| Heuristics.MomsCountClause | Methods.py:63-67 | One clause adds one to each of its literals whose variable occurs positively, creating the entries that are missing. |
| Heuristics.MomsCounts | Methods.py:62-67 | The counted literals are exactly the literals of the shortest clauses whose variable occurs positively. Each count is the number of shortest clauses containing the literal. |
| Heuristics.Moms | Methods.py:54-71 | `None` when no literal occurs. Otherwise the result is a literal of a shortest clause whose variable occurs positively, contained in at least as many shortest clauses as any other such literal. `None` comes back only when no such literal exists. It never comes back on a nonempty formula without the empty clause and with no pure literal. |
| Heuristics.MomsCandidatesNonEmpty | Methods.py:63-69 | With no pure literal, some literal of a shortest clause passes the `abs(lit) in literals` test. |
| Heuristics.LiteralChoice | Methods.py:17-71 | Every chosen literal occurs in the formula. An unrecognised method name returns `None`. Only the first three heuristics raise. On a nonempty formula without the empty clause and with no pure literal, every recognised method returns a literal. Each recognised name gives exactly what its heuristic promises: first_literal and random_literal as above, a literal of greatest `Occ` for most_frequent_literal, of greatest `occ(x) + occ(-x)` for dlis, of greatest Jeroslow–Wang score for jeroslow_wang, and the moms choice among the shortest clauses, each with its error or `None` case. |

## Left out

- `print_clause_set`, `log_results` and `load_from_file` (Functions.py:2-30) are not modelled: they only print, append to a results file or read a file.
- The printed trace is not modelled: the `p`-gated prints, the unconditional `print("UNSATISFIABLE")` and the clause numbering `idx` in `limited_resolution_step` only produce output.
- The DPLL, DP and saturation drivers and the benchmark script in `SAT solvers main.py` are not part of this model.
- Heuristics.RandomLiteral: keeps only membership of the result, not the uniform distribution of `random.choice`.
- Heuristics.JwScores: computes exact reals `2^-len(c)`; floating-point rounding and its effect on ties are not modelled.
- Heuristics.ArgMax: returns some key of greatest score, not the first in dictionary order; all tie-breaking by iteration order is left to the verifier's choice.
- Heuristics.FirstLiteral: the "first" clause and literal are arbitrary members, since Python's set iteration order is not modelled.
- Resolution.ClausePairs: states which pairs are listed, not their order.
- Resolution.LimitedResolutionStep: returns sets where Python returns lists; the input is a set, so no clause is duplicated.
- Python integers are unbounded, as in Dafny, so no width or overflow is modelled.
