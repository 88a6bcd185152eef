# EL reasoner: a Dafny model of the completion procedure

The repository implements a reasoner for the description logic EL. To find
the subsumers of a concept, it builds a completion graph. The graph starts
with one individual `d0` that holds the concept. Six completion rules then
add concepts, successor individuals and role edges until a whole pass over
the individuals changes nothing. The answer is what `d0` holds at the end.
The TBox comes from a Java library through a gateway. A formatter turns
each side of an axiom into a Python value: a string for an atomic concept,
`("and", frozenset({C, D}))` for a conjunction, and
`("exists", (r, C))` for an existential restriction.

The model has six modules, one per file:

- `concepts.dfy` (`Concepts`): the concept datatype and the axiom datatype.
  An axiom is its kind string plus an optional `(lhs, rhs)`; `None` stands
  for the formatter raising. The nested structure that the relevance
  extraction walks is the ghost function `Components`.
- `relevance.dfy` (`Relevance`): `extract_relevant_concepts`. It is
  written as two imperative passes over the axiom sequence plus the
  recursive walk, and proved equal to the specification `RelevantSet`.
- `graph.dfy` (`Graph`): the graph `map<string, Ind>`. For each rule, this
  module holds what the rule finds to do as a specification function:
  candidates, pending roles and propagation targets. It also holds the
  successor-name construction, the expansion function `Expand`, and the
  lemmas about these.
- `reasoner.dfy` (`Reasoner`): the class `ELReasoner`. Its field
  `individuals` is updated in place by the six rule methods, the driver
  `RunCompletion` and `GetAllSubsumers`. Each rule method is proved
  against the specification functions of `Graph`: when it returns True,
  what the new graph is, and that it keeps the class invariant `Valid`.
  `SubsumersOf` is one query on a freshly constructed reasoner.
- `individual.dfy` (`Individuals`): the `Individual` class with its
  `Role` edges and `has_role`.
- `scenarios.dfy` (`Scenarios`): the three queries of the repository's
  test script, on hand-built TBoxes.

## Behaviours of the source that the model keeps

- The top concept is the string `"⊤"`, so it is the atomic concept
  `Name("⊤")`.
- The nested extraction iterates `concept[1]` of every tuple. For an
  existential this yields the role string as well as the filler, so the
  role name becomes a relevant atomic concept (`RoleNamesAreRelevant`).
- `existential_rule_1` gives up on the whole rule as soon as one
  existential on a role the individual already has is witnessed.
  `FindNewRoles` reports this as `Witnessed`.
- An existential on a role the individual already has is never expanded.
  Only pending roles (`PendingRoles`) get successors. `QuietMeans` states
  the consequence: at a fixpoint, an unwitnessed individual has a role for
  each of its relevant existentials, but need not have a successor holding
  the filler.
- `new_roles` keeps one filler per role. A later existential on the same
  role overwrites an earlier one. `Expansions` allows any of the fillers,
  because iteration order over a set is not fixed.
- Successor names `new_<role>_<filler>` can collide:
  - different pairs can give the same name (`SuccessorNamesCollide`);
  - an existing individual with that name is reset to hold just the filler
    (`ExpansionResetsExisting`);
  - `d` itself can be the one reset (`ExpansionOverwritesItself`).

  `Graph.Monotone` therefore does not hold across an expansion. The driver
  keeps only `KeepsUnmarked`: individuals without the `new_` prefix never
  lose concepts.
- `disjunction_rule` reads only `GeneralConceptInclusion` axioms
  (`EquivalencesNeverPropagate`). It returns True whenever a held concept
  is the lhs of such an axiom with a relevant rhs, even if the rhs is
  already held (`PropagationReportsNoChange`). As written, a settled graph
  therefore holds no GCI lhs at all (`SettledAvoidsGciLhs`), and a query
  for such a concept never settles (see Findings).
- Python sets have no fixed iteration order. Dictionaries iterate in
  insertion order, and here that order follows the order of the sets
  the entries came from (`individuals` at el_reasoner.py:51,
  `new_roles.items()` at :102, `roles.items()` at :110). Every loop in the
  model picks its next element with `:|`, so each contract holds for any
  order, which includes insertion order.
- The formatter used by the tests prints every concept as a string.
  `AtomicTBox` shows that for such a TBox the relevance set is exactly the
  formatted sides. No nested concept is ever relevant, so the conjunction
  and existential rules can only add concepts that occur verbatim as a side.

## Model

| member | source | states |
|---|---|---|
| Concepts.Sides | el_reasoner.py:16-20 | an axiom contributes both formatted sides, or nothing when formatting raised |
| Concepts.ComponentsOfAllIff | el_reasoner.py:27-29 | walking the operands of a conjunction collects exactly the components of some operand |
| Concepts.ComponentsIff | el_reasoner.py:25-29 | a nested concept is a direct part or a nested concept of a part; strings have none |
| Concepts.ComponentsClosed | el_reasoner.py:25-29 | the nested concepts of a nested concept are nested concepts of the original |
| Concepts.RoleNameIsComponent | el_reasoner.py:26-29 | an existential's nested concepts are its role name, its filler and the filler's nested concepts |
| Relevance.AddNested | el_reasoner.py:25-29 | the recursive walk adds exactly the nested concepts of its argument to the set |
| Relevance.ExtractRelevantConcepts | el_reasoner.py:11-42 | the two passes compute the relevance set: all formatted sides plus everything nested in them |
| Relevance.RelevantIff | el_reasoner.py:11-42 | a concept is relevant iff some axiom that formats mentions it as a side or nested |
| Relevance.GatheredIff | el_reasoner.py:15-40 | after n axioms, the two passes hold exactly what the first n axioms mention |
| Relevance.SidesAreRelevant | el_reasoner.py:15-20 | both sides of every axiom that formats are relevant |
| Relevance.RelevantClosed | el_reasoner.py:32-40 | every nested concept of a relevant concept is relevant |
| Relevance.MalformedAxiomSkipped | el_reasoner.py:15-40 | an axiom whose formatting raises changes nothing and does not stop the axioms after it |
| Relevance.RoleNamesAreRelevant | el_reasoner.py:26-29 | the role string and the filler of a relevant existential are relevant |
| Relevance.AtomicTBox | el_reasoner.py:26 | with string-only sides nothing nested is added: relevant iff a formatted side |
| Graph.AddConceptKeeps | el_reasoner.py:64 | adding a concept grows the graph, keeps it closed and bounded, and changes it iff the concept was absent |
| Graph.ConjunctionShape | el_reasoner.py:82-85 | the conjunctions built are exactly the two-operand conjunctions of held concepts |
| Graph.SuccessorNameMarked | el_reasoner.py:103 | every successor name starts with new_ and differs from d0 |
| Graph.SuccessorNamesCollide | el_reasoner.py:103 | two different (role, filler) pairs can produce the same successor name |
| Graph.Expand | el_reasoner.py:102-105 | the expansions add exactly the successor names to the graph's individuals |
| Graph.ExpandKeeps | el_reasoner.py:102-105 | expansions keep every successor listed in the graph, add only fillers as concepts, and leave unprefixed individuals' concepts alone |
| Graph.ExpandOneKeeps | el_reasoner.py:103-105 | one expansion keeps every listed successor present, adds only the filler as a concept, and leaves unprefixed individuals' concepts alone |
| Graph.ExpandOneGrows | el_reasoner.py:103-105 | one expansion under a name the original graph does not use only grows it |
| Graph.ExpandMonotone | el_reasoner.py:102-105 | when no successor name is taken, the expansions only grow the graph |
| Graph.ExpandSuccessor | el_reasoner.py:104 | a successor whose name no later expansion reuses, and which is not d, holds exactly its filler and has no roles |
| Graph.ExpandFreshSuccessors | el_reasoner.py:104 | without collisions, each successor holds exactly its filler and has no roles, and d keeps its concepts |
| Graph.ExpandOneAtSource | el_reasoner.py:104-105 | one expansion whose successor name is not d only appends the successor to d's list for the role |
| Graph.ExpandAtSource | el_reasoner.py:105 | when no successor name is d, d only gets the successors appended to its role lists |
| Graph.AppendAllKeys | el_reasoner.py:105 | setdefault adds exactly the roles expanded to d's role dictionary |
| Graph.AppendAllOther | el_reasoner.py:105 | a role that is not expanded keeps its successor list |
| Graph.AppendAllNew | el_reasoner.py:105 | a role that was absent and is expanded once gets a list holding just its successor |
| Graph.AppendAllFresh | el_reasoner.py:105 | appending to fresh, distinct roles gives each role a one-element list and keeps the old lists |
| Graph.ExpansionEffect | el_reasoner.py:99-105 | one expansion round gives each pending role a single new successor holding just its filler; d keeps its concepts and old edges |
| Graph.ExpansionResetsExisting | el_reasoner.py:104 | a successor name already in use is reset to hold just the filler, so the graph can shrink |
| Graph.ExpansionOverwritesItself | el_reasoner.py:103-105 | an individual named like its own successor loses its concepts to the expansion |
| Graph.EquivalencesNeverPropagate | el_reasoner.py:122-124 | with no GeneralConceptInclusion in the TBox there is nothing to propagate |
| Graph.PropagationReportsNoChange | el_reasoner.py:128-130 | propagation answers True for a rhs already held, and adding it changes nothing |
| Graph.QuietMeans | el_reasoner.py:47-57 | at a fixpoint an individual holds ⊤, the relevant conjuncts and pair conjunctions, the relevant existentials its successors witness, and the rhs of each firing GCI |
| Graph.SettledAvoidsGciLhs | el_reasoner.py:119-133 | as written, no individual of a settled graph holds the lhs of a GCI |
| Graph.SettledFollowsGcis | el_reasoner.py:119-133 | with the corrected rule, an individual of a settled graph holding a GCI's lhs holds its rhs |
| Reasoner.ELReasoner.constructor | el_reasoner.py:2-6 | an empty graph and the relevance set of the TBox |
| Reasoner.ELReasoner.IsRelevant | el_reasoner.py:44-45 | membership in the relevance set of the TBox |
| Reasoner.ELReasoner.IsEntailment | el_reasoner.py:59-60 | a held concept is relevant, ⊤ or a seed |
| Reasoner.ELReasoner.InitializeIndividual | el_reasoner.py:8-9 | d is (re)set to hold just the concept, with no roles |
| Reasoner.ELReasoner.TopRule | el_reasoner.py:62-66 | ⊤ is held afterwards; True iff it was absent; nothing else changes |
| Reasoner.ELReasoner.UnfoldRule | el_reasoner.py:68-78 | d gains exactly the relevant operands of its conjunctions; True iff d's concepts strictly grew |
| Reasoner.ELReasoner.ConjunctionRule | el_reasoner.py:80-88 | True iff a relevant, absent conjunction of two distinct held concepts exists, and then exactly one such is added |
| Reasoner.ELReasoner.FindNewRoles | el_reasoner.py:91-100 | reports whether an existential is witnessed; otherwise maps exactly the pending roles to a relevant held filler |
| Reasoner.ELReasoner.AddSuccessors | el_reasoner.py:101-105 | creates one successor per entry, in some order, as the expansion function describes |
| Reasoner.ELReasoner.ExpansionRule | el_reasoner.py:90-107 | True iff nothing is witnessed and a role is pending; then the graph is the expansion of one filler per pending role |
| Reasoner.ELReasoner.SummaryRule | el_reasoner.py:109-117 | True iff a relevant, absent existential is witnessed by a successor, and then exactly one such is added |
| Reasoner.ELReasoner.PropagationRule | el_reasoner.py:119-133 | True iff a held lhs of a formatted GCI has a relevant rhs, and then one such rhs is added, possibly already held |
| Reasoner.ELReasoner.PropagationRuleChecked | el_reasoner.py:128-130 | corrected rule: True iff some relevant rhs of a firing GCI is missing, and then one missing rhs is added |
| Reasoner.ELReasoner.ApplyLocalRules | el_reasoner.py:52-54 | the first three rules only grow the graph; when none answers True it is unchanged and they are quiet on d |
| Reasoner.ELReasoner.ApplyEdgeRules | el_reasoner.py:55-57 | the last three rules keep unprefixed individuals' concepts; when none answers True the graph is unchanged and they are quiet on d |
| Reasoner.ELReasoner.ApplyRules | el_reasoner.py:52-57 | all six rules run on d; when none answers True the graph is unchanged and d is at a fixpoint |
| Reasoner.ELReasoner.RunCompletion | el_reasoner.py:47-57 | on exit after a pass with no change, every individual is at a fixpoint of all six rules |
| Reasoner.ELReasoner.GetAllSubsumers | el_reasoner.py:135-139 | the answer is d0's concepts in a settled graph; it holds the query concept and ⊤ and only relevant concepts besides |
| Reasoner.SubsumersOf | el_reasoner.py:135-139 | a query on a fresh reasoner: the answer is closed under the rules; as written, a GCI lhs query never settles; corrected, the answer follows every GCI |
| Individuals.Individual.constructor | individual.py:2-6 | the given name, no initial concept, no concepts, no roles |
| Individuals.Individual.HasRole | individual.py:8-14 | True iff some edge has the relation and a successor of that name; False with no edges; reads only |
| Individuals.OtherRelationsIgnored | individual.py:10-11 | an edge on another relation never changes the answer, whatever its successor |
| Scenarios.DogQuery | tests/test.py:7-11 | as written, the query for Dog in Dog ⊑ Mammal ⊑ Animal never settles |
| Scenarios.BusQuery | tests/test.py:12-16 | as written, the query for Bus never settles |
| Scenarios.DogQueryChecked | tests/test.py:7-11 | with the corrected rule, a settled answer for Dog holds Dog, Mammal, Animal and ⊤ |
| Scenarios.BusQueryChecked | tests/test.py:12-16 | with the corrected rule, a settled answer for Bus holds Bus, ⊤ and the right-hand side printed as one string, and never ∃hasFuelType.Diesel |
| Scenarios.ChildQuery | tests/test.py:17-21 | Person is never a subsumer of Child under an equivalence axiom |

## Findings

| source | as written | input that shows it | evidently intended | confidence | as-written member | corrected member |
|---|---|---|---|---|---|---|
| el_reasoner.py:128-130 | `disjunction_rule` adds the rhs and returns True without checking whether the rhs is already held | TBox Dog ⊑ Mammal, Mammal ⊑ Animal, query Dog: every pass reports a change, so `run_completion` never returns | return True only when the rhs was absent, so that the query, if it settles, has Mammal and Animal among the subsumers (tests/test.py:7-11) | high; not executed | Scenarios.DogQuery | Reasoner.ELReasoner.PropagationRuleChecked |

`RunCompletion`, `GetAllSubsumers` and `SubsumersOf` take a flag
`checkRhs`. With `false` they run the rule as written; with `true` they
run the corrected rule. `Scenarios.DogQueryChecked` and
`Scenarios.BusQueryChecked` state what the corrected query holds if it
settles. The model does not prove that it settles for any pass limit.

Even with the corrected rule, two of the three test queries cannot give
the subsumers tests/test.py expects. Both results rest on the formatter
printing every concept as a string, so a conjunction on the right of an
axiom becomes one atomic concept:

- Bus (tests/test.py:12-16): the axiom Bus ⊑ PublicTransport ⊓
  ∃hasFuelType.Diesel has the string "PublicTransport ⊓
  ∃hasFuelType.Diesel" as its rhs. `∃hasFuelType.Diesel` is not a side
  of any axiom, so it is never relevant and never in the answer
  (`Scenarios.BusQueryChecked`).
- Child (tests/test.py:17-21): the propagation rule never reads the
  equivalence axiom, and Person is not relevant, so Person is never in
  the answer under either rule (`Scenarios.ChildQuery`).

## Left out

- The Java gateway, the OWL parser, the formatter and
  `axiom.getClass().getSimpleName()`. The TBox is an input sequence of
  axioms, each a kind string plus the formatted `(lhs, rhs)`, or `None`
  when formatting raised.
- How Python prints a non-atomic filler inside a successor name. It is the
  constructor parameter `text`; an atomic filler prints as itself.
- `main.py` and the test scripts: command-line I/O and printing.
  `Scenarios` restates the three test queries on hand-built TBoxes; the
  strings stand for what the formatter prints.
- `roles.py`'s `__str__`: display only. `Role` is a datatype inside
  `individual.dfy`. Its `__str__` concatenates the successor as a string,
  while `has_role` reads `successor.name`; the model follows `has_role`.
- Reasoner.ELReasoner.RunCompletion: termination is not modelled. A
  `fuel` bound on the number of passes stands in for it, and
  `GetAllSubsumers` returns `None` when the fuel runs out. As written the
  loop does not end once a held concept is a GCI lhs, so only partial
  correctness is stated.
- Reasoner.ELReasoner.RunCompletion: in Python, inserting a successor
  while `for d in self.individuals` runs raises "dictionary changed size
  during iteration". Each pass instead visits the individuals present
  when the pass starts.
- Reasoner.ELReasoner.GetAllSubsumers: the source never clears the graph
  between queries. The ghost field `seeds` records every concept an
  individual was initialised with. `SubsumersOf` states results only for
  one query on a fresh object.
- Reasoner.ELReasoner.ExpansionRule: it states `KeepsUnmarked` instead of
  `Monotone`, because a colliding successor name resets an individual.
- Reasoner.SubsumersOf: it does not state that the answer holds the
  existentials witnessed by d0's successors. That is stated about the
  graph in `Graph.QuietMeans`; the answer alone does not carry the
  successors.
- Scenarios.BusQueryChecked: it does not state whether PublicTransport
  and Vehicle are in the answer. They are relevant, and excluding them
  would need an invariant over the whole run, which the model does not
  state.
- Scenarios.ChildQuery: the equivalence axiom is modelled with both sides
  formatted as strings. Expected subsumers other than Person are not
  stated.
